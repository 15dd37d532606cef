/**
 * `formatTime` of TimerWorker: a number of seconds rendered as
 * "minutes:seconds" with Java's "%02d:%02d" format, together with the
 * parser that reads such a text back.
 */
module TimeFormat {
  import opened Options
  import opened JvmInt

  predicate IsDigit(c: char) { '0' <= c <= '9' }

  predicate AllDigits(s: string) { forall i :: 0 <= i < |s| ==> IsDigit(s[i]) }

  function DigitChar(d: nat): (c: char)
    requires d < 10
    ensures IsDigit(c) && DigitValue(c) == d
  {
    ('0' as int + d) as char
  }

  function DigitValue(c: char): nat
    requires IsDigit(c)
  {
    c as int - '0' as int
  }

  /** The decimal digits of `n`, most significant first and without leading zeros (Java's "%d"). */
  function Digits(n: nat): string
    decreases n
  {
    if n < 10 then [DigitChar(n)] else Digits(n / 10) + [DigitChar(n % 10)]
  }

  /** The value of a string of decimal digits; leading zeros do not count. */
  function ParseDigits(s: string): nat
    requires AllDigits(s)
  {
    if s == [] then 0 else ParseDigits(s[..|s| - 1]) * 10 + DigitValue(s[|s| - 1])
  }

  /**
   * Java's "%02d": the decimal value in at least two characters, padded with
   * a leading zero; a negative value keeps its minus sign, which counts
   * toward the width. A non-negative field is all digits, exactly two of
   * them below 100, reads back as its value, and has no padding zero from
   * 10 on.
   */
  function Pad2(n: int): (r: string)
    ensures |r| >= 2
    ensures n >= 0 ==> AllDigits(r) && ParseDigits(r) == n && (|r| == 2 <==> n < 100)
    ensures n >= 10 ==> r[0] != '0'
    ensures n < 0 ==> r[0] == '-' && r[1..] == Digits(-n)
  {
    if n < 0 then
      DigitsShape(-n);
      "-" + Digits(-n)
    else if n < 10 then
      DigitsShape(n);
      DigitsRoundTrip(n);
      LeadingZero(Digits(n));
      "0" + Digits(n)
    else
      DigitsShape(n);
      DigitsRoundTrip(n);
      Digits(n)
  }

  /**
   * `formatTime`: whole minutes, a colon and the remaining seconds, each
   * field formatted with "%02d". `ParseTime` reads any non-negative count
   * back from its text.
   */
  function FormatTime(totalSeconds: Int64): (r: string)
    ensures totalSeconds >= 0 ==> ParseTime(r) == Some(totalSeconds)
  {
    var minutes := Quot(totalSeconds, 60);
    var seconds := Rem(totalSeconds, 60);
    if totalSeconds >= 0 then
      QuotRem(totalSeconds, 60);
      JoinedFields(minutes, seconds);
      Pad2(minutes) + ":" + Pad2(seconds)
    else
      Pad2(minutes) + ":" + Pad2(seconds)
  }

  /** Two non-negative fields joined by a colon split back into the fields, and read back as minutes and seconds. */
  lemma JoinedFields(minutes: nat, seconds: nat)
    requires seconds < 60
    ensures var r := Pad2(minutes) + ":" + Pad2(seconds);
      |r| >= 5 && r[|r| - 3] == ':' &&
      r[..|r| - 3] == Pad2(minutes) && r[|r| - 2..] == Pad2(seconds) &&
      ParseTime(r) == Some(minutes * 60 + seconds)
  {
    var m, s := Pad2(minutes), Pad2(seconds);
    var r := m + ":" + s;
    assert |s| == 2 && AllDigits(m) && AllDigits(s);
    assert r[..|r| - 3] == m;
    assert r[|r| - 2..] == s;
    assert ParseTime(r) == Some(ParseDigits(m) * 60 + ParseDigits(s));
  }

  /**
   * The inverse of `FormatTime` on its non-negative range: a text of one or
   * more digits, a colon and two digits, read as minutes and seconds.
   */
  function ParseTime(t: string): (r: Option<int>)
    ensures r.Some? ==> r.value >= 0
  {
    if |t| >= 4 && t[|t| - 3] == ':' && AllDigits(t[..|t| - 3]) && AllDigits(t[|t| - 2..]) then
      Some(ParseDigits(t[..|t| - 3]) * 60 + ParseDigits(t[|t| - 2..]))
    else
      None
  }

  /** `Digits` writes only digits, one of them below 10, two below 100, three or more from 100 on. */
  lemma {:induction false} DigitsShape(n: nat)
    ensures 1 <= |Digits(n)| && AllDigits(Digits(n))
    ensures |Digits(n)| == 1 <==> n < 10
    ensures |Digits(n)| <= 2 <==> n < 100
    ensures n >= 1 ==> Digits(n)[0] != '0'
    decreases n
  {
    if n >= 10 {
      DigitsShape(n / 10);
    }
  }

  /** Reading back what `Digits` wrote gives the number. */
  lemma {:induction false} DigitsRoundTrip(n: nat)
    ensures AllDigits(Digits(n)) && ParseDigits(Digits(n)) == n
    decreases n
  {
    DigitsShape(n);
    if n >= 10 {
      var s := Digits(n);
      assert s[..|s| - 1] == Digits(n / 10);
      DigitsRoundTrip(n / 10);
    }
  }

  lemma {:induction false} LeadingZero(s: string)
    requires AllDigits(s)
    ensures AllDigits("0" + s) && ParseDigits("0" + s) == ParseDigits(s)
    decreases |s|
  {
    var z := "0" + s;
    if s == [] {
      assert z[..0] == [];
    } else {
      assert z[..|z| - 1] == "0" + s[..|s| - 1];
      LeadingZero(s[..|s| - 1]);
    }
  }

  /**
   * For a non-negative count, `FormatTime` writes one or more minute digits,
   * a colon and a seconds field of exactly two digits between 00 and 59; the
   * text is five characters long exactly when the count is below 100 minutes.
   */
  lemma FormatTimeShape(totalSeconds: Int64)
    requires totalSeconds >= 0
    ensures var r := FormatTime(totalSeconds);
      |r| >= 5 && r[|r| - 3] == ':' &&
      AllDigits(r[..|r| - 3]) && AllDigits(r[|r| - 2..]) &&
      ParseDigits(r[|r| - 2..]) == totalSeconds % 60 &&
      (|r| == 5 <==> totalSeconds < 6000)
  {
    var minutes := Quot(totalSeconds, 60);
    var seconds := Rem(totalSeconds, 60);
    var r := FormatTime(totalSeconds);
    assert r == Pad2(minutes) + ":" + Pad2(seconds);
    QuotRem(totalSeconds, 60);
    JoinedFields(minutes, seconds);
    assert minutes < 100 <==> totalSeconds < 6000;
  }

}
