// Elapsed-time formatting: `formatSeconds` (and its twin `formatTime` in the classic build)
// renders whole seconds as two-digit minutes, a colon and two-digit seconds.

module TimeFormat {
  import opened Grid

  function DigitChar(d: int): char
    requires 0 <= d < 10
  {
    (48 + d) as char
  }

  predicate IsDigit(ch: char) {
    48 <= ch as int <= 57
  }

  predicate AllDigits(s: string) {
    forall i :: 0 <= i < |s| ==> IsDigit(s[i])
  }

  /** `String(n)` for a non-negative integer: its decimal digits, without leading zeros. */
  function Decimal(n: nat): (s: string)
    ensures |s| >= 1 && forall i :: 0 <= i < |s| ==> IsDigit(s[i])
    ensures n < 10 <==> |s| == 1
  {
    if n < 10 then [DigitChar(n)] else Decimal(n / 10) + [DigitChar(n % 10)]
  }

  /** `s.padStart(2, "0")`: left-pad with zeros to length two; longer strings are kept whole. */
  function PadStart2(s: string): (r: string)
    ensures |r| == if |s| >= 2 then |s| else 2
    ensures r[|r| - |s|..] == s
    ensures forall i :: 0 <= i < |r| - |s| ==> r[i] == '0'
  {
    if |s| >= 2 then s else seq(2 - |s|, _ => '0') + s
  }

  function FormatSeconds(totalSeconds: nat): string {
    PadStart2(Decimal(totalSeconds / 60)) + ":" + PadStart2(Decimal(totalSeconds % 60))
  }

  /** The value of a string of decimal digits (leading zeros allowed). */
  function DigitsValue(s: string): nat
    requires AllDigits(s)
  {
    if s == [] then 0
    else
      assert IsDigit(s[|s| - 1]);
      10 * DigitsValue(s[..|s| - 1]) + (s[|s| - 1] as int - 48)
  }

  /** Reads `mm:ss` back: everything before the last three characters is minutes, the last two are seconds. */
  function ParseClock(s: string): Option<nat> {
    if |s| < 5 then None
    else
      var minutes, separator, seconds := s[..|s| - 3], s[|s| - 3], s[|s| - 2..];
      if separator != ':' || !AllDigits(minutes) || !AllDigits(seconds) || DigitsValue(seconds) >= 60 then None
      else Some(60 * DigitsValue(minutes) + DigitsValue(seconds))
  }

  /** Decimal digits read back to the number they were written from. */
  lemma {:induction false} DecimalRoundTrip(n: nat)
    ensures DigitsValue(Decimal(n)) == n
  {
    if n >= 10 {
      var s := Decimal(n);
      assert s[..|s| - 1] == Decimal(n / 10);
      DecimalRoundTrip(n / 10);
    }
  }

  /** Leading zeros do not change the value of a digit string. */
  lemma {:induction false} LeadingZeros(z: nat, s: string)
    requires AllDigits(s)
    ensures AllDigits(seq(z, _ => '0') + s)
    ensures DigitsValue(seq(z, _ => '0') + s) == DigitsValue(s)
  {
    var t := seq(z, _ => '0') + s;
    if s == [] {
      assert t == seq(z, _ => '0');
      ZerosValue(z);
    } else {
      assert t[..|t| - 1] == seq(z, _ => '0') + s[..|s| - 1];
      LeadingZeros(z, s[..|s| - 1]);
    }
  }

  lemma {:induction false} ZerosValue(z: nat)
    ensures DigitsValue(seq(z, _ => '0')) == 0
  {
    if z > 0 {
      assert seq(z, _ => '0')[..z - 1] == seq(z - 1, _ => '0');
      ZerosValue(z - 1);
    }
  }

  /** Padding keeps the digits and their value. */
  lemma PadKeepsValue(s: string)
    requires AllDigits(s)
    ensures AllDigits(PadStart2(s)) && DigitsValue(PadStart2(s)) == DigitsValue(s)
  {
    if |s| < 2 {
      LeadingZeros(2 - |s|, s);
    }
  }

  /** Numbers below 100 have at most two digits. */
  lemma DecimalShort(n: nat)
    requires n < 100
    ensures |Decimal(n)| <= 2
  {
    if n >= 10 {
      assert Decimal(n) == Decimal(n / 10) + [DigitChar(n % 10)];
    }
  }

  /** A clock text splits back into its minute and second digits. */
  lemma SplitClock(mm: string, ss: string)
    requires AllDigits(mm) && AllDigits(ss) && |mm| >= 2 && |ss| == 2
    ensures var r := mm + ":" + ss;
      |r| == |mm| + 3 && r[|r| - 3] == ':' && r[..|r| - 3] == mm && r[|r| - 2..] == ss
  {
  }

  /** A padded number is a digit string of length at least two (exactly two below 100) with the number's value. */
  lemma PaddedNumber(n: nat)
    ensures AllDigits(PadStart2(Decimal(n))) && DigitsValue(PadStart2(Decimal(n))) == n
    ensures |PadStart2(Decimal(n))| >= 2 && (n < 100 ==> |PadStart2(Decimal(n))| == 2)
  {
    if n < 100 {
      DecimalShort(n);
    }
    PadKeepsValue(Decimal(n));
    DecimalRoundTrip(n);
  }

  /** Below 100 minutes the text is exactly five characters `mm:ss`, all digits but the colon. */
  lemma FormatSecondsShape(t: nat)
    requires t < 6000
    ensures var r := FormatSeconds(t);
      |r| == 5 && r[2] == ':' && AllDigits(r[..2]) && AllDigits(r[3..])
  {
    PaddedNumber(t / 60);
    PaddedNumber(t % 60);
    SplitClock(PadStart2(Decimal(t / 60)), PadStart2(Decimal(t % 60)));
  }

  /** A well-formed clock text reads back as minutes times sixty plus seconds. */
  lemma ParseJoinedClock(mm: string, ss: string)
    requires AllDigits(mm) && AllDigits(ss) && |mm| >= 2 && |ss| == 2 && DigitsValue(ss) < 60
    ensures ParseClock(mm + ":" + ss) == Some(60 * DigitsValue(mm) + DigitsValue(ss))
  {
    var r := mm + ":" + ss;
    SplitClock(mm, ss);
    assert r[..|r| - 3] == mm;
    assert r[|r| - 2..] == ss;
    assert AllDigits(r[..|r| - 3]);
    assert AllDigits(r[|r| - 2..]);
    assert DigitsValue(r[|r| - 2..]) == DigitsValue(ss);
    assert DigitsValue(r[..|r| - 3]) == DigitsValue(mm);
  }

  /** Reading the formatted clock back gives the number of seconds it was made from. */
  lemma FormatSecondsRoundTrip(t: nat)
    ensures ParseClock(FormatSeconds(t)) == Some(t)
  {
    var mm := PadStart2(Decimal(t / 60));
    var ss := PadStart2(Decimal(t % 60));
    PaddedNumber(t / 60);
    PaddedNumber(t % 60);
    ParseJoinedClock(mm, ss);
    assert FormatSeconds(t) == mm + ":" + ss;
    assert ParseClock(FormatSeconds(t)) == ParseClock(mm + ":" + ss);
  }
}
