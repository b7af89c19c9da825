/** The "MM:SS" text that the timer shows for a number of seconds left.
    The text is padStart(2, "0") of String(Math.floor(t / 60)), a colon, and
    padStart(2, "0") of String(t % 60), where JavaScript's % truncates toward zero.
    Negative values can reach the display (a negative duration setting is kept),
    so Format is defined on every integer. */
module ClockDisplay {
  import opened Wrappers

  predicate IsDigit(c: char) { '0' <= c <= '9' }

  predicate AllDigits(s: string)
  {
    s == [] || (IsDigit(s[|s| - 1]) && AllDigits(s[..|s| - 1]))
  }

  function DigitChar(d: nat): (c: char)
    requires d < 10
    ensures IsDigit(c) && (c as int) - ('0' as int) == d
  {
    (('0' as int) + d) as char
  }

  /** Value of a digit character; meaningful only where IsDigit(c). */
  function DigitValue(c: char): int
  {
    (c as int) - ('0' as int)
  }

  /** String(n) for a non-negative integral number: decimal, no leading zeros. */
  function NatToString(n: nat): (r: string)
    ensures 1 <= |r| && AllDigits(r) && IsDigit(r[0])
    ensures n > 0 ==> r[0] != '0'
    ensures (|r| == 1) == (n < 10)
    ensures (|r| <= 2) == (n < 100)
    decreases n
  {
    if n < 10 then [DigitChar(n)] else NatToString(n / 10) + [DigitChar(n % 10)]
  }

  /** String(i) for an integral number; String(-0) is "0", which integers give for free. */
  function IntToString(i: int): (r: string)
    ensures 1 <= |r|
    ensures (r[0] == '-') == (i < 0)
    ensures i >= 0 ==> AllDigits(r)
  {
    if i < 0 then "-" + NatToString(-i) else NatToString(i)
  }

  /** s.padStart(2, "0"): left-pad with '0' up to length 2, never truncate. */
  function PadStart2(s: string): (r: string)
    ensures |r| == if |s| < 2 then 2 else |s|
    ensures forall i :: 0 <= i < |r| - |s| ==> r[i] == '0'
  {
    if |s| == 0 then "00" else if |s| == 1 then "0" + s else s
  }

  /** JavaScript's t % 60: congruent to t modulo 60, below 60 in magnitude,
      and with the sign of t (the division truncates toward zero). */
  function SecondsField(t: int): (r: int)
    ensures -60 < r < 60 && (t - r) % 60 == 0
    ensures t >= 0 ==> 0 <= r
    ensures t < 0 ==> r <= 0
  {
    if t >= 0 then t % 60 else -((-t) % 60)
  }

  /** The text updateTimerDisplay puts in the timer element for t seconds left. */
  function Format(t: int): (r: string)
  {
    PadStart2(IntToString(t / 60)) + ":" + PadStart2(IntToString(SecondsField(t)))
  }

  /** Value of a string of decimal digits ("" is 0, leading zeros allowed);
      meaningful only where AllDigits(s). */
  function DigitsValue(s: string): (v: int)
  {
    if s == [] then 0 else DigitsValue(s[..|s| - 1]) * 10 + DigitValue(s[|s| - 1])
  }

  /** Reads a display text back: minute digits, ':', exactly two second digits
      below 60. None when the text does not have that shape. */
  function ParseDisplay(s: string): (r: Option<int>)
  {
    if |s| >= 4 && s[|s| - 3] == ':' then ParseFields(s[..|s| - 3], s[|s| - 2..]) else None
  }

  function ParseFields(minutes: string, seconds: string): (r: Option<int>)
  {
    if AllDigits(minutes) && AllDigits(seconds) && DigitsValue(seconds) < 60
    then Some(DigitsValue(minutes) * 60 + DigitsValue(seconds))
    else None
  }

  lemma {:induction false} NatToStringValue(n: nat)
    ensures DigitsValue(NatToString(n)) == n
    decreases n
  {
    var s := NatToString(n);
    if n >= 10 {
      NatToStringValue(n / 10);
      assert s[..|s| - 1] == NatToString(n / 10);
    }
  }

  lemma {:induction false} LeadingZeroValue(s: string)
    ensures DigitsValue("0" + s) == DigitsValue(s)
    decreases |s|
  {
    var z := "0" + s;
    if s != [] {
      assert z[..|z| - 1] == "0" + s[..|s| - 1];
      LeadingZeroValue(s[..|s| - 1]);
    } else {
      assert z[..|z| - 1] == [];
    }
  }

  /** String(i) reads back as i: the digits after the '-' of a negative number
      are the digits of -i, and a non-negative number is its digits. */
  lemma IntToStringValue(i: int)
    ensures var r := IntToString(i);
      (i >= 0 ==> DigitsValue(r) == i) &&
      (i < 0 ==> AllDigits(r[1..]) && DigitsValue(r[1..]) == -i)
  {
    if i < 0 {
      NatToStringValue(-i);
      assert IntToString(i)[1..] == NatToString(-i);
    } else {
      NatToStringValue(i);
    }
  }

  /** padStart never truncates: the string padded is the end of the result,
      and a string of two or more characters comes back unchanged. */
  lemma PadStart2Suffix(s: string)
    ensures var r := PadStart2(s);
      r[|r| - |s|..] == s && (|s| >= 2 ==> r == s)
  {
  }

  /** The padded decimal text of n reads back as n; it has two digits when n < 100. */
  lemma PaddedValue(n: nat)
    ensures AllDigits(PadStart2(NatToString(n)))
    ensures DigitsValue(PadStart2(NatToString(n))) == n
    ensures 2 <= |PadStart2(NatToString(n))|
    ensures n < 100 ==> |PadStart2(NatToString(n))| == 2
  {
    NatToStringValue(n);
    var s := NatToString(n);
    if |s| == 1 {
      LeadingZeroValue(s);
    }
  }

  /** For t >= 0 the display is the minutes, padded to at least two digits,
      a colon and the seconds padded to exactly two digits. */
  lemma FormatShape(t: nat)
    ensures Format(t) == PadStart2(NatToString(t / 60)) + ":" + PadStart2(NatToString(t % 60))
    ensures |PadStart2(NatToString(t % 60))| == 2
  {
  }

  lemma ParseJoined(m: string, sec: string, minutes: int, seconds: int)
    requires 2 <= |m| && AllDigits(m) && DigitsValue(m) == minutes
    requires |sec| == 2 && AllDigits(sec) && DigitsValue(sec) == seconds && seconds < 60
    ensures ParseDisplay(m + ":" + sec) == Some(minutes * 60 + seconds)
  {
    var f := m + ":" + sec;
    var k := |f| - 3;
    assert k == |m| && f[k] == ':';
    assert f[..k] == m;
    assert f[k + 1..] == sec;
    assert ParseFields(m, sec) == Some(DigitsValue(m) * 60 + DigitsValue(sec));
    assert ParseDisplay(f) == ParseFields(f[..k], f[k + 1..]);
  }

  /** Reading the display back gives the seconds left: minutes * 60 + seconds == t
      with the seconds field below 60, whatever the number of minute digits. */
  lemma FormatRoundTrip(t: nat)
    ensures ParseDisplay(Format(t)) == Some(t)
  {
    FormatShape(t);
    PartsRoundTrip(t / 60, t % 60);
  }

  lemma PartsRoundTrip(minutes: nat, seconds: nat)
    requires seconds < 60
    ensures ParseDisplay(PadStart2(NatToString(minutes)) + ":" + PadStart2(NatToString(seconds)))
         == Some(minutes * 60 + seconds)
  {
    var m, sec := PadStart2(NatToString(minutes)), PadStart2(NatToString(seconds));
    assert 2 <= |m| && AllDigits(m) && DigitsValue(m) == minutes by { PaddedValue(minutes); }
    assert |sec| == 2 && AllDigits(sec) && DigitsValue(sec) == seconds by { PaddedValue(seconds); }
    ParseJoined(m, sec, minutes, seconds);
  }

  /** Two different non-negative times never show the same text. */
  lemma FormatInjective(a: nat, b: nat)
    requires Format(a) == Format(b)
    ensures a == b
  {
    FormatRoundTrip(a);
    FormatRoundTrip(b);
  }

  /** Below 100 minutes the text is exactly "MM:SS"; from 100 minutes on the
      minute field grows to three or more digits, since padding never truncates. */
  lemma FormatLength(t: nat)
    ensures t < 6000 ==> |Format(t)| == 5 && Format(t)[2] == ':'
    ensures t >= 6000 ==> |Format(t)| >= 6
  {
  }

  /** A negative duration of -5 minutes shows as "-5:00"; 90 seconds below zero
      shows as "-2:-30", because the minutes are floored and the seconds truncated. */
  lemma NegativeDisplay()
    ensures Format(-300) == "-5:00"
    ensures Format(-90) == "-2:-30"
  {
    assert NatToString(5) == "5";
    assert NatToString(2) == "2";
    assert NatToString(30) == "30" by { assert NatToString(3) == "3"; }
    assert SecondsField(-300) == 0;
    assert SecondsField(-90) == -30;
    assert -300 / 60 == -5;
    assert -90 / 60 == -2;
  }
}
