/**
 * The values the session timer renders from its state: the `MM:SS` clock
 * text and the two progress figures. All of them are pure functions of the
 * elapsed seconds (and of the target duration for the progress figures).
 */
module TimerDisplay {
  import opened Wrappers

  /** The target duration, in minutes, when the caller gives none. */
  const DefaultTargetDuration: int := 45

  // ---------------------------------------------------------------------
  // Decimal rendering: Number.prototype.toString() on a non-negative
  // integer, and the inverse reading used to state round trips.
  // ---------------------------------------------------------------------

  predicate IsDigit(c: char) {
    '0' <= c <= '9'
  }

  predicate IsDigits(s: string) {
    forall i :: 0 <= i < |s| ==> IsDigit(s[i])
  }

  function DigitChar(d: nat): (c: char)
    requires d < 10
    ensures IsDigit(c) && c as int - '0' as int == d
  {
    ('0' as int + d) as char
  }

  function DigitValue(c: char): nat
    requires IsDigit(c)
  {
    c as int - '0' as int
  }

  /** The decimal digits of `n`, most significant first, without leading zeros. */
  function Decimal(n: nat): (s: string)
    ensures |s| >= 1 && IsDigits(s)
    ensures |s| > 1 ==> s[0] != '0'
    decreases n
  {
    if n < 10 then [DigitChar(n)] else Decimal(n / 10) + [DigitChar(n % 10)]
  }

  /** The number a string of decimal digits denotes (leading zeros allowed). */
  function DecimalValue(s: string): nat
    requires IsDigits(s)
  {
    if s == [] then 0 else DecimalValue(s[..|s| - 1]) * 10 + DigitValue(s[|s| - 1])
  }

  lemma {:induction false} DecimalRoundTrip(n: nat)
    ensures DecimalValue(Decimal(n)) == n
  {
    if n >= 10 {
      var s := Decimal(n);
      assert s[..|s| - 1] == Decimal(n / 10);
      DecimalRoundTrip(n / 10);
    }
  }

  /** One digit exactly below 10, two digits exactly from 10 to 99. */
  lemma {:induction false} DecimalLength(n: nat)
    ensures |Decimal(n)| == 1 <==> n < 10
    ensures |Decimal(n)| == 2 <==> 10 <= n < 100
  {
    if n >= 10 {
      DecimalLength(n / 10);
    }
  }

  /** A leading '0' does not change the value of a digit string. */
  lemma {:induction false} LeadingZero(s: string)
    requires IsDigits(s)
    ensures IsDigits("0" + s) && DecimalValue("0" + s) == DecimalValue(s)
  {
    var z := "0" + s;
    if s != [] {
      assert z[..|z| - 1] == "0" + s[..|s| - 1];
      LeadingZero(s[..|s| - 1]);
    } else {
      assert z[..|z| - 1] == [];
    }
  }

  // ---------------------------------------------------------------------
  // formatTime (components/SessionTimer.tsx:60-64)
  // ---------------------------------------------------------------------

  /** String.prototype.padStart(2, '0'): left-pad with '0' to at least two characters. */
  function PadStart2(s: string): (r: string)
    ensures |r| == if |s| >= 2 then |s| else 2
    ensures r[|r| - |s|..] == s
    ensures forall i :: 0 <= i < |r| - |s| ==> r[i] == '0'
  {
    if |s| >= 2 then s else if |s| == 1 then "0" + s else "00"
  }

  lemma ColonThirdFromEnd(mins: string, secs: string)
    requires |mins| >= 2 && |secs| == 2
    ensures var r := mins + ":" + secs; |r| >= 5 && r[|r| - 3] == ':'
  {
  }

  /** The clock text: whole minutes and remaining seconds, each padded to two digits. */
  function FormatTime(seconds: nat): (r: string)
    ensures |r| >= 5 && r[|r| - 3] == ':'
  {
    DecimalLength(seconds % 60);
    ColonThirdFromEnd(PadStart2(Decimal(seconds / 60)), PadStart2(Decimal(seconds % 60)));
    PadStart2(Decimal(seconds / 60)) + ":" + PadStart2(Decimal(seconds % 60))
  }

  /** The value of a minutes field and a seconds field: digits only, and seconds below 60. */
  function ClockFields(mins: string, secs: string): Option<nat>
  {
    if IsDigits(mins) && IsDigits(secs) && DecimalValue(secs) < 60
    then Some(DecimalValue(mins) * 60 + DecimalValue(secs))
    else None
  }

  /**
   * Reads a clock text back: digits, ':' and exactly two digits of seconds
   * below 60; None for anything else.
   */
  function ParseClock(text: string): (r: Option<nat>)
    ensures r.Some? ==> |text| >= 4 && text[|text| - 3] == ':'
  {
    if |text| >= 4 && text[|text| - 3] == ':'
    then ClockFields(text[..|text| - 3], text[|text| - 2..])
    else None
  }

  /** Padding a decimal to two places keeps its value. */
  lemma PaddedValue(n: nat)
    ensures IsDigits(PadStart2(Decimal(n)))
    ensures DecimalValue(PadStart2(Decimal(n))) == n
  {
    DecimalRoundTrip(n);
    if |Decimal(n)| < 2 {
      LeadingZero(Decimal(n));
    }
  }

  /** A clock text is read back by its two fields, the seconds being its last two characters. */
  lemma ParseClockFields(m: string, s: string)
    requires |m| >= 1 && |s| == 2
    ensures ParseClock(m + ":" + s) == ClockFields(m, s)
  {
    var text := m + ":" + s;
    assert text[..|text| - 3] == m && text[|text| - 2..] == s;
  }

  /**
   * The clock text determines the seconds it was made from: minutes field
   * times 60 plus a seconds field below 60.
   */
  lemma FormatTimeRoundTrip(seconds: nat)
    ensures ParseClock(FormatTime(seconds)) == Some(seconds)
  {
    var mins, secs := seconds / 60, seconds % 60;
    var m, s := PadStart2(Decimal(mins)), PadStart2(Decimal(secs));
    assert |s| == 2 by {
      DecimalLength(secs);
    }
    assert FormatTime(seconds) == m + ":" + s;
    assert ParseClock(m + ":" + s) == Some(seconds) by {
      ParseClockFields(m, s);
      PaddedFieldsValue(mins, secs);
    }
  }

  /** Padded minutes and padded seconds below 60 read back as their total in seconds. */
  lemma PaddedFieldsValue(mins: nat, secs: nat)
    requires secs < 60
    ensures ClockFields(PadStart2(Decimal(mins)), PadStart2(Decimal(secs))) == Some(mins * 60 + secs)
  {
    PaddedValue(mins);
    PaddedValue(secs);
  }

  /** Below 100 minutes the clock text is exactly `MM:SS`. */
  lemma FormatTimeShape(seconds: nat)
    ensures |FormatTime(seconds)| >= 5 && FormatTime(seconds)[|FormatTime(seconds)| - 3] == ':'
    ensures seconds < 6000 <==> |FormatTime(seconds)| == 5
  {
    DecimalLength(seconds / 60);
    DecimalLength(seconds % 60);
  }

  // ---------------------------------------------------------------------
  // Progress (components/SessionTimer.tsx:66, :78, :81). The source works
  // in floating point; here the same expressions are exact rationals.
  // ---------------------------------------------------------------------

  /** Minutes over target, as the source computes it before clamping. */
  function Fraction(time: nat, targetDuration: int): (f: real)
    requires targetDuration > 0
    ensures f * (60 * targetDuration) as real == time as real
    ensures f < 1.0 <==> time < 60 * targetDuration
  {
    var d := (60 * targetDuration) as real;
    var f := (time as real / 60.0) / targetDuration as real;
    assert f * d == time as real by {
      assert d == 60.0 * targetDuration as real;
    }
    RealMulMonotone(f, 1.0, d);
    f
  }

  /** The progress bar fraction: minutes over target, clamped at 1. */
  function Progress(time: nat, targetDuration: int): (p: real)
    requires targetDuration > 0
    ensures 0.0 <= p <= 1.0
    ensures p == 1.0 <==> time >= 60 * targetDuration
    ensures p < 1.0 ==> p * (60 * targetDuration) as real == time as real
  {
    var fraction := Fraction(time, targetDuration);
    if fraction < 1.0 then fraction else 1.0
  }

  /** The progress bar's width in percent (`progress * 100`), never above 100. */
  function ProgressWidth(time: nat, targetDuration: int): (w: real)
    requires targetDuration > 0
    ensures 0.0 <= w <= 100.0
    ensures w == 100.0 <==> time >= 60 * targetDuration
  {
    Progress(time, targetDuration) * 100.0
  }

  /**
   * The "% of target completed" text: the floor of minutes over target
   * times 100, without any clamp.
   */
  function PercentComplete(time: nat, targetDuration: int): (pct: nat)
    requires targetDuration > 0
    ensures pct * (60 * targetDuration) <= time * 100 < (pct + 1) * (60 * targetDuration)
  {
    time * 100 / (60 * targetDuration)
  }

  /** Multiplying by a positive number preserves and reflects order. */
  lemma MulMonotone(a: int, b: int, d: int)
    requires d > 0
    ensures a <= b <==> a * d <= b * d
  {
    if a <= b {
      assert b * d - a * d == (b - a) * d;
    } else {
      assert a * d - b * d == (a - b) * d;
    }
  }

  /** The percentage reaches 100 exactly when the target is met. */
  lemma PercentReachesHundred(time: nat, targetDuration: int)
    requires targetDuration > 0
    ensures PercentComplete(time, targetDuration) >= 100 <==> time >= 60 * targetDuration
  {
    var d := 60 * targetDuration;
    var pct := PercentComplete(time, targetDuration);
    var scaled := time * 100;
    assert pct * d <= scaled < (pct + 1) * d;
    if pct >= 100 {
      MulMonotone(100, pct, d);
      assert 100 * d <= scaled;
    }
    if time >= d {
      assert 100 * d <= scaled;
      MulMonotone(pct + 1, 100, d);
    }
  }

  /** Unlike the bar, the percentage is not clamped: twice the target reads 200. */
  lemma PercentUnclamped(targetDuration: int)
    requires targetDuration > 0
    ensures PercentComplete(120 * targetDuration, targetDuration) == 200
  {
    var d := 60 * targetDuration;
    var time: nat := 2 * d;
    var pct := PercentComplete(time, targetDuration);
    assert pct * d <= 200 * d < (pct + 1) * d by {
      assert time * 100 == 200 * d;
    }
    MulMonotone(pct, 200, d);
    MulMonotone(pct + 1, 200, d);
    assert pct == 200;
    assert 120 * targetDuration == time;
    assert PercentComplete(120 * targetDuration, targetDuration) == pct;
  }

  /** Multiplying reals by a positive number preserves and reflects order. */
  lemma RealMulMonotone(a: real, b: real, d: real)
    requires d > 0.0
    ensures a <= b <==> a * d <= b * d
    ensures a < b <==> a * d < b * d
  {
    assert b * d - a * d == (b - a) * d;
  }

  /** Below the target, the bar's width times the target in seconds is 100 times the seconds. */
  lemma WidthScaled(time: nat, targetDuration: int)
    requires targetDuration > 0
    requires time < 60 * targetDuration
    ensures ProgressWidth(time, targetDuration) * (60 * targetDuration) as real == (time * 100) as real
  {
    var p := Progress(time, targetDuration);
    assert p * (60 * targetDuration) as real == time as real;
  }

  lemma CastProduct(a: int, b: int)
    ensures (a * b) as real == a as real * b as real
  {
  }

  /** Below the target, the percentage is the floor of the bar's width. */
  lemma PercentIsFloorOfWidth(time: nat, targetDuration: int)
    requires targetDuration > 0
    requires time < 60 * targetDuration
    ensures PercentComplete(time, targetDuration) == ProgressWidth(time, targetDuration).Floor
  {
    var d := 60 * targetDuration;
    var pct := PercentComplete(time, targetDuration);
    var w := ProgressWidth(time, targetDuration);
    var dr, scaled := d as real, (time * 100) as real;
    assert w * dr == scaled by {
      WidthScaled(time, targetDuration);
    }
    assert pct as real * dr <= scaled by {
      CastProduct(pct, d);
    }
    assert scaled < (pct + 1) as real * dr by {
      CastProduct(pct + 1, d);
    }
    FloorOfQuotient(w, dr, scaled, pct);
  }

  /** If w * d is `scaled` and k * d <= scaled < (k + 1) * d with d > 0, then w rounds down to k. */
  lemma FloorOfQuotient(w: real, d: real, scaled: real, k: int)
    requires d > 0.0 && w * d == scaled
    requires k as real * d <= scaled < (k + 1) as real * d
    ensures w.Floor == k
  {
    RealMulMonotone(k as real, w, d);
    RealMulMonotone(w, (k + 1) as real, d);
    FloorBetween(w, k);
  }

  lemma FloorBetween(x: real, k: int)
    requires k as real <= x < (k + 1) as real
    ensures x.Floor == k
  {
  }
}
