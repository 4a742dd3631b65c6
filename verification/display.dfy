/** The display helpers the student and the guest exam pages share: the
    `mm:ss` rendering of the countdown and the pass threshold of a result. */
module Display {
  import opened Wrappers
  import opened Text
  import Format
  import Scoring

  /** JavaScript `a % b` for a positive divisor: what is left of `a` after
      taking away `b` times the quotient truncated toward zero, so that the
      remainder takes the sign of the dividend. */
  function JsRem(a: int, b: int): (r: int)
    requires b > 0
    ensures r == a - b * (if a >= 0 then a / b else -((-a) / b))
    ensures a >= 0 ==> 0 <= r < b
    ensures a < 0 ==> -b < r <= 0
  {
    if a >= 0 then a % b else -((-a) % b)
  }

  /** `formatTime`: `Math.floor(s / 60)` and `s % 60`, each written with
      `toString()` and left-padded to two characters with `'0'`. */
  function FormatTime(s: int): string {
    PadStart2(IntToString(s / 60)) + ":" + PadStart2(IntToString(JsRem(s, 60)))
  }

  /** Reads a `m…m:ss` clock back into seconds; `None` for any other text. */
  function ParseClock(t: string): Option<int> {
    if |t| >= 4 && t[|t| - 3] == ':' && AllDigitsIn(t[..|t| - 3], 10) && AllDigitsIn(t[|t| - 2..], 10)
    then Some(ValueIn(t[..|t| - 3], 10) * 60 + ValueIn(t[|t| - 2..], 10))
    else None
  }

  /** A padded count is all digits and reads back as the count. */
  lemma PaddedValue(m: nat)
    ensures |PadStart2(NatToString(m))| >= 2
    ensures AllDigitsIn(PadStart2(NatToString(m)), 10)
    ensures ValueIn(PadStart2(NatToString(m)), 10) == m
  {
    if m < 100 {
      Format.TwoDigits(m);
    }
  }

  /** For a non-negative count the clock shows whole minutes, a colon and
      exactly two digits of seconds below 60, and reads back as the count. */
  lemma ClockRoundTrip(s: nat)
    ensures var t := FormatTime(s);
      && |t| >= 5
      && t[|t| - 3] == ':'
      && ValueIn(t[|t| - 2..], 10) < 60
      && ParseClock(t) == Some(s)
  {
    FormatTimeIsClock(s);
    ClockText(s / 60, s % 60);
  }

  lemma FormatTimeIsClock(s: nat)
    ensures FormatTime(s) == Clock(s / 60, s % 60)
    ensures (s / 60) * 60 + s % 60 == s && s % 60 < 60
  {
    assert JsRem(s, 60) == s % 60;
  }

  /** `m` minutes and `r` seconds as the clock writes them. */
  function Clock(m: nat, r: nat): string {
    PadStart2(NatToString(m)) + ":" + PadStart2(NatToString(r))
  }

  lemma ClockText(m: nat, r: nat)
    requires r < 60
    ensures var t := Clock(m, r);
      && |t| >= 5
      && t[|t| - 3] == ':'
      && ValueIn(t[|t| - 2..], 10) < 60
      && ParseClock(t) == Some(m * 60 + r)
  {
    var mins := PadStart2(NatToString(m));
    var secs := PadStart2(NatToString(r));
    PaddedValue(m);
    PaddedValue(r);
    Format.TwoDigits(r);
    var t := Clock(m, r);
    assert t == mins + ":" + secs;
    assert t[..|t| - 3] == mins;
    assert t[|t| - 2..] == secs;
  }

  /** `parseFloat(result.percentage) >= 50`. */
  predicate Passed(percentage: real) {
    percentage >= 50.0
  }

  /** A graded attempt passes exactly when at least half of its questions
      earned their point; an attempt on an empty template never passes. */
  lemma PassIffHalfEarned(score: nat, total: nat)
    ensures total > 0 ==> (Passed(Scoring.Percentage(score, total)) <==> 2 * score >= total)
    ensures total == 0 ==> !Passed(Scoring.Percentage(score, total))
  {
    if total > 0 {
      var p := Scoring.Percentage(score, total);
      var t := total as real;
      assert p * t == 100.0 * (score as real) by {
        var f := score as real / t;
        assert f * t == score as real;
      }
      ScaledComparison(p, t, 50.0);
    }
  }

  lemma ScaledComparison(p: real, t: real, c: real)
    requires t > 0.0
    ensures p >= c <==> p * t >= c * t
  {
    if p >= c {
      assert (p - c) * t >= 0.0;
    } else {
      assert (c - p) * t > 0.0;
    }
  }
}
