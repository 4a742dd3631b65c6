/** `Number#toFixed(2)` on exact rationals: the magnitude is rounded to the
    nearest hundredth, ties upward, and written as integer digits, a dot and
    two digits, with a leading `-` for a negative number. */
module Format {
  import opened Wrappers
  import opened Text

  /** The magnitude of `x` in hundredths, rounded half up. */
  function Hundredths(x: real): (h: nat)
    ensures var m := if x < 0.0 then -x else x;
      (h as real) - 0.5 <= m * 100.0 < (h as real) + 0.5
  {
    var m := if x < 0.0 then -x else x;
    (m * 100.0 + 0.5).Floor
  }

  /** A count of hundredths written as `<units>.<two digits>`. */
  function FixedDigits(h: nat): string {
    NatToString(h / 100) + "." + PadStart2(NatToString(h % 100))
  }

  function ToFixed2(x: real): string {
    (if x < 0.0 then "-" else "") + FixedDigits(Hundredths(x))
  }

  /** Reading the digits back gives the rounded hundredths: the integer part
      carries the hundreds and the two digits after the dot the rest. */
  lemma FixedDigitsReadBack(h: nat)
    ensures var s := FixedDigits(h);
      var units := NatToString(h / 100);
      && s[..|units|] == units
      && s[|units|] == '.'
      && |s| == |units| + 3
      && AllDigitsIn(s[|units| + 1..], 10)
      && ValueIn(units, 10) * 100 + ValueIn(s[|units| + 1..], 10) == h
  {
    var units := NatToString(h / 100);
    var frac := PadStart2(NatToString(h % 100));
    var s := FixedDigits(h);
    assert s == units + "." + frac;
    assert s[|units| + 1..] == frac;
    TwoDigits(h % 100);
  }

  /** `padStart(2, '0')` of a number below 100 is two digits worth it. */
  lemma TwoDigits(k: nat)
    requires k < 100
    ensures |PadStart2(NatToString(k))| == 2
    ensures AllDigitsIn(PadStart2(NatToString(k)), 10)
    ensures ValueIn(PadStart2(NatToString(k)), 10) == k
  {
    var d := NatToString(k);
    var p := PadStart2(d);
    if k < 10 {
      assert d == [DigitChar(k)];
      assert p == ['0', DigitChar(k)];
      assert p[..1] == ['0'] && p[..1][..0] == [];
    } else {
      assert |NatToString(k / 10)| == 1;
      assert |d| == 2;
    }
  }

  /** Zero is written `0.00`. */
  lemma ZeroFixed()
    ensures ToFixed2(0.0) == "0.00"
  {
    assert Hundredths(0.0) == 0;
    assert NatToString(0) == "0";
  }

  /** The average as the reports render it: `'0.00'` when the value is not a
      number (`None`) or zero, `toFixed(2)` otherwise. */
  function RenderAverage(avg: Option<real>): (r: string)
    ensures avg.None? ==> r == "0.00"
    ensures avg.Some? ==> r == ToFixed2(avg.value)
  {
    ZeroFixed();
    match avg
    case None => "0.00"
    case Some(a) => if a == 0.0 then "0.00" else ToFixed2(a)
  }
}
