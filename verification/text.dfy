/** The handful of JavaScript string operations the application relies on:
    `trim`, `toUpperCase`, `Number#toString`, `padStart(2, '0')` and
    `parseInt` without a radix. */
module Text {
  import opened Wrappers

  /** The white-space characters `String.prototype.trim` removes that the
      model recognises (see README for the ones it leaves out). */
  predicate IsSpace(c: char) {
    c == ' ' || c == '\t' || c == '\n' || c == '\r' || c == '\U{000B}'
    || c == '\U{000C}' || c == '\U{00A0}' || c == '\U{FEFF}'
  }

  /** `trimStart`: the suffix of `s` left after its leading white space. */
  function TrimStart(s: string): (r: string)
    ensures |r| <= |s| && r == s[|s| - |r|..]
    ensures forall k :: 0 <= k < |s| - |r| ==> IsSpace(s[k])
    ensures |r| > 0 ==> !IsSpace(r[0])
  {
    if |s| > 0 && IsSpace(s[0]) then TrimStart(s[1..]) else s
  }

  /** `trimEnd`: the prefix of `s` left before its trailing white space. */
  function TrimEnd(s: string): (r: string)
    ensures |r| <= |s| && r == s[..|r|]
    ensures forall k :: |r| <= k < |s| ==> IsSpace(s[k])
    ensures |r| > 0 ==> !IsSpace(r[|r| - 1])
  {
    if |s| > 0 && IsSpace(s[|s| - 1]) then TrimEnd(s[..|s| - 1]) else s
  }

  /** `trim`: `s` with its leading and trailing white space removed. The
      result is the slice of `s` after its leading white space with only
      white space after it; it neither starts nor ends with white space, and
      it is empty exactly when `s` is all white space. */
  function Trim(s: string): (r: string)
    ensures |r| <= |s|
    ensures SpaceAround(s, LeadingSpaces(s), r)
    ensures |r| == 0 || (!IsSpace(r[0]) && !IsSpace(r[|r| - 1]))
    ensures r == [] <==> forall k :: 0 <= k < |s| ==> IsSpace(s[k])
  {
    TrimSlice(s);
    TrimEnd(TrimStart(s))
  }

  /** The number of white-space characters `s` starts with. */
  function LeadingSpaces(s: string): nat {
    |s| - |TrimStart(s)|
  }

  /** `r` sits at offset `a` of `s`, with only white space before and after
      it. */
  predicate SpaceAround(s: string, a: int, r: string) {
    && 0 <= a && a + |r| <= |s| && r == s[a..a + |r|]
    && (forall k :: 0 <= k < a ==> IsSpace(s[k]))
    && (forall k :: a + |r| <= k < |s| ==> IsSpace(s[k]))
  }

  lemma TrimSlice(s: string)
    ensures SpaceAround(s, LeadingSpaces(s), TrimEnd(TrimStart(s)))
  {
    var t := TrimStart(s);
    SliceAround(s, |s| - |t|, t, TrimEnd(t));
  }

  /** A prefix `r` of the suffix `t == s[a..]`, with white space before `t`
      and after `r`, sits at offset `a` with only white space around it. */
  lemma SliceAround(s: string, a: nat, t: string, r: string)
    requires a <= |s| && t == s[a..] && |r| <= |t| && r == t[..|r|]
    requires forall k :: 0 <= k < a ==> IsSpace(s[k])
    requires forall k :: |r| <= k < |t| ==> IsSpace(t[k])
    ensures SpaceAround(s, a, r)
  {
    assert s[a..a + |r|] == t[..|r|];
    forall k | a + |r| <= k < |s| ensures IsSpace(s[k]) {
      assert s[k] == t[k - a];
    }
  }

  /** `s.trim() === ''` */
  predicate IsBlank(s: string) {
    Trim(s) == []
  }

  /** A string that does not start with white space is left alone by
      `trimStart`. */
  lemma TrimStartNoSpace(s: string)
    requires |s| > 0 && !IsSpace(s[0])
    ensures TrimStart(s) == s
  {
  }

  /** A string without white space at either end is its own `trim`; in
      particular trimming twice is trimming once. */
  lemma TrimFixed(s: string)
    requires |s| == 0 || (!IsSpace(s[0]) && !IsSpace(s[|s| - 1]))
    ensures Trim(s) == s
    ensures Trim(Trim(s)) == Trim(s)
  {
    if |s| > 0 {
      TrimStartNoSpace(s);
    }
  }

  /** `toUpperCase` restricted to the ASCII letters; every other character
      (digits, Arabic letters) is its own upper case. */
  function UpperChar(c: char): char {
    if 'a' <= c <= 'z' then (c as int - 32) as char else c
  }

  function ToUpper(s: string): (r: string)
    ensures |r| == |s|
    ensures forall k :: 0 <= k < |s| ==> r[k] == UpperChar(s[k])
  {
    seq(|s|, k requires 0 <= k < |s| => UpperChar(s[k]))
  }

  predicate IsDigit(c: char) {
    '0' <= c <= '9'
  }

  function DigitChar(d: nat): (c: char)
    requires d < 10
    ensures IsDigit(c) && DigitIn(c, 10) == Some(d)
  {
    ('0' as int + d) as char
  }

  /** The value of character `c` as a digit in base `radix` (2..36), as
      `parseInt` reads it: 0-9, then a-z or A-Z for 10-35. */
  function DigitIn(c: char, radix: nat): (r: Option<nat>)
    ensures r.Some? ==> r.value < radix
    ensures radix == 10 ==> (r.Some? <==> IsDigit(c))
  {
    var v: nat :=
      if '0' <= c <= '9' then c as int - '0' as int
      else if 'a' <= c <= 'z' then c as int - 'a' as int + 10
      else if 'A' <= c <= 'Z' then c as int - 'A' as int + 10
      else 36;
    if v < radix then Some(v) else None
  }

  /** Length of the longest prefix of `s` made of digits of base `radix`. */
  function RunLength(s: string, radix: nat): (n: nat)
    ensures n <= |s|
    ensures forall k :: 0 <= k < n ==> DigitIn(s[k], radix).Some?
    ensures n < |s| ==> DigitIn(s[n], radix).None?
  {
    if |s| > 0 && DigitIn(s[0], radix).Some? then 1 + RunLength(s[1..], radix) else 0
  }

  predicate AllDigitsIn(s: string, radix: nat) {
    forall k :: 0 <= k < |s| ==> DigitIn(s[k], radix).Some?
  }

  /** Positional value of a digit string, most significant digit first. */
  function ValueIn(s: string, radix: nat): nat
    requires AllDigitsIn(s, radix)
  {
    if |s| == 0 then 0
    else ValueIn(s[..|s| - 1], radix) * radix + DigitIn(s[|s| - 1], radix).value
  }

  /** `Number#toString()` of a non-negative integer: shortest decimal
      digits, reading back to `n`. */
  function NatToString(n: nat): (r: string)
    ensures |r| > 0 && AllDigitsIn(r, 10)
    ensures forall k :: 0 <= k < |r| ==> IsDigit(r[k])
    ensures ValueIn(r, 10) == n
    ensures |r| == 1 || r[0] != '0'
    decreases n
  {
    var d := DigitChar(n % 10);
    if n < 10 then
      var r := [d];
      assert r[..0] == [];
      r
    else
      var p := NatToString(n / 10);
      var r := p + [d];
      assert r[..|r| - 1] == p;
      r
  }

  /** `Number#toString()` of an integer. */
  function IntToString(i: int): (r: string)
    ensures |r| > 0
    ensures i >= 0 ==> r == NatToString(i)
    ensures i < 0 ==> r == "-" + NatToString(-i)
  {
    if i < 0 then "-" + NatToString(-i) else NatToString(i)
  }

  /** `padStart(2, '0')`: left-pad with zeros up to length two; longer
      strings are untouched. */
  function PadStart2(s: string): (r: string)
    ensures |r| == if |s| < 2 then 2 else |s|
    ensures r[|r| - |s|..] == s
    ensures forall k :: 0 <= k < |r| - |s| ==> r[k] == '0'
  {
    if |s| >= 2 then s else if |s| == 1 then "0" + s else "00"
  }

  /** `parseInt(s)` with no radix: skip leading white space, read an optional
      sign, switch to base 16 after a `0x`/`0X` prefix, then read the longest
      run of digits; `None` stands for `NaN` (no digit at all). */
  function ParseInt(s: string): Option<int> {
    var t := TrimStart(s);
    var negative := |t| > 0 && t[0] == '-';
    var u := if |t| > 0 && (t[0] == '-' || t[0] == '+') then t[1..] else t;
    var hex := |u| >= 2 && u[0] == '0' && (u[1] == 'x' || u[1] == 'X');
    var radix := if hex then 16 else 10;
    var body := if hex then u[2..] else u;
    var n := RunLength(body, radix);
    if n == 0 then None
    else
      var v: int := ValueIn(body[..n], radix);
      Some(if negative then -v else v)
  }

  /** `parseInt` reads back what `toString` writes, even when other text
      follows, as long as that text cannot continue the number (a digit) or
      turn a lone `0` into a hexadecimal prefix (`x`). */
  lemma ParseIntOfDecimal(n: nat, rest: string)
    requires |rest| > 0 ==> !IsDigit(rest[0]) && rest[0] != 'x' && rest[0] != 'X'
    ensures ParseInt(NatToString(n) + rest) == Some(n)
  {
    var d := NatToString(n);
    var s := d + rest;
    assert s[0] == d[0];
    TrimStartNoSpace(s);
    assert !(|s| >= 2 && s[0] == '0' && (s[1] == 'x' || s[1] == 'X')) by {
      if |s| >= 2 && s[0] == '0' {
        if |d| == 1 {
          assert s[1] == rest[0];
        } else {
          assert false;
        }
      }
    }
    RunOfDigitsThenStop(d, rest);
    assert s[..|d|] == d;
    ParseUnsigned(s, |d|);
  }

  /** Text with no white space, sign or hexadecimal prefix in front reads as
      the value of its leading run of decimal digits. */
  lemma ParseUnsigned(s: string, k: nat)
    requires TrimStart(s) == s && |s| > 0 && s[0] != '-' && s[0] != '+'
    requires !(|s| >= 2 && s[0] == '0' && (s[1] == 'x' || s[1] == 'X'))
    requires 0 < k == RunLength(s, 10)
    ensures ParseInt(s) == Some(ValueIn(s[..k], 10))
  {
    var t := TrimStart(s);
    assert !(|t| > 0 && (t[0] == '-' || t[0] == '+'));
    assert !(|t| >= 2 && t[0] == '0' && (t[1] == 'x' || t[1] == 'X'));
  }

  lemma {:induction false} RunOfDigitsThenStop(d: string, rest: string)
    requires AllDigitsIn(d, 10)
    requires |rest| > 0 ==> !IsDigit(rest[0])
    ensures RunLength(d + rest, 10) == |d|
  {
    if |d| > 0 {
      assert (d + rest)[1..] == d[1..] + rest;
      RunOfDigitsThenStop(d[1..], rest);
    } else {
      assert d + rest == rest;
    }
  }

  /** The round trip on its own: `parseInt(String(n)) === n`. */
  lemma ParseIntRoundTrip(n: nat)
    ensures ParseInt(NatToString(n)) == Some(n)
  {
    ParseIntOfDecimal(n, "");
    assert NatToString(n) + "" == NatToString(n);
  }
}
