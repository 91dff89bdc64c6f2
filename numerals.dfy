/**
 * Decimal text as the measurement code reads and writes it: Python's `str(int)`,
 * `int(str)` and `str.split`, and the fixed-point numerals that mpmath's `nstr`
 * prints ("-12.340"), together with the numbers they denote.
 */
module Numerals {
  import opened Wrappers

  type Digit = d: int | 0 <= d <= 9

  function Pow10(n: nat): (r: nat)
    ensures r >= 1
  {
    if n == 0 then 1 else 10 * Pow10(n - 1)
  }

  function Abs(x: real): (r: real)
    ensures r >= 0.0 && (r == x || r == -x)
  {
    if x < 0.0 then -x else x
  }

  // ---------------------------------------------------------------------------
  // Digits of natural numbers
  // ---------------------------------------------------------------------------

  /** How many decimal digits `n` is written with (`len(str(n))` for `n >= 0`). */
  function DigitCount(n: nat): (r: nat)
    ensures r >= 1
  {
    if n < 10 then 1 else 1 + DigitCount(n / 10)
  }

  /** A number with k digits lies in [10^(k-1), 10^k). */
  lemma {:induction false} DigitCountBounds(n: nat)
    ensures n < Pow10(DigitCount(n))
    ensures n == 0 || Pow10(DigitCount(n) - 1) <= n
  {
    if n >= 10 {
      DigitCountBounds(n / 10);
      var k := DigitCount(n / 10);
      assert Pow10(k + 1) == 10 * Pow10(k);
      assert n < 10 * (n / 10 + 1);
      assert 10 * (n / 10) <= n;
    }
  }

  /** The value of a digit sequence, most significant digit first. */
  function DigitsValue(ds: seq<Digit>): (v: nat)
  {
    if ds == [] then 0 else 10 * DigitsValue(ds[..|ds| - 1]) + ds[|ds| - 1]
  }

  lemma {:induction false} DigitsValueBound(ds: seq<Digit>)
    ensures DigitsValue(ds) < Pow10(|ds|)
  {
    if ds != [] {
      DigitsValueBound(ds[..|ds| - 1]);
    }
  }

  /** The digits `str(n)` prints: no leading zero, and "0" for zero. */
  function NatDigits(n: nat): (ds: seq<Digit>)
    ensures |ds| == DigitCount(n)
    ensures DigitsValue(ds) == n
  {
    if n < 10 then
      [n]
    else
      var ds := NatDigits(n / 10) + [n % 10];
      assert ds[..|ds| - 1] == NatDigits(n / 10);
      ds
  }

  // ---------------------------------------------------------------------------
  // Characters, Python's int() and str.split()
  // ---------------------------------------------------------------------------

  function DigitChar(d: Digit): char
  {
    (d + '0' as int) as char
  }

  predicate IsDigitChar(c: char)
  {
    '0' <= c <= '9'
  }

  function DigitText(ds: seq<Digit>): (s: string)
    ensures |s| == |ds|
    ensures forall i :: 0 <= i < |s| ==> IsDigitChar(s[i])
  {
    seq(|ds|, i requires 0 <= i < |ds| => DigitChar(ds[i]))
  }

  /** The digits a run of digit characters stands for. */
  function CharDigits(s: string): (ds: seq<Digit>)
    requires forall i :: 0 <= i < |s| ==> IsDigitChar(s[i])
    ensures |ds| == |s|
    ensures forall i :: 0 <= i < |s| ==> ds[i] == s[i] as int - '0' as int
  {
    seq(|s|, i requires 0 <= i < |s| => CharDigit(s[i]))
  }

  function CharDigit(c: char): Digit
    requires IsDigitChar(c)
  {
    c as int - '0' as int
  }

  /** `int(s)` for an unsigned run of decimal digits; None where Python raises ValueError. */
  function ParseNat(s: string): (r: Option<nat>)
    ensures r.Some? <==> |s| > 0 && forall i :: 0 <= i < |s| ==> IsDigitChar(s[i])
  {
    if |s| > 0 && forall i :: 0 <= i < |s| ==> IsDigitChar(s[i]) then
      Some(DigitsValue(CharDigits(s)))
    else
      None
  }

  /** The text after an optional leading sign. */
  function Unsigned(s: string): string
  {
    if |s| > 0 && (s[0] == '-' || s[0] == '+') then s[1..] else s
  }

  /** `int(s)` for an optionally signed run of decimal digits; None where Python raises ValueError. */
  function ParseInt(s: string): (r: Option<int>)
    ensures r.Some? <==> |Unsigned(s)| > 0 && forall i :: 0 <= i < |Unsigned(s)| ==> IsDigitChar(Unsigned(s)[i])
    ensures r.Some? && r.value < 0 ==> s[0] == '-'
    ensures r.Some? && r.value > 0 ==> s[0] != '-'
  {
    if |s| > 0 && (s[0] == '-' || s[0] == '+') then
      match ParseNat(s[1..])
      case Some(n) => Some(if s[0] == '-' then -(n as int) else n)
      case None => None
    else
      ParseNat(s)
  }

  lemma ParseDigitText(ds: seq<Digit>)
    requires |ds| > 0
    ensures ParseNat(DigitText(ds)) == Some(DigitsValue(ds))
  {
    var s := DigitText(ds);
    var back := CharDigits(s);
    forall i | 0 <= i < |ds|
      ensures back[i] == ds[i]
    {
      assert s[i] == DigitChar(ds[i]);
    }
    assert back == ds;
  }

  /** The length of `str(i)` for a Python int: a sign for negatives, then the digits. */
  function IntLen(i: int): nat
  {
    (if i < 0 then 1 else 0) + DigitCount(if i < 0 then -i else i)
  }

  /** `str(i)` for a Python int. */
  function IntToString(i: int): (s: string)
    ensures |s| == IntLen(i)
    ensures ParseInt(s) == Some(i)
  {
    var digits := DigitText(NatDigits(if i < 0 then -i else i));
    ParseDigitText(NatDigits(if i < 0 then -i else i));
    if i < 0 then
      assert ("-" + digits)[1..] == digits;
      "-" + digits
    else
      digits
  }

  /** `sep.join(parts)`: the parts with one separator between neighbours. */
  function Join(parts: seq<string>, sep: char): string
    requires |parts| >= 1
  {
    if |parts| == 1 then parts[0] else parts[0] + [sep] + Join(parts[1..], sep)
  }

  /** `s.split(sep)`: the pieces of `s` between occurrences of `sep`; joining them gives `s` back. */
  function Split(s: string, sep: char): (parts: seq<string>)
    ensures |parts| >= 1
    ensures forall i :: 0 <= i < |parts| ==> sep !in parts[i]
    ensures Join(parts, sep) == s
  {
    if |s| == 0 then
      [""]
    else
      var rest := Split(s[1..], sep);
      if s[0] == sep then
        var parts := [""] + rest;
        assert parts[1..] == rest;
        assert Join(parts, sep) == [sep] + Join(rest, sep);
        parts
      else
        var parts := [[s[0]] + rest[0]] + rest[1..];
        assert forall i :: 1 <= i < |parts| ==> parts[i] == rest[i];
        if |rest| == 1 then
          parts
        else
          assert parts[1..] == rest[1..];
          assert Join(parts, sep) == [s[0]] + Join(rest, sep);
          parts
  }

  /** The first piece of a split is the text before the first separator, or all of it. */
  lemma SplitFirst(s: string, sep: char)
    ensures var first := Split(s, sep)[0];
      && |first| <= |s| && s[..|first|] == first
      && (|first| < |s| <==> sep in s)
      && (|first| < |s| ==> s[|first|] == sep)
  {
    var parts := Split(s, sep);
    if |parts| > 1 {
      assert s == parts[0] + [sep] + Join(parts[1..], sep);
      assert s[|parts[0]|] == sep;
    } else {
      assert s == parts[0];
    }
  }

  lemma {:induction false} SplitWithoutSeparator(s: string, sep: char)
    requires sep !in s
    ensures Split(s, sep) == [s]
  {
    if |s| > 0 {
      SplitWithoutSeparator(s[1..], sep);
      assert [s[0]] + s[1..] == s;
    }
  }

  /** Splitting `a + sep + b` gives back `a` and `b` when neither holds the separator. */
  lemma {:induction false} SplitAtSeparator(a: string, b: string, sep: char)
    requires sep !in a && sep !in b
    ensures Split(a + [sep] + b, sep) == [a, b]
  {
    var s := a + [sep] + b;
    if |a| == 0 {
      assert s[1..] == b;
      SplitWithoutSeparator(b, sep);
    } else {
      assert s[1..] == a[1..] + [sep] + b;
      SplitAtSeparator(a[1..], b, sep);
      assert [a[0]] + a[1..] == a;
    }
  }

  // ---------------------------------------------------------------------------
  // Fixed-point numerals
  // ---------------------------------------------------------------------------

  /**
   * A numeral `[-]<whole>.<fraction>`, the form mpmath's `nstr` prints in fixed notation.
   * Without zero stripping the fraction is empty when the digits asked for end before the
   * point ("295." for 295.15 at 3 digits).
   */
  datatype Numeral = Numeral(negative: bool, whole: nat, fraction: seq<Digit>)

  /** The text before the point, sign included ("-0" for -0.25). */
  function WholeText(n: Numeral): string
  {
    (if n.negative then "-" else "") + DigitText(NatDigits(n.whole))
  }

  function Show(n: Numeral): (s: string)
    ensures '±' !in s
  {
    WholeText(n) + "." + DigitText(n.fraction)
  }

  /** The number a numeral denotes. */
  function NumeralValue(n: Numeral): real
  {
    var magnitude := n.whole as real + FractionValue(n.fraction);
    if n.negative then -magnitude else magnitude
  }

  /** The signed whole part of a numeral. */
  function SignedWhole(n: Numeral): int
  {
    if n.negative then -(n.whole as int) else n.whole
  }

  /** `int(...)` of the text before the point: the signed whole part ("-0" reads as 0). */
  function WholeInt(n: Numeral): (r: int)
    ensures Split(Show(n), '.') == [WholeText(n), DigitText(n.fraction)]
    ensures ParseInt(WholeText(n)) == Some(r)
    ensures r == SignedWhole(n)
  {
    ShowSplits(n);
    var digits := DigitText(NatDigits(n.whole));
    ParseDigitText(NatDigits(n.whole));
    if n.negative then
      assert WholeText(n)[1..] == digits;
      -(n.whole as int)
    else
      assert WholeText(n) == digits;
      assert IsDigitChar(digits[0]);
      n.whole
  }

  /** `int(...)` of the text after the point: the fraction digits read as an integer ("0.01" gives 1). */
  function FractionInt(n: Numeral): (r: nat)
    requires |n.fraction| > 0
    ensures Split(Show(n), '.') == [WholeText(n), DigitText(n.fraction)]
    ensures ParseInt(DigitText(n.fraction)) == Some(r)
    ensures r < Pow10(|n.fraction|)
  {
    ShowSplits(n);
    ParseDigitText(n.fraction);
    DigitsValueBound(n.fraction);
    assert IsDigitChar(DigitText(n.fraction)[0]);
    DigitsValue(n.fraction)
  }

  /** The printed numeral has exactly one point, with the whole text before it and the fraction after it. */
  lemma ShowSplits(n: Numeral)
    ensures Split(Show(n), '.') == [WholeText(n), DigitText(n.fraction)]
  {
    assert '.' !in DigitText(NatDigits(n.whole));
    assert '.' !in WholeText(n);
    assert '.' !in DigitText(n.fraction);
    SplitAtSeparator(WholeText(n), DigitText(n.fraction), '.');
  }

  /** The fraction digits as the part of the value after the point. */
  function FractionValue(ds: seq<Digit>): real
  {
    DigitsValue(ds) as real / Pow10(|ds|) as real
  }

  /** The fraction digits without their trailing zeros. */
  function TrimZeros(ds: seq<Digit>): (r: seq<Digit>)
    ensures r <= ds
    ensures r == [] || r[|r| - 1] != 0
    ensures forall i :: |r| <= i < |ds| ==> ds[i] == 0
  {
    if ds == [] || ds[|ds| - 1] != 0 then ds else TrimZeros(ds[..|ds| - 1])
  }

  /** Dropping trailing zeros leaves the fraction's value unchanged. */
  lemma {:induction false} TrimZerosValue(ds: seq<Digit>)
    ensures FractionValue(TrimZeros(ds)) == FractionValue(ds)
  {
    if ds != [] && ds[|ds| - 1] == 0 {
      var prefix := ds[..|ds| - 1];
      TrimZerosValue(prefix);
      TrailingZeroValue(prefix, ds);
    }
  }

  lemma TrailingZeroValue(prefix: seq<Digit>, ds: seq<Digit>)
    requires ds == prefix + [0]
    ensures FractionValue(ds) == FractionValue(prefix)
  {
    assert ds[..|ds| - 1] == prefix;
    var a, p := DigitsValue(prefix) as real, Pow10(|prefix|) as real;
    assert DigitsValue(ds) as real == 10.0 * a;
    assert Pow10(|ds|) as real == 10.0 * p;
    assert (10.0 * a) / (10.0 * p) == a / p;
  }

  /**
   * `nstr(..., strip_zeros=True)`: the same numeral with the trailing zeros of its fraction
   * removed, and one zero kept after a bare point ("2.500" prints "2.5", "295." prints "295.0").
   */
  function StripZeros(n: Numeral): (r: Numeral)
    ensures r.negative == n.negative && r.whole == n.whole
    ensures |r.fraction| > 0 && (r.fraction == [0] || r.fraction[|r.fraction| - 1] != 0)
    ensures r.fraction <= n.fraction || (r.fraction == [0] && forall i :: 0 <= i < |n.fraction| ==> n.fraction[i] == 0)
    ensures NumeralValue(r) == NumeralValue(n)
  {
    var trimmed := TrimZeros(n.fraction);
    TrimZerosValue(n.fraction);
    var r := Numeral(n.negative, n.whole, if trimmed == [] then [0] else trimmed);
    assert FractionValue(r.fraction) == FractionValue(n.fraction);
    r
  }

  // ---------------------------------------------------------------------------
  // Real numbers to integers
  // ---------------------------------------------------------------------------

  predicate IsInteger(x: real)
  {
    x == x.Floor as real
  }

  /** Python's `int(x)`: rounds toward zero. */
  function Trunc(x: real): (r: int)
    ensures Abs(r as real) <= Abs(x) < Abs(r as real) + 1.0
    ensures r == 0 || (r > 0 <==> x > 0.0)
  {
    if x >= 0.0 then x.Floor else -((-x).Floor)
  }

  /** mpmath's `nint`: the nearest integer, ties to the even one. */
  function NearestInt(x: real): (r: int)
    ensures Abs(r as real - x) <= 0.5
    ensures Abs(r as real - x) == 0.5 ==> r % 2 == 0
  {
    var below := x.Floor;
    var above := below + 1;
    if x - below as real < 0.5 then below
    else if x - below as real > 0.5 then above
    else if below % 2 == 0 then below
    else above
  }

  /** A numeral denotes an integer exactly when its fraction digits are all zero. */
  lemma NumeralIntegerIff(n: Numeral)
    ensures IsInteger(NumeralValue(n)) <==> DigitsValue(n.fraction) == 0
    ensures DigitsValue(n.fraction) == 0 ==> NumeralValue(n) == SignedWhole(n) as real
  {
    DigitsValueBound(n.fraction);
    var f := FractionPart(DigitsValue(n.fraction), Pow10(|n.fraction|));
    SignedIntegerIff(n.whole, f, n.negative);
  }

  /** a / p as a real, for 0 <= a < p: a number in [0, 1) that is zero only when a is. */
  function FractionPart(a: nat, p: nat): (f: real)
    requires a < p
    ensures 0.0 <= f < 1.0
    ensures f == 0.0 <==> a == 0
    ensures f == a as real / p as real
  {
    a as real / p as real
  }

  lemma SignedIntegerIff(w: nat, f: real, negative: bool)
    requires 0.0 <= f < 1.0
    ensures var v := if negative then -(w as real + f) else w as real + f;
      IsInteger(v) <==> f == 0.0
  {
    var v := if negative then -(w as real + f) else w as real + f;
    if f != 0.0 {
      if negative {
        assert (-(w as int) - 1) as real < v < -(w as int) as real;
        assert v.Floor == -(w as int) - 1;
      } else {
        assert v.Floor == w;
      }
    }
  }
}
