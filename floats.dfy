/** The part of Python's `float` the scripts touch: the values (finite,
    NaN, signed infinity), the `float(str)` parser, the `f"{v:6.2f}"`
    formatter, and the few arithmetic steps the plot scripts apply to whole
    columns. Finite values are exact reals: binary rounding and overflow to
    infinity are not modelled. */
module Floats {
  import opened Text
  import opened Wrappers

  datatype Float = Finite(v: real) | NaN | Inf(negative: bool)

  // ---------------------------------------------------------------------------
  // Parsing: Python's float(s) for ASCII input without digit separators

  /** The first index of `c` in `s`, or `|s|` when `c` does not occur. */
  function Find(s: string, c: char): (i: nat)
    ensures i <= |s|
    ensures i < |s| ==> s[i] == c
    ensures forall k :: 0 <= k < i ==> s[k] != c
  {
    if |s| == 0 then 0 else if s[0] == c then 0 else 1 + Find(s[1..], c)
  }

  /** The first index of `e` or `E` in `s`, or `|s|` when there is none. */
  function FindExponentMark(s: string): (i: nat)
    ensures i <= |s|
    ensures i < |s| ==> s[i] == 'e' || s[i] == 'E'
    ensures forall k :: 0 <= k < i ==> s[k] != 'e' && s[k] != 'E'
  {
    if |s| == 0 then 0 else if s[0] == 'e' || s[0] == 'E' then 0 else 1 + FindExponentMark(s[1..])
  }

  /** `a` times ten to the power `e`, exactly. */
  function Scale10(a: real, e: int): (r: real)
    ensures a >= 0.0 ==> r >= 0.0
    decreases if e >= 0 then e else -e
  {
    if e == 0 then a else if e > 0 then 10.0 * Scale10(a, e - 1) else Scale10(a, e + 1) / 10.0
  }

  /** A decimal numeral `digits [. digits]` or `. digits`, at least one digit. */
  function ParseMantissa(m: string): (r: Option<real>)
    ensures r.Some? ==> r.value >= 0.0
  {
    var i := Find(m, '.');
    var a := m[..i];
    var b := if i < |m| then m[i + 1..] else "";
    if AllDigits(a) && AllDigits(b) && |a| + |b| > 0 then Some(NumeralValue(a, b)) else None
  }

  /** The value of the numeral `a.b`. */
  function NumeralValue(a: string, b: string): (x: real)
    requires AllDigits(a) && AllDigits(b)
    ensures x >= 0.0
  {
    DigitsValue(a) as real + FractionValue(b)
  }

  /** The value of the digits `b` read after a decimal point. */
  function FractionValue(b: string): (x: real)
    requires AllDigits(b)
    ensures 0.0 <= x
  {
    if |b| == 0 then 0.0 else (DigitValue(b[0]) as real + FractionValue(b[1..])) / 10.0
  }

  /** An exponent `[+|-] digits`. */
  function ParseExponent(e: string): Option<int> {
    var neg := |e| > 0 && e[0] == '-';
    var ds := if |e| > 0 && (e[0] == '+' || e[0] == '-') then e[1..] else e;
    if |ds| > 0 && AllDigits(ds) then
      Some(if neg then -(DigitsValue(ds) as int) else DigitsValue(ds) as int)
    else None
  }

  /** An unsigned decimal literal, mantissa and optional `e`/`E` exponent. */
  function ParseUnsigned(body: string): (r: Option<real>)
    ensures r.Some? ==> r.value >= 0.0
  {
    var i := FindExponentMark(body);
    var mant := ParseMantissa(body[..i]);
    var exp := if i < |body| then ParseExponent(body[i + 1..]) else Some(0);
    if mant.Some? && exp.Some? then Some(Scale10(mant.value, exp.value)) else None
  }

  /** The literal without its sign: `nan`, `inf`, `infinity` in any case, or a
      decimal literal. */
  function ParseMagnitude(body: string): Option<Float> {
    var low := Lower(body);
    if low == "nan" then Some(NaN)
    else if low == "inf" || low == "infinity" then Some(Inf(false))
    else match ParseUnsigned(body)
      case Some(x) => Some(Finite(x))
      case None => None
  }

  /** A literal with an optional leading sign. */
  function ParseSigned(t: string): Option<Float> {
    var signed := |t| > 0 && (t[0] == '+' || t[0] == '-');
    var neg := signed && t[0] == '-';
    match ParseMagnitude(if signed then t[1..] else t)
    case Some(f) => Some(if neg then Neg(f) else f)
    case None => None
  }

  /** Python's `float(s)`: surrounding white space is ignored, then an optional
      sign and `nan`, `inf`, `infinity` (any case) or a decimal literal. */
  function ParseFloat(s: string): Option<Float> {
    ParseSigned(Strip(s))
  }

  predicate Parses(s: string) { ParseFloat(s).Some? }

  // ---------------------------------------------------------------------------
  // Formatting: f"{v:6.2f}"

  /** The integer nearest to `y`, ties to the even one (Python's rounding). */
  function RoundHalfEven(y: real): (n: int)
    ensures -0.5 <= n as real - y <= 0.5
    ensures y >= 0.0 ==> n >= 0
    ensures y <= 0.0 ==> n <= 0
  {
    var f := y.Floor;
    var d := y - f as real;
    if d < 0.5 then f
    else if d > 0.5 then f + 1
    else if f % 2 == 0 then f else f + 1
  }

  /** The value a finite `x` shows with two decimals. */
  function Hundredths(x: real): int {
    RoundHalfEven(x * 100.0)
  }

  /** The number of hundredths `x` shows, without its sign. */
  function Cents(x: real): nat {
    var n := Hundredths(x);
    if n < 0 then -n else n
  }

  /** The value the text for a finite `x` stands for: its hundredths, with the
      sign of `x` (Python writes `-0.00` for small negative values). */
  function Shown(x: real): Float {
    CentsValue(x < 0.0, Cents(x))
  }

  /** `c` hundredths, negated when `neg` holds. */
  function CentsValue(neg: bool, c: nat): Float {
    var f := Finite(c as real / 100.0);
    if neg then Neg(f) else f
  }

  /** `c` hundredths as `q.rr`, with a minus sign when `neg` holds, right-aligned
      in six columns. */
  function FixedText(neg: bool, c: nat): string {
    PadLeft((if neg then "-" else "") + Numeral2(c), 6)
  }

  /** `a` hundredths written as `q.rr`. */
  function Numeral2(a: nat): string {
    NatToString(a / 100) + "." + ZeroPad(a % 100, 2)
  }

  /** Python's `f"{v:6.2f}"`: two decimals, right-aligned in six columns;
      NaN and the infinities are written `nan`, `inf`, `-inf`. */
  function Format62(f: Float): (s: string)
    ensures |s| >= 6
  {
    match f
    case NaN => PadLeft("nan", 6)
    case Inf(neg) => PadLeft(if neg then "-inf" else "inf", 6)
    case Finite(x) => FixedText(x < 0.0, Cents(x))
  }

  lemma FormatNaN()
    ensures Format62(NaN) == "   nan"
  {
    assert Spaces(3) == "   ";
  }

  /** The value that the text `Format62(v)` reads back as: the shown rounding
      of a finite value; NaN and the infinities unchanged. */
  function AsWritten(v: Float): Float {
    match v
    case Finite(x) => Shown(x)
    case _ => v
  }

  /** Every value `Format62` writes is a number `float` accepts, worth
      `AsWritten(v)`. */
  lemma FormatReadsBack(v: Float)
    ensures ParseFloat(Format62(v)) == Some(AsWritten(v))
  {
    match v
    case Finite(x) => FormatParsesBack(x);
    case NaN => NaNReadsBack();
    case Inf(neg) => if neg { MinusInfReadsBack(); } else { InfReadsBack(); }
  }

  lemma NaNReadsBack()
    ensures ParseFloat(PadLeft("nan", 6)) == Some(NaN)
  {
    StripPadded("nan", 6);
    assert Lower("nan") == "nan";
  }

  lemma InfReadsBack()
    ensures ParseFloat(PadLeft("inf", 6)) == Some(Inf(false))
  {
    StripPadded("inf", 6);
    assert Lower("inf") == "inf";
  }

  lemma MinusInfReadsBack()
    ensures ParseFloat(PadLeft("-inf", 6)) == Some(Inf(true))
  {
    StripPadded("-inf", 6);
    assert "-inf"[1..] == "inf";
    assert Lower("inf") == "inf";
  }

  /** A written value never holds a comma, so it stays one field of a row. */
  lemma FormatHasNoComma(v: Float)
    ensures ',' !in Format62(v)
  {
    match v
    case Finite(x) =>
      var c := Cents(x);
      var ip, fp := NatToString(c / 100), ZeroPad(c % 100, 2);
      DigitsHaveNoComma(ip);
      DigitsHaveNoComma(fp);
      var body := (if x < 0.0 then "-" else "") + Numeral2(c);
      assert body == (if x < 0.0 then "-" else "") + ip + "." + fp;
      PadLeftAddsNothingElse(body, 6, ',');
    case NaN => PadLeftAddsNothingElse("nan", 6, ',');
    case Inf(neg) =>
      PadLeftAddsNothingElse("-inf", 6, ',');
      PadLeftAddsNothingElse("inf", 6, ',');
  }

  /** What `Format62` writes for a finite value reads back as the value it shows. */
  lemma FormatParsesBack(x: real)
    ensures ParseFloat(Format62(Finite(x))) == Some(Shown(x))
    ensures Shown(x) == Finite(Hundredths(x) as real / 100.0)
  {
    FixedTextParses(x < 0.0, Cents(x));
    ShownRounds(x);
  }

  /** The shown value is `x` rounded to hundredths, so it lies within 0.005 of `x`. */
  lemma ShownRounds(x: real)
    ensures Shown(x) == Finite(Hundredths(x) as real / 100.0)
    ensures -0.005 <= Shown(x).v - x <= 0.005
  {
    var n := Hundredths(x);
    assert x < 0.0 ==> n <= 0;
    assert x >= 0.0 ==> n >= 0;
  }

  /** The text for `c` hundredths reads back as their value. */
  lemma FixedTextParses(neg: bool, c: nat)
    ensures ParseFloat(FixedText(neg, c)) == Some(CentsValue(neg, c))
  {
    Numeral2Parses(c);
    SignedLiteral(neg, Numeral2(c), Finite(c as real / 100.0));
  }

  /** A literal with an optional minus sign, right-aligned in six columns. */
  lemma SignedLiteral(neg: bool, m: string, f: Float)
    requires |m| > 0 && IsDigit(m[0]) && IsDigit(m[|m| - 1])
    requires ParseMagnitude(m) == Some(f)
    ensures ParseFloat(PadLeft((if neg then "-" else "") + m, 6)) == Some(if neg then Neg(f) else f)
  {
    if neg {
      MinusLiteral(m, f);
    } else {
      assert "" + m == m;
      PlainLiteral(m, f);
    }
  }

  /** `q.rr` is a literal worth `a / 100`, starting and ending with a digit. */
  lemma Numeral2Parses(a: nat)
    ensures var m := Numeral2(a); |m| > 0 && IsDigit(m[0]) && IsDigit(m[|m| - 1])
    ensures ParseMagnitude(Numeral2(a)) == Some(Finite(a as real / 100.0))
  {
    Numeral2Ends(a);
    Numeral2Value(a);
  }

  lemma Numeral2Ends(a: nat)
    ensures var m := Numeral2(a); |m| > 0 && IsDigit(m[0]) && IsDigit(m[|m| - 1])
  {
    var ip, fp := NatToString(a / 100), ZeroPad(a % 100, 2);
    assert Numeral2(a)[0] == ip[0];
    assert Numeral2(a)[|Numeral2(a)| - 1] == fp[1];
  }

  lemma Numeral2Value(a: nat)
    ensures ParseMagnitude(Numeral2(a)) == Some(Finite(a as real / 100.0))
  {
    var q, r := a / 100, a % 100;
    DigitsLiteral(q, r);
    HundredthsSplit(a);
    assert Numeral2(a) == NatToString(q) + "." + ZeroPad(r, 2);
  }

  lemma HundredthsSplit(a: nat)
    ensures (a / 100) as real + ((a % 100) as real) / 100.0 == a as real / 100.0
  {
    var q, r := a / 100, a % 100;
    assert a == 100 * q + r;
    assert a as real == 100.0 * (q as real) + r as real;
  }

  /** A literal with a minus sign, right-aligned in six columns. */
  lemma MinusLiteral(t: string, f: Float)
    requires |t| > 0 && IsDigit(t[|t| - 1])
    requires ParseMagnitude(t) == Some(f)
    ensures ParseFloat(PadLeft("-" + t, 6)) == Some(Neg(f))
  {
    var body := "-" + t;
    assert body[|body| - 1] == t[|t| - 1];
    StripPadded(body, 6);
    assert ParseSigned(body) == Some(Neg(f)) by {
      assert body[1..] == t;
    }
  }

  /** A literal without a sign, right-aligned in six columns. */
  lemma PlainLiteral(t: string, f: Float)
    requires |t| > 0 && IsDigit(t[0]) && IsDigit(t[|t| - 1])
    requires ParseMagnitude(t) == Some(f)
    ensures ParseFloat(PadLeft(t, 6)) == Some(f)
  {
    StripPadded(t, 6);
    assert ParseSigned(t) == ParseMagnitude(t) by {
      assert !(t[0] == '+' || t[0] == '-');
    }
  }

  /** A right-aligned field strips back to its content when that content has
      no white space at either end. */
  lemma StripPadded(body: string, width: nat)
    requires |body| > 0 && !IsSpace(body[0]) && !IsSpace(body[|body| - 1])
    ensures Strip(PadLeft(body, width)) == body
  {
    var s := PadLeft(body, width);
    var pad := s[..|s| - |body|];
    assert s == pad + body;
    StripLeadingSpaces(pad, body);
    StripNoSpace(body);
  }

  /** A numeral made of digits around one point is not `nan`, `inf` or `infinity`. */
  lemma NumeralIsNotSpecial(m: string, dot: nat)
    requires 0 < dot < |m| && m[dot] == '.'
    requires forall k :: 0 <= k < |m| && k != dot ==> IsDigit(m[k])
    ensures Lower(m) != "nan" && Lower(m) != "inf" && Lower(m) != "infinity"
    ensures FindExponentMark(m) == |m|
  {
    assert Lower(m)[0] == m[0];
    forall k | 0 <= k < |m| ensures m[k] != 'e' && m[k] != 'E' {
      assert k != dot ==> IsDigit(m[k]);
    }
  }

  /** `q.rr` in decimal is a literal worth `q + rr/100`. */
  lemma DigitsLiteral(q: nat, r: nat)
    requires r < 100
    ensures ParseUnsigned(NatToString(q) + "." + ZeroPad(r, 2)) == Some(q as real + (r as real) / 100.0)
    ensures ParseMagnitude(NatToString(q) + "." + ZeroPad(r, 2)) == Some(Finite(q as real + (r as real) / 100.0))
  {
    var ip, fp := NatToString(q), ZeroPad(r, 2);
    NatToStringValue(q);
    ZeroPadValue(r, 2);
    TwoDigitFraction(fp);
    NumeralParses(ip, fp, q as real + (r as real) / 100.0);
  }

  /** Digits, a point and digits parse as the numeral they write. */
  lemma NumeralParses(ip: string, fp: string, x: real)
    requires |ip| > 0 && AllDigits(ip) && AllDigits(fp) && x == NumeralValue(ip, fp)
    ensures ParseUnsigned(ip + "." + fp) == Some(x)
    ensures ParseMagnitude(ip + "." + fp) == Some(Finite(x))
  {
    var m := ip + "." + fp;
    forall k | 0 <= k < |m| && k != |ip| ensures IsDigit(m[k]) {
      if k < |ip| { assert m[k] == ip[k]; } else { assert m[k] == fp[k - |ip| - 1]; }
    }
    NumeralIsNotSpecial(m, |ip|);
    assert m[..|m|] == m;
    MantissaValue(ip, fp);
    assert Scale10(NumeralValue(ip, fp), 0) == NumeralValue(ip, fp);
  }

  /** Two digits after the point are worth their value in hundredths. */
  lemma TwoDigitFraction(fp: string)
    requires |fp| == 2 && AllDigits(fp)
    ensures FractionValue(fp) == (DigitsValue(fp) as real) / 100.0
  {
    var d0, d1 := DigitValue(fp[0]) as real, DigitValue(fp[1]) as real;
    assert fp[1..][1..] == "";
    assert FractionValue(fp[1..]) == d1 / 10.0;
    assert FractionValue(fp) == (d0 + d1 / 10.0) / 10.0;
    assert fp[..1][..0] == "";
    assert DigitsValue(fp[..1]) == DigitValue(fp[0]);
    assert DigitsValue(fp) == DigitValue(fp[0]) * 10 + DigitValue(fp[1]);
  }

  lemma MantissaValue(ip: string, fp: string)
    requires |ip| > 0 && AllDigits(ip) && AllDigits(fp)
    ensures ParseMantissa(ip + "." + fp) == Some(NumeralValue(ip, fp))
  {
    var m := ip + "." + fp;
    FindAfter(ip, '.', fp);
    var i := Find(m, '.');
    assert i == |ip| && i < |m|;
    var a := m[..i];
    var b := m[i + 1..];
    assert a == ip;
    assert b == fp;
    assert AllDigits(a) && AllDigits(b) && |a| + |b| > 0;
  }

  /** The first `c` of `a + [c] + b` is right after `a` when `a` is free of `c`. */
  lemma FindAfter(a: string, c: char, b: string)
    requires forall k :: 0 <= k < |a| ==> a[k] != c
    ensures Find(a + [c] + b, c) == |a|
  {
    var m := a + [c] + b;
    assert forall k :: 0 <= k < |a| ==> m[k] == a[k];
    assert m[|a|] == c;
  }

  // ---------------------------------------------------------------------------
  // Arithmetic (IEEE rules for NaN and the infinities)

  function Neg(a: Float): Float {
    match a
    case NaN => NaN
    case Inf(n) => Inf(!n)
    case Finite(x) => Finite(-x)
  }

  function Add(a: Float, b: Float): (r: Float)
    ensures (a.NaN? || b.NaN?) ==> r.NaN?
    ensures a.Finite? && b.Finite? ==> r == Finite(a.v + b.v)
  {
    match (a, b)
    case (NaN, _) => NaN
    case (_, NaN) => NaN
    case (Inf(n1), Inf(n2)) => if n1 == n2 then a else NaN
    case (Inf(_), _) => a
    case (_, Inf(_)) => b
    case (Finite(x), Finite(y)) => Finite(x + y)
  }

  function Sub(a: Float, b: Float): (r: Float)
    ensures (a.NaN? || b.NaN?) ==> r.NaN?
    ensures a.Finite? && b.Finite? ==> r == Finite(a.v - b.v)
  {
    Add(a, Neg(b))
  }

  /** Every value is finite. */
  predicate AllFinite(xs: seq<Float>) {
    forall k :: 0 <= k < |xs| ==> xs[k].Finite?
  }

  /** NumPy's `sum`: the values added left to right; the sum of finite values
      is their real total. */
  function Sum(xs: seq<Float>): (r: Float)
    ensures AllFinite(xs) ==> r == Finite(RealSum(xs))
  {
    if |xs| == 0 then Finite(0.0)
    else
      RealSumLast(xs);
      Add(Sum(xs[..|xs| - 1]), xs[|xs| - 1])
  }

  /** The total of finite values, first to last. */
  function RealSum(xs: seq<Float>): real
    requires AllFinite(xs)
  {
    if |xs| == 0 then 0.0 else xs[0].v + RealSum(xs[1..])
  }

  /** Adding on the last value instead of the first gives the same total. */
  lemma {:induction false} RealSumLast(xs: seq<Float>)
    requires |xs| > 0
    ensures AllFinite(xs) ==>
      AllFinite(xs[..|xs| - 1]) && RealSum(xs) == RealSum(xs[..|xs| - 1]) + xs[|xs| - 1].v
  {
    if |xs| > 1 && AllFinite(xs) {
      var tail := xs[1..];
      RealSumLast(tail);
      assert tail[..|tail| - 1] == xs[..|xs| - 1][1..];
    }
  }

  /** The total from position `i` on is value `i` plus the total after it. */
  lemma RealSumFrom(xs: seq<Float>, i: int)
    requires AllFinite(xs) && 0 <= i < |xs|
    ensures AllFinite(xs[i..]) && AllFinite(xs[i + 1..])
    ensures RealSum(xs[i..]) == xs[i].v + RealSum(xs[i + 1..])
  {
    assert xs[i..][1..] == xs[i + 1..];
  }

  /** The arithmetic mean of a non-empty list (NumPy's `mean`); the mean of
      finite values is their real total over their number. */
  function Mean(xs: seq<Float>): (r: Float)
    requires |xs| > 0
    ensures AllFinite(xs) ==> r == Finite(RealSum(xs) / (|xs| as real))
  {
    match Sum(xs)
    case Finite(s) => Finite(s / (|xs| as real))
    case other => other
  }

  /** Strictly below zero; false for NaN, as every comparison with NaN is. */
  predicate IsNegative(a: Float) {
    (a.Finite? && a.v < 0.0) || a == Inf(true)
  }

  /** Strictly above zero; false for NaN. */
  predicate IsPositive(a: Float) {
    (a.Finite? && a.v > 0.0) || a == Inf(false)
  }

  predicate IsFinite(a: Float) { a.Finite? }
}
