/** Option values in exponential notation (support/testlib.h:5591-5717). `long double` is
    an exact real here; `int` arithmetic wraps as on two's complement machines. */
module Exponential {
  import opened Bytes
  import opened Decimal
  import opened PlainDecimals

  datatype Outcome<+T> = Is(value: T) | Fails | Undefined

  /** Conversion to a 32-bit `int`. */
  function Wrap32(x: int): int { (x - INT32_MIN) % 0x1_0000_0000 + INT32_MIN }

  lemma WrapLaws(x: int, d: int, sign: int)
    requires sign == 1 || sign == -1
    ensures Wrap32(Wrap32(x) * 10 + d) == Wrap32(x * 10 + d)
    ensures Wrap32(Wrap32(x) * sign) == Wrap32(x * sign)
    ensures Wrap32(x) == x <==> IsInt32(x)
  {
    var k := (x - INT32_MIN) / 0x1_0000_0000;
    assert Wrap32(x) == x - 0x1_0000_0000 * k;
    WrapShift(x * 10 + d, -10 * k);
    WrapShift(x * sign, -sign * k);
  }

  lemma WrapShift(x: int, k: int)
    ensures Wrap32(x + 0x1_0000_0000 * k) == Wrap32(x)
  {
  }

  // ---------------------------------------------------------------- notation

  predicate IsMark(c: Byte) { c == 101 || c == 69 }

  function MarkCount(s: seq<Byte>): nat {
    if s == [] then 0 else (if IsMark(s[0]) then 1 else 0) + MarkCount(s[1..])
  }

  /** The index of the first mark. */
  function MarkAt(s: seq<Byte>): (r: nat)
    ensures r <= |s| && (r < |s| ==> IsMark(s[r])) && forall i | 0 <= i < r :: !IsMark(s[i])
  {
    if s == [] || IsMark(s[0]) then 0 else 1 + MarkAt(s[1..])
  }

  function DropPlus(s: seq<Byte>): seq<Byte> {
    if s != [] && s[0] == PLUS then s[1..] else s
  }

  /** The text before the mark, without a plus sign. */
  function Mantissa(s: seq<Byte>): seq<Byte> { DropPlus(s[..MarkAt(s)]) }

  /** The text behind the mark, without a plus sign. */
  function ExponentText(s: seq<Byte>): seq<Byte>
    requires MarkCount(s) == 1
  {
    MarkFound(s);
    DropPlus(s[MarkAt(s) + 1..])
  }

  lemma {:induction false} MarkFound(s: seq<Byte>)
    ensures MarkCount(s) > 0 <==> MarkAt(s) < |s|
    ensures MarkCount(s) > 0 ==> MarkCount(s[MarkAt(s) + 1..]) == MarkCount(s) - 1
    ensures MarkCount(s[..MarkAt(s)]) == 0
  {
    if s != [] && !IsMark(s[0]) {
      MarkFound(s[1..]);
      assert s[..MarkAt(s)][1..] == s[1..][..MarkAt(s[1..])];
      if MarkAt(s) < |s| { assert s[MarkAt(s) + 1..] == s[1..][MarkAt(s[1..]) + 1..]; }
    }
  }

  predicate Negative(s: seq<Byte>) { s != [] && s[0] == MINUS }

  /** A plain integer text; a lone minus sign is read as 0. */
  function IntegralOf(s: seq<Byte>): Option<int> {
    var d := Magnitude(s);
    if s == [] || !AllDigits(d) then None
    else
      var v: int := if Negative(s) then -(DigitsValue(d) as int) else DigitsValue(d);
      if IsInt32(v) then Some(v) else None
  }

  /** A plain decimal text. */
  function RealOf(s: seq<Byte>): Option<real> {
    var d := Magnitude(s);
    if s == [] || !IsDecimal(d) then None
    else Some(if Negative(s) then -Value(d) else Value(d))
  }

  /** How far the two shift loops go: `-ne` wraps for the smallest `int`, so that neither runs. */
  function Steps(ne: int): int { if ne == INT32_MIN then 0 else ne }

  /** `parseExponentialOptValue`. For a lone minus sign and a negative exponent the program
      inserts before the start of an empty string. */
  function ParseExponential(s: seq<Byte>): Outcome<seq<Byte>> {
    if MarkCount(s) == 0 then Is(s)
    else if MarkCount(s) > 1 then Fails
    else
      var e := ExponentText(s);
      var m := Mantissa(s);
      if e == [] || |e| > 20 || IntegralOf(e).None? || MarkAt(s) > 20 || RealOf(m).None? then Fails
      else
        var ne := IntegralOf(e).value;
        if Magnitude(m) == [] && Steps(ne) < 0 then Undefined
        else Is((if Negative(m) then [MINUS] else []) + Tidied(Shifted(Magnitude(m), Steps(ne))))
  }

  /** `optValueToIntegral<int>` */
  function IntegralOpt(s: seq<Byte>, nonnegative: bool): Outcome<int> {
    match ParseExponential(s)
    case Fails => Fails
    case Undefined => Undefined
    case Is(t) =>
      if IntegralOf(t).None? || (nonnegative && Negative(t)) then Fails else Is(IntegralOf(t).value)
  }

  /** `optValueToLongDouble` */
  function RealOpt(s: seq<Byte>): Outcome<real> {
    match ParseExponential(s)
    case Fails => Fails
    case Undefined => Undefined
    case Is(t) => if RealOf(t).None? then Fails else Is(RealOf(t).value)
  }

  // ------------------------------------------------------------- properties

  lemma {:induction false} ScaledShrinks(v: real, e: int)
    requires v >= 0.0 && e < 0
    ensures v == 0.0 ==> Scaled(v, e) == 0.0
    ensures v > 0.0 ==> 0.0 < Scaled(v, e) < v
    decreases -e
  {
    if e < -1 { ScaledShrinks(v, e + 1); }
  }

  lemma ValueNotNegative(s: seq<Byte>)
    requires IsDecimal(s)
    ensures Value(s) >= 0.0
  {
    PartsJoin(s);
    FractionBounds(Fraction(s));
  }

  /** The normal text `n` stands, without its sign, for what the notation `s` denotes. */
  ghost predicate Denotes(n: seq<Byte>, s: seq<Byte>)
    requires MarkCount(s) == 1 && RealOf(Mantissa(s)).Some? && IntegralOf(ExponentText(s)).Some?
  {
    Normal(n) && Value(n) == Scaled(Value(Magnitude(Mantissa(s))), IntegralOf(ExponentText(s)).value)
  }

  /** What the text consists of. */
  lemma ResultParts(s: seq<Byte>)
    requires MarkCount(s) == 1 && ParseExponential(s).Is?
    ensures RealOf(Mantissa(s)).Some? && IntegralOf(ExponentText(s)).Some?
    ensures var t, m := ParseExponential(s).value, Mantissa(s);
      && IsDecimal(Magnitude(m)) && Value(Magnitude(m)) >= 0.0
      && Normal(Magnitude(t)) && Negative(t) == Negative(m)
      && Value(Magnitude(t)) == Scaled(Value(Magnitude(m)), Steps(IntegralOf(ExponentText(s)).value))
  {
    var m := Mantissa(s);
    hide MarkCount, Mantissa, ExponentText, IntegralOf, Tidied, Value, Shifted, Normal;
    RealUnsigned(m);
    var u, e := Magnitude(m), Steps(IntegralOf(ExponentText(s)).value);
    var n := Tidied(Shifted(u, e));
    TidiedNormal(Shifted(u, e));
    NormalUnsigned(n);
    ValueNotNegative(u);
    assert ParseExponential(s).value == (if Negative(m) then [MINUS] else []) + n;
    assert [] + n == n;
    hide ParseExponential, RealOf, Magnitude, Negative, IsDecimal;
  }

  /** The result is a signed normal decimal. It denotes mantissa times ten to the exponent
      exactly unless the exponent is the smallest `int` and the mantissa is not zero; then it
      is the one normal text that does. */
  lemma ExponentialKeepsValue(s: seq<Byte>)
    requires MarkCount(s) == 1 && ParseExponential(s).Is?
    ensures RealOf(Mantissa(s)).Some? && IntegralOf(ExponentText(s)).Some?
    ensures var t := ParseExponential(s).value; var m := Mantissa(s);
      && Normal(Magnitude(t)) && Negative(t) == Negative(m)
      && (Denotes(Magnitude(t), s) <==>
            IntegralOf(ExponentText(s)).value != INT32_MIN || Value(Magnitude(m)) == 0.0)
      && forall n | Denotes(n, s) && Denotes(Magnitude(t), s) :: n == Magnitude(t)
  {
    ResultParts(s);
    hide MarkCount, Mantissa, ExponentText, IntegralOf, ParseExponential, RealOf, Magnitude, Negative;
    hide Value, Normal, Scaled, IsDecimal;
    var n, v := Magnitude(ParseExponential(s).value), Value(Magnitude(Mantissa(s)));
    if IntegralOf(ExponentText(s)).value == INT32_MIN {
      ScaledShrinks(v, INT32_MIN);
      ScaledNone(v);
    }
    forall x | Denotes(x, s) && Denotes(n, s) ensures x == n { NormalUnique(x, n); }
  }

  lemma ScaledNone(v: real)
    ensures Scaled(v, 0) == v
  {
  }

  lemma NormalUnsigned(n: seq<Byte>)
    requires Normal(n)
    ensures !Negative(n) && Magnitude(n) == n && Magnitude([MINUS] + n) == n && Negative([MINUS] + n)
  {
    PartsJoin(n);
    assert n[0] == Whole(n)[0];
  }

  /** As a number: the signed mantissa times ten to the exponent. */
  lemma RealOptValue(s: seq<Byte>)
    requires MarkCount(s) == 1 && ParseExponential(s).Is?
    requires IntegralOf(ExponentText(s)) != Some(INT32_MIN) || RealOf(Mantissa(s)) == Some(0.0)
    ensures RealOf(Mantissa(s)).Some? && IntegralOf(ExponentText(s)).Some?
    ensures RealOpt(s) == Is(Scaled(RealOf(Mantissa(s)).value, IntegralOf(ExponentText(s)).value))
  {
    hide *;
    KeptValue(s);
    var t, m, ne := ParseExponential(s).value, Mantissa(s), IntegralOf(ExponentText(s)).value;
    RealSigned(t);
    RealUnsigned(m);
    ScaledNegated(Value(Magnitude(m)), ne);
    RealOptIs(s, t);
  }

  lemma KeptValue(s: seq<Byte>)
    requires MarkCount(s) == 1 && ParseExponential(s).Is?
    requires IntegralOf(ExponentText(s)) != Some(INT32_MIN) || RealOf(Mantissa(s)) == Some(0.0)
    ensures RealOf(Mantissa(s)).Some? && IsDecimal(Magnitude(Mantissa(s))) && IntegralOf(ExponentText(s)).Some?
    ensures var t, m := ParseExponential(s).value, Mantissa(s);
      && Normal(Magnitude(t)) && Negative(t) == Negative(m) && IsDecimal(Magnitude(t))
      && Value(Magnitude(t)) == Scaled(Value(Magnitude(m)), IntegralOf(ExponentText(s)).value)
  {
    ExponentialKeepsValue(s);
    NormalNotEmpty(Magnitude(ParseExponential(s).value));
    RealUnsigned(Mantissa(s));
    hide ParseExponential, Mantissa, ExponentText, MarkCount, IntegralOf, Scaled, Magnitude, Negative;
    hide Normal, IsDecimal, Value, RealOf;
  }

  lemma RealUnsigned(m: seq<Byte>)
    requires RealOf(m).Some?
    ensures IsDecimal(Magnitude(m))
    ensures RealOf(m) == Some(if Negative(m) then -Value(Magnitude(m)) else Value(Magnitude(m)))
  {
  }

  lemma RealOptIs(s: seq<Byte>, t: seq<Byte>)
    requires ParseExponential(s) == Is(t) && RealOf(t).Some?
    ensures RealOpt(s) == Is(RealOf(t).value)
  {
  }

  lemma RealSigned(t: seq<Byte>)
    requires Normal(Magnitude(t))
    ensures IsDecimal(Magnitude(t))
    ensures RealOf(t) == Some(if Negative(t) then -Value(Magnitude(t)) else Value(Magnitude(t)))
  {
    NormalNotEmpty(Magnitude(t));
  }

  lemma {:induction false} ScaledNegated(v: real, e: int)
    ensures Scaled(-v, e) == -Scaled(v, e)
    decreases if e < 0 then -e else e
  {
    if e > 0 { ScaledNegated(v, e - 1); } else if e < 0 { ScaledNegated(v, e + 1); }
  }

  /** As an integer: accepted exactly when the number it denotes is an `int`, and then equal to it. */
  lemma IntegralOptValue(s: seq<Byte>, v: int)
    requires MarkCount(s) == 1 && ParseExponential(s).Is?
    requires IntegralOf(ExponentText(s)) != Some(INT32_MIN) || RealOf(Mantissa(s)) == Some(0.0)
    ensures RealOf(Mantissa(s)).Some? && IntegralOf(ExponentText(s)).Some?
    ensures IntegralOpt(s, false) == Is(v) <==>
      IsInt32(v) && v as real == Scaled(RealOf(Mantissa(s)).value, IntegralOf(ExponentText(s)).value)
  {
    RealOptValue(s);
    ExponentialKeepsValue(s);
    hide ParseExponential, Mantissa, ExponentText, MarkCount, Denotes;
    IntegralOfReal(ParseExponential(s).value, v);
    hide IntegralOf, RealOf;
  }

  /** A signed normal text is read as an integer exactly when its value is an `int`. */
  lemma IntegralOfReal(t: seq<Byte>, v: int)
    requires Normal(Magnitude(t))
    ensures RealOf(t).Some?
    ensures IntegralOf(t) == Some(v) <==> IsInt32(v) && RealOf(t).value == v as real
  {
    var n := Magnitude(t);
    NormalInteger(n, v);
    NormalNotEmpty(n);
    assert t != [];
    hide Normal, IsDecimal, AllDigits, Value, DigitsValue;
  }

  lemma NormalNotEmpty(n: seq<Byte>)
    requires Normal(n)
    ensures n != [] && IsDecimal(n)
  {
  }

  /** A normal text denotes an integer exactly when it has no point. */
  lemma NormalInteger(n: seq<Byte>, v: int)
    requires Normal(n)
    ensures AllDigits(n) ==> Value(n) == DigitsValue(n) as real
    ensures !AllDigits(n) ==> v as real != Value(n) && v as real != -Value(n)
  {
    PartsJoin(n);
    PointIfFraction(n);
    if HasPoint(n) {
      assert n[PointAt(n)] == POINT;
      FractionBounds(Fraction(n));
      var k := DigitsValue(Whole(n));
      NotBetween(v, k, FractionValue(Fraction(n)));
      NotBetween(-v, k, FractionValue(Fraction(n)));
    } else {
      assert Whole(n) == n;
    }
  }

  lemma NotBetween(v: int, k: int, f: real)
    requires 0.0 < f < 1.0
    ensures v as real != k as real + f
  {
    assert (v - k) as real == v as real - k as real;
  }

  lemma DigitsSnoc(s: seq<Byte>, c: Byte)
    requires AllDigits(s) && IsDigit(c)
    ensures AllDigits(s + [c]) && DigitsValue(s + [c]) == DigitsValue(s) * 10 + (c - ZERO) as int
  {
    assert (s + [c])[..|s|] == s;
  }

  lemma {:induction false} NoMark(s: seq<Byte>)
    requires forall i | 0 <= i < |s| :: IsDigit(s[i]) || s[i] == MINUS
    ensures MarkCount(s) == 0
  {
    if s != [] { NoMark(s[1..]); }
  }

  lemma NatTextStep(n: nat, d: nat)
    requires n > 0 && d < 10
    ensures NatText(10 * n + d) == NatText(n) + [DigitChar(d)]
  {
  }

  /** Two to the 31 in decimal digits. */
  lemma BillionsText()
    ensures NatText(2147483648) == [50, 49, 52, 55, 52, 56, 51, 54, 52, 56]
  {
    assert NatText(2) == [50];
    NatTextStep(2, 1);
    NatTextStep(21, 4);
    NatTextStep(214, 7);
    NatTextStep(2147, 4);
    NatTextStep(21474, 8);
    NatTextStep(214748, 3);
    NatTextStep(2147483, 6);
    NatTextStep(21474836, 4);
    NatTextStep(214748364, 8);
    hide NatText;
  }

  lemma SmallestExponentText(e: seq<Byte>)
    requires e == [MINUS] + NatText(2147483648)
    ensures IntegralOf(e) == Some(INT32_MIN) && MarkCount(e) == 0
  {
    NatTextShape(2147483648);
    NoMark(e);
    hide NatText, MarkCount;
    assert e[1..] == NatText(2147483648);
    hide DigitsValue;
  }

  const ONE: seq<Byte> := [49]

  lemma OneText()
    ensures Normal(ONE) && Value(ONE) == 1.0 && RealOf(ONE).Some? && MarkCount(ONE) == 0
  {
    NatTextShape(1);
    assert NatText(1) == ONE;
    JoinedParts(ONE, []);
    PointBehind(ONE, []);
    NoMark(ONE);
    assert Whole(ONE) == ONE;
  }

  /** The two sides of a mark. */
  lemma SidesOf(n: seq<Byte>, e: seq<Byte>)
    requires MarkCount(n) == 0 && MarkCount(e) == 0
    ensures var s := n + ([101] + e);
      MarkCount(s) == 1 && MarkAt(s) == |n| && ExponentText(s) == DropPlus(e) && Mantissa(s) == DropPlus(n)
  {
    MarkBehind(n, e);
    var s := n + ([101] + e);
    assert s[..|n|] == n && s[|n| + 1..] == e;
    hide MarkCount, MarkAt, DropPlus;
  }

  lemma SmallestText(e: seq<Byte>)
    requires e == [MINUS] + NatText(2147483648)
    ensures Ascii("1e-2147483648") == ONE + ([101] + e)
    ensures |e| == 11 && DropPlus(e) == e && DropPlus(ONE) == ONE
  {
    BillionsText();
    SmallestAscii();
    hide Ascii, NatText;
  }

  lemma SmallestExponentParts(e: seq<Byte>)
    requires e == [MINUS] + NatText(2147483648)
    ensures var s := Ascii("1e-2147483648");
      && MarkCount(s) == 1 && MarkAt(s) == 1 && ExponentText(s) == e && Mantissa(s) == ONE && |e| == 11
  {
    SmallestExponentText(e);
    OneText();
    SmallestText(e);
    assert |ONE| == 1;
    hide *;
    SidesOf(ONE, e);
  }

  lemma SmallestAscii()
    ensures Ascii("1e-2147483648") == [49, 101, 45, 50, 49, 52, 55, 52, 56, 51, 54, 52, 56]
  {
    var t := "1e-2147483648";
    assert IsAscii(t);
  }

  /** The failing case exists: "1e-2147483648" is read as 1, which is not what it denotes. */
  lemma SmallestExponentLost()
    ensures var s := Ascii("1e-2147483648");
      && ParseExponential(s) == Is(ONE) && MarkCount(s) == 1
      && RealOf(Mantissa(s)).Some? && IntegralOf(ExponentText(s)) == Some(INT32_MIN)
      && !Denotes(ONE, s)
  {
    var s := Ascii("1e-2147483648");
    var e := [MINUS] + NatText(2147483648);
    SmallestExponentParts(e);
    SmallestExponentText(e);
    OneText();
    NormalNotEmpty(ONE);
    NormalUnsigned(ONE);
    TidiedNormal(ONE);
    NormalUnique(Tidied(ONE), ONE);
    hide Ascii, MarkCount, MarkAt, ExponentText, Mantissa, IntegralOf, Magnitude, Negative, Tidied, Normal, Value;
    hide RealOf, ONE, NatText, Scaled;
    SmallestParse(s);
    ExponentialKeepsValue(s);
  }

  lemma SmallestParse(s: seq<Byte>)
    requires MarkCount(s) == 1 && MarkAt(s) <= 20 && Mantissa(s) == ONE && RealOf(ONE).Some?
    requires |ExponentText(s)| == 11 && IntegralOf(ExponentText(s)) == Some(INT32_MIN)
    requires IsDecimal(ONE) && Tidied(ONE) == ONE && !Negative(ONE) && Magnitude(ONE) == ONE
    ensures ParseExponential(s) == Is(ONE)
  {
    hide MarkCount, MarkAt, ExponentText, Mantissa, IntegralOf, Magnitude, Negative, Tidied, IsDecimal, Value, ONE;
    assert Shifted(ONE, 0) == ONE;
    assert [] + ONE == ONE;
  }

  /** A normal text is its own reading, also with exponent 0. */
  lemma PlainRoundTrip(n: seq<Byte>)
    requires Normal(n) && |n| <= 20 && MarkCount(n) == 0
    ensures ParseExponential(n) == Is(n) && ParseExponential(n + [101, ZERO]) == Is(n)
  {
    var s := n + [101, ZERO];
    ZeroExponent(n);
    NormalUnsigned(n);
    NormalNotEmpty(n);
    TidiedNormal(n);
    NormalUnique(Tidied(n), n);
    hide *;
    ParseOf(s, n);
  }

  lemma ZeroExponent(n: seq<Byte>)
    requires Normal(n) && MarkCount(n) == 0
    ensures var s := n + [101, ZERO];
      MarkCount(s) == 1 && MarkAt(s) == |n| && ExponentText(s) == [ZERO] && Mantissa(s) == n
  {
    ZeroText();
    FirstDigit(n);
    MarkBehind(n, [ZERO]);
    hide MarkCount, MarkAt;
    var s := n + [101, ZERO];
    assert s == n + ([101] + [ZERO]);
    assert s[|n| + 1..] == [ZERO] && s[..|n|] == n;
  }

  lemma FirstDigit(n: seq<Byte>)
    requires Normal(n)
    ensures n != [] && IsDigit(n[0])
  {
    PartsJoin(n);
    assert n[0] == Whole(n)[0];
  }

  lemma ZeroText()
    ensures IntegralOf([ZERO]) == Some(0) && MarkCount([ZERO]) == 0
  {
    var z: seq<Byte> := [ZERO];
    assert z[1..] == [];
    assert DigitsValue(z) == 0 by { assert z[..0] == []; }
  }

  lemma ParseOf(s: seq<Byte>, n: seq<Byte>)
    requires MarkCount(n) == 0 && n != [] && |n| <= 20 && IsDecimal(n) && Tidied(n) == n
    requires MarkCount(s) == 1 && MarkAt(s) == |n| && ExponentText(s) == [ZERO] && Mantissa(s) == n
    requires !Negative(n) && Magnitude(n) == n
    ensures ParseExponential(n) == Is(n) && ParseExponential(s) == Is(n)
  {
    ZeroText();
    hide MarkCount, MarkAt, ExponentText, Mantissa, IntegralOf, Magnitude, Negative, Tidied, IsDecimal, Value;
    assert Shifted(n, 0) == n;
    assert [] + n == n;
  }

  lemma {:induction false} MarkBehind(n: seq<Byte>, e: seq<Byte>)
    requires MarkCount(n) == 0
    ensures MarkAt(n + ([101] + e)) == |n| && MarkCount(n + ([101] + e)) == 1 + MarkCount(e)
  {
    var s := n + ([101] + e);
    if n == [] {
      assert s == [101] + e && s[1..] == e;
    } else {
      MarkBehind(n[1..], e);
      assert s[1..] == n[1..] + ([101] + e);
    }
  }
}
