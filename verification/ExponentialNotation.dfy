/** Which texts are exponential notations, and what they denote (support/testlib.h:5591-5621). */
module ExponentialNotation {
  import opened Bytes
  import opened Decimal
  import opened PlainDecimals
  import opened Exponential

  /** A text with an optional plus sign in front. */
  function Plused(plus: bool, s: seq<Byte>): seq<Byte> { if plus then [43] + s else s }

  predicate Unmarked(s: seq<Byte>) { 101 !in s && 69 !in s }

  /** The letters e and E are the marks. */
  lemma {:induction false} MarksCounted(s: seq<Byte>)
    ensures MarkCount(s) == multiset(s)[101] + multiset(s)[69]
  {
    if s != [] {
      MarksCounted(s[1..]);
      assert s == [s[0]] + s[1..];
    }
  }

  lemma UnmarkedCount(s: seq<Byte>)
    ensures Unmarked(s) <==> MarkCount(s) == 0
  {
    MarksCounted(s);
    assert 101 in s <==> 101 in multiset(s);
    assert 69 in s <==> 69 in multiset(s);
  }

  lemma {:induction false} FirstMark(a: seq<Byte>, c: Byte, b: seq<Byte>)
    requires Unmarked(a) && (c == 101 || c == 69)
    ensures MarkAt(a + [c] + b) == |a| && MarkCount(a + [c] + b) == 1 + MarkCount(b)
  {
    var s := a + [c] + b;
    if a == [] {
      assert s[1..] == b;
    } else {
      FirstMark(a[1..], c, b);
      assert s[1..] == a[1..] + [c] + b;
    }
  }

  /** The parts of a notation: the mantissa and the exponent, each without one plus sign. */
  lemma PartsOf(pa: bool, a: seq<Byte>, c: Byte, pb: bool, b: seq<Byte>)
    requires Unmarked(a) && Unmarked(b) && (c == 101 || c == 69)
    requires (pa || a == [] || a[0] != 43) && (pb || b == [] || b[0] != 43)
    ensures var s := Plused(pa, a) + [c] + Plused(pb, b);
      && MarkCount(s) == 1 && MarkAt(s) == |Plused(pa, a)| && Mantissa(s) == a && ExponentText(s) == b
  {
    var x, y := Plused(pa, a), Plused(pb, b);
    var s := x + [c] + y;
    UnmarkedCount(y);
    FirstMark(x, c, y);
    hide MarkCount, MarkAt;
    assert s[..|x|] == x && s[|x| + 1..] == y;
    assert ([43] + a)[1..] == a && ([43] + b)[1..] == b;
  }

  /** Every text with exactly one mark is of that form. */
  lemma EveryNotation(s: seq<Byte>) returns (pa: bool, a: seq<Byte>, c: Byte, pb: bool, b: seq<Byte>)
    requires multiset(s)[101] + multiset(s)[69] == 1
    ensures Unmarked(a) && Unmarked(b) && (c == 101 || c == 69)
    ensures (pa || a == [] || a[0] != 43) && (pb || b == [] || b[0] != 43)
    ensures s == Plused(pa, a) + [c] + Plused(pb, b)
  {
    MarksCounted(s);
    MarkFound(s);
    var x, y := s[..MarkAt(s)], s[MarkAt(s) + 1..];
    UnmarkedCount(x);
    UnmarkedCount(y);
    c := s[MarkAt(s)];
    assert s == x + [c] + y;
    hide MarkCount, MarkAt;
    pa, pb := x != [] && x[0] == 43, y != [] && y[0] == 43;
    a, b := if pa then x[1..] else x, if pb then y[1..] else y;
    assert pa ==> x == [43] + a;
    assert pb ==> y == [43] + b;
  }

  /** Without a mark a text is taken as it stands, and with two it is refused. With one it is
      refused exactly when a part is too long or missing, the exponent is no 32-bit integer,
      or the mantissa no decimal. */
  lemma NotationAccepted(pa: bool, a: seq<Byte>, c: Byte, pb: bool, b: seq<Byte>)
    requires Unmarked(a) && Unmarked(b) && (c == 101 || c == 69)
    requires (pa || a == [] || a[0] != 43) && (pb || b == [] || b[0] != 43)
    ensures var s := Plused(pa, a) + [c] + Plused(pb, b);
      ParseExponential(s) != Fails <==>
        && |Plused(pa, a)| <= 20 && RealOf(a).Some?
        && 1 <= |b| <= 20 && IntegralOf(b).Some?
  {
    PartsOf(pa, a, c, pb, b);
    hide MarkCount, MarkAt, Mantissa, ExponentText, RealOf, IntegralOf, Plused;
    hide Tidied, Shifted, Magnitude;
  }

  lemma OtherMarkCounts(s: seq<Byte>)
    ensures multiset(s)[101] + multiset(s)[69] == 0 ==> ParseExponential(s) == Is(s)
    ensures multiset(s)[101] + multiset(s)[69] > 1 ==> ParseExponential(s) == Fails
  {
    MarksCounted(s);
    hide MarkCount;
  }

  /** An accepted notation denotes its signed mantissa times ten to its exponent, unless the
      exponent is the smallest int and the mantissa is not zero. */
  lemma NotationValue(pa: bool, a: seq<Byte>, c: Byte, pb: bool, b: seq<Byte>)
    requires Unmarked(a) && Unmarked(b) && (c == 101 || c == 69)
    requires (pa || a == [] || a[0] != 43) && (pb || b == [] || b[0] != 43)
    requires ParseExponential(Plused(pa, a) + [c] + Plused(pb, b)).Is?
    requires IntegralOf(b) != Some(INT32_MIN) || RealOf(a) == Some(0.0)
    ensures RealOf(a).Some? && IntegralOf(b).Some?
    ensures RealOpt(Plused(pa, a) + [c] + Plused(pb, b)) == Is(Scaled(RealOf(a).value, IntegralOf(b).value))
  {
    PartsOf(pa, a, c, pb, b);
    hide *;
    RealOptValue(Plused(pa, a) + [c] + Plused(pb, b));
  }

  /** Where a nonnegative integer is asked for, a minus sign is refused, even before a zero,
      and nothing else changes. */
  lemma NonnegativeOpt(s: seq<Byte>, t: seq<Byte>)
    requires ParseExponential(s) == Is(t)
    ensures IntegralOpt(s, true) == if t != [] && t[0] == 45 then Fails else IntegralOpt(s, false)
    ensures IntegralOpt(s, true).Is? ==> IntegralOpt(s, true).value >= 0
  {
    hide ParseExponential, DigitsValue;
  }

  // ---------------------------------------------------------------- the parts

  /** The exponent text: an optional minus sign and digits, worth a 32-bit integer. */
  lemma IntegralText(v: int)
    ensures IntegralOf(IntText(v)) == if IsInt32(v) then Some(v) else None
  {
    NatTextShape(if v < 0 then -v else v);
    hide NatText, DigitsValue;
    if v < 0 { assert IntText(v)[1..] == NatText(-v); }
  }

  /** Leading zeros change nothing. */
  lemma LeadingZero(d: seq<Byte>)
    requires AllDigits(d) && d != []
    ensures AllDigits([48] + d) && IntegralOf([48] + d) == IntegralOf(d)
  {
    ZeroInFront(d);
    assert d[0] != 45;
    hide DigitsValue;
    assert Magnitude([48] + d) == [48] + d && Magnitude(d) == d;
  }

  /** A minus sign in front of digits negates them, and without digits is read as 0. */
  lemma MinusInFront(d: seq<Byte>)
    requires AllDigits(d)
    ensures IntegralOf([45] + d) == if DigitsValue(d) <= 0x8000_0000 then Some(-(DigitsValue(d) as int)) else None
  {
    hide DigitsValue;
    assert ([45] + d)[1..] == d;
  }

  lemma {:induction false} ZeroInFront(d: seq<Byte>)
    requires AllDigits(d)
    ensures AllDigits([48] + d) && DigitsValue([48] + d) == DigitsValue(d)
  {
    var s := [48] + d;
    if d == [] {
      assert s == [48] && s[..0] == [];
    } else {
      ZeroInFront(d[..|d| - 1]);
      assert s[..|s| - 1] == [48] + d[..|d| - 1];
    }
  }

  lemma IntegralRefuses(s: seq<Byte>, i: nat)
    requires i < |s| && !(48 <= s[i] <= 57) && (i > 0 || s[i] != 45)
    ensures IntegralOf(s) == None
  {
    var d := Magnitude(s);
    assert !IsDigit(if d == s then d[i] else d[i - 1]);
  }

  /** Powers of ten. */
  lemma {:induction false} ScaledPowers(v: real, d: int, e: int)
    ensures Scaled(v, 0) == v && Scaled(v, 1) == 10.0 * v && Scaled(v, -1) == v / 10.0
    ensures Scaled(Scaled(v, d), e) == Scaled(v, d + e)
    decreases if e < 0 then -e else e
  {
    assert Scaled(v, 1) == 10.0 * Scaled(v, 0);
    if e > 0 {
      ScaledPowers(v, d, e - 1);
      ScaledNext(v, d + e - 1);
    } else if e < 0 {
      ScaledPowers(v, d, e + 1);
      ScaledNext(v, d + e);
    }
  }

  lemma ScaledNext(v: real, e: int)
    ensures Scaled(v, e + 1) == 10.0 * Scaled(v, e)
  {
    if e < 0 { assert Scaled(v, e) == Scaled(v, e + 1) / 10.0; }
  }
}
