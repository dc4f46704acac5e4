/** The loops behind option values (support/testlib.h:5595-5717): the exponent is read by the
    integer parser and the mantissa checked by the real one, which both start here again. */
module OptionValues {
  import opened Bytes
  import opened Decimal
  import opened PlainDecimals
  import opened Exponential

  lemma {:induction false} MarkSnoc(s: seq<Byte>, i: nat)
    requires i < |s|
    ensures MarkCount(s[..i + 1]) == MarkCount(s[..i]) + if IsMark(s[i]) then 1 else 0
  {
    if i == 0 {
      assert s[..1][1..] == [];
    } else {
      MarkSnoc(s[1..], i - 1);
      assert s[..i + 1][1..] == s[1..][..i] && s[..i][1..] == s[1..][..i - 1];
    }
  }

  lemma {:induction false} MarkPrefix(s: seq<Byte>, i: nat)
    requires i <= |s|
    ensures MarkCount(s[..i]) <= MarkCount(s)
    ensures MarkCount(s[..i]) > 0 ==> MarkAt(s[..i]) == MarkAt(s) < i
    ensures MarkCount(s[..i]) == 0 && i < |s| && IsMark(s[i]) ==> MarkAt(s) == i
  {
    if i > 0 {
      MarkPrefix(s[1..], i - 1);
      assert s[..i][1..] == s[1..][..i - 1];
      MarkFound(s[..i]);
    }
  }

  /** The position of the one mark: its absence is `None`, a second one fails. */
  method FindMark(s: seq<Byte>) returns (ok: bool, pos: Option<nat>)
    ensures ok <==> MarkCount(s) <= 1
    ensures ok ==> pos == if MarkCount(s) == 0 then None else Some(MarkAt(s))
  {
    pos := None;
    for i := 0 to |s|
      invariant MarkCount(s[..i]) == if pos.None? then 0 else 1
      invariant pos.Some? ==> pos.value == MarkAt(s)
    {
      MarkSnoc(s, i);
      MarkPrefix(s, i);
      MarkPrefix(s, i + 1);
      if IsMark(s[i]) {
        if pos.Some? { return false, None; }
        pos := Some(i);
      }
    }
    assert s[..|s|] == s;
    ok := true;
  }

  /** `parseExponentialOptValue` */
  method ParseExponentialOptValue(s: seq<Byte>) returns (r: Outcome<seq<Byte>>)
    ensures r == ParseExponential(s)
    decreases MarkCount(s), 0
  {
    hide MarkCount, MarkAt, IntegralOf, RealOf, Tidied, IsDecimal;
    var ok, pos := FindMark(s);
    if !ok { return Fails; }
    if pos.None? { return Is(s); }
    MarkFound(s);
    var e := s[pos.value + 1..];
    if e != [] && e[0] == PLUS { e := e[1..]; }
    if e == [] || |e| > 20 { return Fails; }
    NoMarks(s);
    assert e == ExponentText(s);
    var ne := OptValueToIntegral(e, false);
    if !ne.Is? { return Fails; }
    var num := s[..pos.value];
    if |num| > 20 { return Fails; }
    if num != [] && num[0] == PLUS { num := num[1..]; }
    assert num == Mantissa(s);
    var checked := OptValueToLongDouble(num);
    if !checked.Is? { return Fails; }
    DecimalOf(num);
    var minus := false;
    ghost var m := num;
    if num[0] == MINUS {
      minus := true;
      num := num[1..];
    }
    assert num == Magnitude(m);
    IntegralRange(e);
    if num == [] && Steps(ne.value) < 0 { return Undefined; }
    num := Shift(num, ne.value);
    num := Tidy(num);
    return Is((if minus then [MINUS] else []) + num);
  }

  lemma DecimalOf(m: seq<Byte>)
    requires RealOf(m).Some?
    ensures m != [] && IsDecimal(Magnitude(m))
  {
  }

  /** Neither side of the mark has one. */
  lemma NoMarks(s: seq<Byte>)
    requires MarkCount(s) == 1
    ensures MarkCount(ExponentText(s)) == 0 && MarkCount(Mantissa(s)) == 0
  {
    MarkFound(s);
    var e, m := s[MarkAt(s) + 1..], s[..MarkAt(s)];
    MarkDropPlus(e);
    MarkDropPlus(m);
  }

  lemma MarkDropPlus(s: seq<Byte>)
    requires MarkCount(s) == 0
    ensures MarkCount(DropPlus(s)) == 0
  {
  }

  /** The loop for a positive exponent. */
  method ShiftUp(text: seq<Byte>, ne: int) returns (num: seq<Byte>)
    requires IsDecimal(text)
    ensures num == if ne > 0 then Shifted(text, ne) else text
  {
    hide IsDecimal, Value, Scaled;
    num := text;
    var i := 0;
    while i < ne
      invariant 0 <= i && (if ne > 0 then i <= ne else i == 0) && num == Shifted(text, i)
    {
      var sep := PointAt(num);
      if sep == |num| {
        num := num + [ZERO];
      } else if sep + 1 == |num| {
        num := num[sep := ZERO];
      } else {
        num := num[sep := num[sep + 1]][sep + 1 := num[sep]];
      }
      i := i + 1;
    }
  }

  /** The loop for a negative exponent. */
  method ShiftDown(text: seq<Byte>, count: int) returns (num: seq<Byte>)
    requires IsDecimal(text) && (count > 0 ==> text != [])
    ensures num == if count > 0 then Shifted(text, -count) else text
  {
    hide IsDecimal, Value, Scaled;
    num := text;
    var i := 0;
    while i < count
      invariant 0 <= i && (if count > 0 then i <= count else i == 0) && num == Shifted(text, -i)
    {
      var sep := PointAt(num);
      if sep == |num| {
        num := num[..|num| - 1] + [POINT] + num[|num| - 1..];
      } else if sep == 0 {
        num := num[..1] + [ZERO] + num[1..];
      } else {
        num := num[sep - 1 := num[sep]][sep := num[sep - 1]];
      }
      i := i + 1;
    }
  }

  /** At most one of the two loops runs; the count of the second is a wrapped negation. */
  method Shift(text: seq<Byte>, ne: int) returns (num: seq<Byte>)
    requires IsDecimal(text) && (Steps(ne) < 0 ==> text != []) && IsInt32(ne)
    ensures num == Shifted(text, Steps(ne))
  {
    num := ShiftUp(text, ne);
    NegatedSteps(ne);
    hide *;
    num := ShiftDown(num, Wrap32(-ne));
    ShiftedZero(text);
  }

  lemma NegatedSteps(ne: int)
    requires IsInt32(ne)
    ensures if ne > 0 then Steps(ne) == ne && Wrap32(-ne) <= 0
            else if Steps(ne) < 0 then Wrap32(-ne) == -Steps(ne) else Steps(ne) == 0 && Wrap32(-ne) <= 0
  {
  }

  lemma ShiftedZero(text: seq<Byte>)
    requires IsDecimal(text)
    ensures Shifted(text, 0) == text
  {
  }

  lemma IntegralRange(s: seq<Byte>)
    ensures IntegralOf(s).Some? ==> IsInt32(IntegralOf(s).value)
  {
  }

  /** The final clean-up. */
  method Tidy(text: seq<Byte>) returns (num: seq<Byte>)
    ensures num == Tidied(text)
  {
    num := text;
    while num != [] && num[0] == ZERO
      invariant DropFrontZeros(num) == DropFrontZeros(text)
      decreases |num|
    {
      num := num[1..];
    }
    ghost var front := num;
    while PointAt(num) < |num| && num[|num| - 1] == ZERO
      invariant DropBackZeros(num) == DropBackZeros(front)
      decreases |num|
    {
      num := num[..|num| - 1];
    }
    if num != [] && num[|num| - 1] == POINT {
      num := num[..|num| - 1];
    }
    if (num != [] && num[0] == POINT) || num == [] {
      num := [ZERO] + num;
    }
  }

  /** `optValueToIntegral<int>`: 32-bit arithmetic, checked against an exact estimate. */
  method OptValueToIntegral(text: seq<Byte>, nonnegative: bool) returns (r: Outcome<int>)
    ensures r == IntegralOpt(text, nonnegative)
    decreases MarkCount(text), 1
  {
    hide ParseExponential, DigitsValue, Wrap32;
    var parsed := ParseExponentialOptValue(text);
    if !parsed.Is? { return if parsed.Fails? then Fails else Undefined; }
    var s := parsed.value;
    if s == [] { return Fails; }
    var value, about, sign, pos := 0, 0, 1, 0;
    if s[0] == MINUS {
      if nonnegative { return Fails; }
      sign := -1;
      pos := 1;
    }
    ghost var d := Magnitude(s);
    assert d == s[pos..];
    WrapZero();
    for i := pos to |s|
      invariant AllDigits(s[pos..i]) && about == DigitsValue(s[pos..i]) && value == Wrap32(about)
    {
      if s[i] < ZERO || s[i] > NINE {
        assert d[i - pos] == s[i];
        return Fails;
      }
      assert s[pos..i + 1] == s[pos..i] + [s[i]];
      DigitsSnoc(s[pos..i], s[i]);
      WrapLaws(about, (s[i] - ZERO) as int, 1);
      value := Wrap32(value * 10 + (s[i] - ZERO) as int);
      about := about * 10 + (s[i] - ZERO) as int;
    }
    assert s[pos..|s|] == d;
    WrapLaws(about, 0, sign);
    WrapLaws(about * sign, 0, 1);
    value := Wrap32(value * sign);
    about := about * sign;
    if value != about { return Fails; }
    r := Is(value);
  }

  lemma WrapZero()
    ensures Wrap32(0) == 0 && DigitsValue([]) == 0
  {
  }

  function Ten(k: nat): (r: real)
    ensures r > 0.0
  {
    if k == 0 then 1.0 else 10.0 * Ten(k - 1)
  }

  lemma {:induction false} FractionSnoc(f: seq<Byte>, c: Byte)
    ensures FractionValue(f + [c]) == FractionValue(f) + Digit(c) / Ten(|f| + 1)
  {
    if f == [] {
      assert f + [c] == [c] && [c][1..] == [];
    } else {
      FractionSnoc(f[1..], c);
      assert (f + [c])[1..] == f[1..] + [c];
      Tenth(Digit(c), Ten(|f|));
    }
  }

  lemma Tenth(x: real, t: real)
    requires t > 0.0
    ensures x / t / 10.0 == x / (10.0 * t)
  {
    assert (x / t / 10.0) * (10.0 * t) == x / t * t == x;
  }

  /** The state of the loop of `optValueToLongDouble` behind the characters `p`. */
  ghost predicate ReadSoFar(p: seq<Byte>, period: bool, mul: real, value: real) {
    && IsDecimal(p) && period == HasPoint(p) && value == Value(p) && mul == Ten(|Fraction(p)|)
  }

  lemma ReadPeriod(p: seq<Byte>, mul: real, value: real)
    requires ReadSoFar(p, false, mul, value)
    ensures ReadSoFar(p + [POINT], true, mul, value)
  {
    PartsJoin(p);
    assert p + [POINT] == Joined(p, []);
    JoinedParts(p, []);
  }

  lemma ReadFractionDigit(p: seq<Byte>, c: Byte, mul: real, value: real)
    requires ReadSoFar(p, true, mul, value) && IsDigit(c)
    ensures ReadSoFar(p + [c], true, mul * 10.0, value + Digit(c) / (mul * 10.0))
  {
    PartsJoin(p);
    var w, f := Whole(p), Fraction(p);
    assert p + [c] == Joined(w, f + [c]);
    FractionSnoc(f, c);
    JoinedParts(w, f + [c]);
    JoinedParts(w, f);
    hide IsDecimal, Value, Digit, FractionValue, HasPoint, Whole, Fraction;
    assert Ten(|f| + 1) == 10.0 * Ten(|f|);
  }

  lemma ReadWholeDigit(p: seq<Byte>, c: Byte, mul: real, value: real)
    requires ReadSoFar(p, false, mul, value) && IsDigit(c)
    ensures ReadSoFar(p + [c], false, mul, value * 10.0 + Digit(c))
  {
    PartsJoin(p);
    WholeSnoc(p, c);
    JoinedParts(p + [c], []);
    JoinedParts(p, []);
    NoFraction(p);
    NoFraction(p + [c]);
    hide IsDecimal, Value, Digit, FractionValue, HasPoint, Whole, Fraction, WholeValue;
  }

  lemma NoFraction(p: seq<Byte>)
    requires !HasPoint(p)
    ensures Fraction(p) == []
  {
  }

  lemma ReadDigit(p: seq<Byte>, c: Byte, period: bool, mul: real, value: real)
    requires ReadSoFar(p, period, mul, value) && IsDigit(c)
    ensures ReadSoFar(p + [c], period, if period then mul * 10.0 else mul,
              if period then value + Digit(c) / (mul * 10.0) else value * 10.0 + Digit(c))
  {
    hide ReadSoFar;
    if period { ReadFractionDigit(p, c, mul, value); } else { ReadWholeDigit(p, c, mul, value); }
  }

  /** A character that stops the loop stands in no decimal. */
  lemma ReadStops(p: seq<Byte>, d: seq<Byte>, period: bool, mul: real, value: real)
    requires ReadSoFar(p, period, mul, value) && p < d
    requires !IsDigit(d[|p|]) && (d[|p|] == POINT ==> period)
    ensures !IsDecimal(d)
  {
    PointOfPrefix(p, d);
    PartsJoin(p);
    if period {
      assert Fraction(d)[|p| - PointAt(d) - 1] == d[|p|];
    } else {
      assert Whole(d)[|p|] == d[|p|];
    }
  }

  lemma {:induction false} PointOfPrefix(p: seq<Byte>, d: seq<Byte>)
    requires p < d
    ensures HasPoint(p) ==> PointAt(d) == PointAt(p)
    ensures !HasPoint(p) ==> PointAt(d) >= |p| && (d[|p|] != POINT ==> PointAt(d) > |p|)
  {
    if p != [] && p[0] != POINT { PointOfPrefix(p[1..], d[1..]); }
  }

  /** `optValueToLongDouble`, in exact arithmetic. */
  method OptValueToLongDouble(text: seq<Byte>) returns (r: Outcome<real>)
    ensures r == RealOpt(text)
    decreases MarkCount(text), 1
  {
    hide ParseExponential, ReadSoFar, IsDecimal;
    var parsed := ParseExponentialOptValue(text);
    if !parsed.Is? { return if parsed.Fails? then Fails else Undefined; }
    var s := parsed.value;
    if s == [] { return Fails; }
    var value, sign, pos := 0.0, 1.0, 0;
    if s[0] == MINUS {
      sign := -1.0;
      pos := 1;
    }
    ghost var d := Magnitude(s);
    assert d == s[pos..];
    var period, mul := false, 1.0;
    assert s[pos..pos] == [];
    ReadNothing();
    for i := pos to |s|
      invariant ReadSoFar(s[pos..i], period, mul, value)
    {
      ghost var p := s[pos..i];
      assert p == d[..i - pos];
      assert s[pos..i + 1] == p + [s[i]];
      if s[i] == POINT {
        if period {
          ReadStops(p, d, period, mul, value);
          return Fails;
        } else {
          ReadPeriod(p, mul, value);
          period := true;
          continue;
        }
      }
      if s[i] < ZERO || s[i] > NINE {
        ReadStops(p, d, period, mul, value);
        return Fails;
      }
      ReadDigit(p, s[i], period, mul, value);
      if period {
        mul := mul * 10.0;
      }
      if period {
        value := value + Digit(s[i]) / mul;
      } else {
        value := value * 10.0 + Digit(s[i]);
      }
    }
    assert s[pos..|s|] == d;
    ReadAll(d, period, mul, value);
    r := Is(value * sign);
  }

  lemma ReadNothing()
    ensures ReadSoFar([], false, 1.0, 0.0)
  {
  }

  lemma ReadAll(d: seq<Byte>, period: bool, mul: real, value: real)
    requires ReadSoFar(d, period, mul, value)
    ensures IsDecimal(d) && value == Value(d)
  {
  }
}
