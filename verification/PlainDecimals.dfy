/** Decimal numbers with a point as texts: their exact value, shifting the point by one
    digit, and their normal form (the string steps of support/testlib.h:5624-5653). */
module PlainDecimals {
  import opened Bytes
  import opened Decimal

  const POINT: Byte := 46

  /** The index of the first point, or the length (`find`). */
  function PointAt(s: seq<Byte>): (r: nat)
    ensures r <= |s| && (r < |s| ==> s[r] == POINT)
    ensures forall i | 0 <= i < r :: s[i] != POINT
  {
    if s == [] || s[0] == POINT then 0 else 1 + PointAt(s[1..])
  }

  predicate HasPoint(s: seq<Byte>) { PointAt(s) < |s| }

  function Whole(s: seq<Byte>): seq<Byte> { s[..PointAt(s)] }

  function Fraction(s: seq<Byte>): seq<Byte> {
    if HasPoint(s) then s[PointAt(s) + 1..] else []
  }

  /** Digits, with at most one point anywhere. */
  predicate IsDecimal(s: seq<Byte>) { AllDigits(Whole(s)) && AllDigits(Fraction(s)) }

  function Digit(c: Byte): real { c as int as real - 48.0 }

  /** The value of the digits behind a point. */
  function FractionValue(f: seq<Byte>): real {
    if f == [] then 0.0 else (Digit(f[0]) + FractionValue(f[1..])) / 10.0
  }

  function WholeValue(w: seq<Byte>): real
    requires AllDigits(w)
  {
    DigitsValue(w) as real
  }

  /** The exact value; without any digit it is 0. */
  function Value(s: seq<Byte>): real
    requires IsDecimal(s)
  {
    WholeValue(Whole(s)) + FractionValue(Fraction(s))
  }

  /** `v` times ten to the `e`. */
  function Scaled(v: real, e: int): real
    decreases if e < 0 then -e else e
  {
    if e == 0 then v else if e > 0 then 10.0 * Scaled(v, e - 1) else Scaled(v, e + 1) / 10.0
  }

  // ---------------------------------------------------------------- parts

  function Joined(w: seq<Byte>, f: seq<Byte>): seq<Byte> { w + [POINT] + f }

  lemma {:induction false} PointBehind(w: seq<Byte>, f: seq<Byte>)
    requires AllDigits(w)
    ensures PointAt(Joined(w, f)) == |w| && PointAt(w) == |w|
  {
    if w != [] {
      PointBehind(w[1..], f);
      assert Joined(w, f)[1..] == Joined(w[1..], f);
    }
  }

  lemma JoinedParts(w: seq<Byte>, f: seq<Byte>)
    requires AllDigits(w) && AllDigits(f)
    ensures Whole(Joined(w, f)) == w && Fraction(Joined(w, f)) == f && HasPoint(Joined(w, f))
    ensures IsDecimal(Joined(w, f)) && Value(Joined(w, f)) == WholeValue(w) + FractionValue(f)
    ensures !HasPoint(w) && IsDecimal(w) && Value(w) == WholeValue(w)
  {
    PointBehind(w, f);
    assert Joined(w, f)[|w| + 1..] == f;
    assert Whole(w) == w;
  }

  lemma PartsJoin(s: seq<Byte>)
    requires IsDecimal(s)
    ensures if HasPoint(s) then s == Joined(Whole(s), Fraction(s)) else s == Whole(s)
    ensures AllDigits(Whole(s)) && AllDigits(Fraction(s))
  {
  }

  lemma WholeSnoc(w: seq<Byte>, c: Byte)
    requires AllDigits(w) && IsDigit(c)
    ensures WholeValue(w + [c]) == 10.0 * WholeValue(w) + Digit(c)
  {
    assert (w + [c])[..|w|] == w;
  }

  lemma FractionCons(c: Byte, f: seq<Byte>)
    ensures FractionValue([c] + f) == (Digit(c) + FractionValue(f)) / 10.0
  {
    assert ([c] + f)[1..] == f;
  }

  // ------------------------------------------------------------- shifting

  /** The point one digit to the right. */
  function Up(s: seq<Byte>): seq<Byte> {
    var sep := PointAt(s);
    if sep == |s| then s + [ZERO]
    else if sep + 1 == |s| then s[sep := ZERO]
    else s[sep := s[sep + 1]][sep + 1 := s[sep]]
  }

  /** The point one digit to the left. */
  function Down(s: seq<Byte>): seq<Byte>
    requires s != []
  {
    var sep := PointAt(s);
    if sep == |s| then s[..|s| - 1] + [POINT] + s[|s| - 1..]
    else if sep == 0 then s[..1] + [ZERO] + s[1..]
    else s[sep - 1 := s[sep]][sep := s[sep - 1]]
  }

  lemma UpValue(s: seq<Byte>)
    requires IsDecimal(s)
    ensures Up(s) != [] && IsDecimal(Up(s)) && Value(Up(s)) == 10.0 * Value(s)
  {
    PartsJoin(s);
    var w, f := Whole(s), Fraction(s);
    if !HasPoint(s) {
      WholeSnoc(w, ZERO);
      JoinedParts(w, []);
      JoinedParts(w + [ZERO], []);
    } else if f == [] {
      assert Up(s) == w + [ZERO];
      WholeSnoc(w, ZERO);
      JoinedParts(w + [ZERO], []);
    } else {
      assert Up(s) == Joined(w + [f[0]], f[1..]);
      WholeSnoc(w, f[0]);
      JoinedParts(w + [f[0]], f[1..]);
    }
  }

  lemma DownValue(s: seq<Byte>)
    requires IsDecimal(s) && s != []
    ensures Down(s) != [] && IsDecimal(Down(s)) && Value(Down(s)) == Value(s) / 10.0
  {
    PartsJoin(s);
    var w, f := Whole(s), Fraction(s);
    if w != [] {
      var v, c := w[..|w| - 1], w[|w| - 1];
      assert w == v + [c];
      assert Down(s) == Joined(v, [c] + f);
      WholeSnoc(v, c);
      FractionCons(c, f);
      JoinedParts(v, [c] + f);
    } else {
      assert Down(s) == Joined(w, [ZERO] + f);
      FractionCons(ZERO, f);
      JoinedParts(w, [ZERO] + f);
    }
  }

  /** `e` steps up, or `-e` steps down. */
  function Shifted(s: seq<Byte>, e: int): (r: seq<Byte>)
    requires IsDecimal(s) && (e < 0 ==> s != [])
    ensures IsDecimal(r) && Value(r) == Scaled(Value(s), e) && (s != [] ==> r != [])
    decreases if e < 0 then -e else e
  {
    if e == 0 then s
    else if e > 0 then
      UpValue(Shifted(s, e - 1));
      Up(Shifted(s, e - 1))
    else
      DownValue(Shifted(s, e + 1));
      Down(Shifted(s, e + 1))
  }

  // ---------------------------------------------------------- normal form

  /** A non-empty whole part without a redundant leading zero, and behind a point a
      non-empty fraction that does not end in a zero. */
  predicate Normal(s: seq<Byte>) {
    && IsDecimal(s) && Whole(s) != [] && (|Whole(s)| > 1 ==> s[0] != ZERO)
    && (HasPoint(s) ==> s[|s| - 1] != ZERO && s[|s| - 1] != POINT)
  }

  function DropFrontZeros(s: seq<Byte>): seq<Byte> {
    if s != [] && s[0] == ZERO then DropFrontZeros(s[1..]) else s
  }

  function DropBackZeros(s: seq<Byte>): seq<Byte> {
    if HasPoint(s) && s[|s| - 1] == ZERO then DropBackZeros(s[..|s| - 1]) else s
  }

  function DropBackPoint(s: seq<Byte>): seq<Byte> {
    if s != [] && s[|s| - 1] == POINT then s[..|s| - 1] else s
  }

  function AddFrontZero(s: seq<Byte>): seq<Byte> {
    if s == [] || s[0] == POINT then [ZERO] + s else s
  }

  function Tidied(s: seq<Byte>): seq<Byte> {
    AddFrontZero(DropBackPoint(DropBackZeros(DropFrontZeros(s))))
  }

  lemma {:induction false} WholeCons(w: seq<Byte>)
    requires AllDigits(w)
    ensures AllDigits([ZERO] + w) && DigitsValue([ZERO] + w) == DigitsValue(w)
  {
    if w == [] {
      assert [ZERO] + w == [ZERO] && [ZERO][..0] == [];
    } else {
      WholeCons(w[..|w| - 1]);
      assert ([ZERO] + w)[..|w|] == [ZERO] + w[..|w| - 1];
    }
  }

  lemma {:induction false} FractionSnocZero(f: seq<Byte>)
    ensures FractionValue(f + [ZERO]) == FractionValue(f)
  {
    if f == [] {
      assert f + [ZERO] == [ZERO] && [ZERO][1..] == [];
    } else {
      FractionSnocZero(f[1..]);
      assert (f + [ZERO])[1..] == f[1..] + [ZERO];
    }
  }

  lemma FrontZero(s: seq<Byte>)
    requires IsDecimal(s) && s != [] && s[0] == ZERO
    ensures IsDecimal(s[1..]) && Value(s[1..]) == Value(s) && HasPoint(s[1..]) == HasPoint(s)
  {
    PartsJoin(s);
    var w, f := Whole(s), Fraction(s);
    assert w != [] && w == [ZERO] + w[1..];
    WholeCons(w[1..]);
    JoinedParts(w[1..], f);
    assert HasPoint(s) ==> s[1..] == Joined(w[1..], f);
  }

  lemma BackZero(s: seq<Byte>)
    requires IsDecimal(s) && HasPoint(s) && s[|s| - 1] == ZERO
    ensures var r := s[..|s| - 1]; IsDecimal(r) && Value(r) == Value(s) && HasPoint(r) && Whole(r) == Whole(s)
  {
    PartsJoin(s);
    var w, f := Whole(s), Fraction(s);
    assert f != [];
    var g := f[..|f| - 1];
    assert f == g + [ZERO];
    FractionSnocZero(g);
    JoinedParts(w, g);
    assert s[..|s| - 1] == Joined(w, g);
  }

  lemma {:induction false} FrontDone(s: seq<Byte>)
    requires IsDecimal(s)
    ensures var r := DropFrontZeros(s);
      IsDecimal(r) && Value(r) == Value(s) && (r != [] ==> r[0] != ZERO)
  {
    if s != [] && s[0] == ZERO {
      FrontZero(s);
      FrontDone(s[1..]);
    }
  }

  lemma {:induction false} BackDone(s: seq<Byte>)
    requires IsDecimal(s)
    ensures var r := DropBackZeros(s);
      IsDecimal(r) && Value(r) == Value(s) && HasPoint(r) == HasPoint(s) && Whole(r) == Whole(s)
      && (HasPoint(r) ==> r[|r| - 1] != ZERO)
  {
    if HasPoint(s) && s[|s| - 1] == ZERO {
      BackZero(s);
      BackDone(s[..|s| - 1]);
    }
  }

  lemma BackPointDone(s: seq<Byte>)
    requires IsDecimal(s) && (HasPoint(s) ==> s[|s| - 1] != ZERO)
    ensures var r := DropBackPoint(s);
      IsDecimal(r) && Value(r) == Value(s) && Whole(r) == Whole(s)
      && (HasPoint(r) ==> r[|r| - 1] != ZERO && r[|r| - 1] != POINT)
  {
    PartsJoin(s);
    var w, f := Whole(s), Fraction(s);
    if s != [] && s[|s| - 1] == POINT {
      assert f == [] && s[..|s| - 1] == w;
      JoinedParts(w, []);
    }
  }

  lemma ZeroBefore(f: seq<Byte>)
    requires AllDigits(f)
    ensures var s := Joined([], f); var r := Joined([ZERO], f);
      r == [ZERO] + s && IsDecimal(r) && Whole(r) == [ZERO] && HasPoint(r) && IsDecimal(s) && Value(r) == Value(s)
  {
    WholeCons([]);
    JoinedParts([ZERO], f);
    JoinedParts([], f);
    hide *;
    assert [ZERO] + [] == [ZERO];
    assert Joined([ZERO], f) == [ZERO] + Joined([], f) by { JoinedFront(f); }
    assert WholeValue([ZERO]) == WholeValue([]) by { ZeroWhole(); }
  }

  lemma JoinedFront(f: seq<Byte>)
    ensures Joined([ZERO], f) == [ZERO] + Joined([], f)
  {
  }

  lemma ZeroWhole()
    ensures AllDigits([]) && AllDigits([ZERO]) && WholeValue([ZERO]) == WholeValue([]) == 0.0
    ensures IsDecimal([ZERO]) && IsDecimal([]) && Whole([ZERO]) == [ZERO] && !HasPoint([ZERO])
    ensures Value([ZERO]) == Value([]) == 0.0
  {
    assert [ZERO][..0] == [];
    assert PointAt([ZERO][1..]) == 0;
  }

  lemma FrontZeroDone(s: seq<Byte>)
    requires IsDecimal(s) && (HasPoint(s) ==> s[|s| - 1] != ZERO && s[|s| - 1] != POINT)
    requires Whole(s) != [] ==> s[0] != ZERO
    ensures Normal(AddFrontZero(s)) && Value(AddFrontZero(s)) == Value(s)
  {
    PartsJoin(s);
    hide Value;
    if s == [] {
      ZeroWhole();
      assert AddFrontZero(s) == [ZERO];
    } else if s[0] == POINT {
      assert Whole(s) == [];
      ZeroBefore(Fraction(s));
    }
  }

  lemma SameFront(a: seq<Byte>, c: seq<Byte>)
    requires Whole(c) == Whole(a) && (a != [] ==> a[0] != ZERO)
    ensures Whole(c) != [] ==> c[0] != ZERO
  {
    if Whole(c) != [] { assert c[0] == Whole(c)[0] && a[0] == Whole(a)[0]; }
  }

  lemma TidiedSteps(s: seq<Byte>)
    ensures Tidied(s) == AddFrontZero(DropBackPoint(DropBackZeros(DropFrontZeros(s))))
  {
  }

  /** Tidying keeps the value and gives a normal form. */
  lemma TidiedNormal(s: seq<Byte>)
    requires IsDecimal(s)
    ensures Normal(Tidied(s)) && Value(Tidied(s)) == Value(s)
  {
    var a := DropFrontZeros(s);
    var b := DropBackZeros(a);
    var c := DropBackPoint(b);
    FrontDone(s);
    BackDone(a);
    BackPointDone(b);
    SameFront(a, c);
    hide *;
    FrontZeroDone(c);
    assert Tidied(s) == AddFrontZero(c) by { TidiedSteps(s); }
  }

  // ------------------------------------------------- normal forms are unique

  lemma {:induction false} FractionBounds(f: seq<Byte>)
    requires AllDigits(f)
    ensures 0.0 <= FractionValue(f) < 1.0
    ensures f != [] && f[|f| - 1] != ZERO ==> FractionValue(f) > 0.0
  {
    if f != [] { FractionBounds(f[1..]); }
  }

  lemma {:induction false} FractionUnique(f: seq<Byte>, g: seq<Byte>)
    requires AllDigits(f) && (f != [] ==> f[|f| - 1] != ZERO)
    requires AllDigits(g) && (g != [] ==> g[|g| - 1] != ZERO)
    requires FractionValue(f) == FractionValue(g)
    ensures f == g
  {
    FractionBounds(f);
    FractionBounds(g);
    if f != [] && g != [] {
      FractionBounds(f[1..]);
      FractionBounds(g[1..]);
      var d, e := (f[0] - ZERO) as int, (g[0] - ZERO) as int;
      assert Digit(f[0]) == d as real && Digit(g[0]) == e as real;
      assert -1.0 < d as real - e as real < 1.0;
      assert d == e;
      FractionUnique(f[1..], g[1..]);
      assert f == [f[0]] + f[1..] && g == [g[0]] + g[1..];
    }
  }

  lemma SameSplit(m: nat, n: nat, x: real, y: real)
    requires 0.0 <= x < 1.0 && 0.0 <= y < 1.0 && m as real + x == n as real + y
    ensures m == n && x == y
  {
    assert -1.0 < m as real - n as real < 1.0;
  }

  /** A value has one normal form. */
  lemma NormalUnique(a: seq<Byte>, b: seq<Byte>)
    requires Normal(a) && Normal(b) && Value(a) == Value(b)
    ensures a == b
  {
    NormalParts(a);
    NormalParts(b);
    hide *;
    PartsUnique(Whole(a), Fraction(a), Whole(b), Fraction(b));
  }

  lemma NormalParts(a: seq<Byte>)
    requires Normal(a)
    ensures AllDigits(Whole(a)) && AllDigits(Fraction(a))
    ensures Whole(a) != [] && (|Whole(a)| > 1 ==> Whole(a)[0] != ZERO)
    ensures Fraction(a) != [] ==> Fraction(a)[|Fraction(a)| - 1] != ZERO
    ensures Value(a) == WholeValue(Whole(a)) + FractionValue(Fraction(a))
    ensures a == if Fraction(a) != [] then Joined(Whole(a), Fraction(a)) else Whole(a)
  {
    PartsJoin(a);
    PointIfFraction(a);
  }

  lemma PartsUnique(w: seq<Byte>, f: seq<Byte>, v: seq<Byte>, g: seq<Byte>)
    requires AllDigits(w) && AllDigits(v) && w != [] && v != []
    requires (|w| > 1 ==> w[0] != ZERO) && (|v| > 1 ==> v[0] != ZERO)
    requires AllDigits(f) && (f != [] ==> f[|f| - 1] != ZERO)
    requires AllDigits(g) && (g != [] ==> g[|g| - 1] != ZERO)
    requires WholeValue(w) + FractionValue(f) == WholeValue(v) + FractionValue(g)
    ensures w == v && f == g
  {
    hide FractionValue, DigitsValue, NatText;
    FractionBounds(f);
    FractionBounds(g);
    SameSplit(DigitsValue(w), DigitsValue(v), FractionValue(f), FractionValue(g));
    NatTextUnique(w);
    NatTextUnique(v);
    FractionUnique(f, g);
  }

  lemma PointIfFraction(a: seq<Byte>)
    requires Normal(a)
    ensures HasPoint(a) <==> Fraction(a) != []
  {
  }
}
