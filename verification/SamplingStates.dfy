/** Sampling seen from the 48-bit states (support/testlib.h:760-775, 824-861): both halves of a
    63-bit draw come from one state, so that at most 2^48 of the 2^63 numbers are ever drawn. */
module SamplingStates {
  import opened Bytes
  import opened Randomness

  /** The states from which the 63-bit draw has the residue `v`. */
  ghost function StatesGiving(version: int, n: nat, v: nat): set<nat>
    requires n > 0
  {
    set s: nat | s < TWO_48 && Bits63(version, s) % n == v
  }

  /** Every residue comes from equally many states. */
  ghost predicate EvenlyGiven(version: int, n: nat)
    requires n > 0
  {
    forall v: nat, w: nat | v < n && w < n :: |StatesGiving(version, n, v)| == |StatesGiving(version, n, w)|
  }

  // --------------------------------------------------------------- counting

  /** The numbers whose quotient by `shift` lies in `z`. */
  ghost function Preimage(z: set<nat>, shift: nat, bound: nat): set<nat>
    requires shift > 0
  {
    set y: nat | y < bound && y / shift in z
  }

  lemma PreimageStep(x: nat, rest: set<nat>, shift: nat, m: nat)
    requires shift > 0 && x < m && x !in rest
    ensures Preimage(rest + {x}, shift, m * shift) == Preimage(rest, shift, m * shift) + Interval(x * shift, shift)
    ensures Preimage(rest, shift, m * shift) !! Interval(x * shift, shift)
  {
    var bound := m * shift;
    BlockBelow(x, shift, m);
    var lo := x * shift;
    forall y: nat ensures y in Interval(lo, shift) <==> y < bound && y / shift == x { QuotientIs(y, shift, x); }
    hide Interval;
  }

  lemma OneMore(a: nat, b: nat)
    ensures (a + 1) * b == a * b + b
  {
  }

  lemma {:induction false} PreimageSize(z: set<nat>, shift: nat, m: nat)
    requires shift > 0 && forall x | x in z :: x < m
    ensures |Preimage(z, shift, m * shift)| == |z| * shift
  {
    hide *;
    if z == {} {
      PreimageNone(shift, m * shift);
    } else {
      var x :| x in z;
      var rest := z - {x};
      PreimageSize(rest, shift, m);
      PreimageMore(x, rest, shift, m);
      assert rest + {x} == z;
    }
  }

  lemma PreimageNone(shift: nat, bound: nat)
    requires shift > 0
    ensures |Preimage({}, shift, bound)| == 0
  {
    assert Preimage({}, shift, bound) == {};
  }

  lemma PreimageMore(x: nat, rest: set<nat>, shift: nat, m: nat)
    requires shift > 0 && x < m && x !in rest && |Preimage(rest, shift, m * shift)| == |rest| * shift
    ensures |Preimage(rest + {x}, shift, m * shift)| == |rest + {x}| * shift
  {
    hide *;
    PreimageStep(x, rest, shift, m);
    IntervalSize(x * shift, shift);
    OneMore(|rest|, shift);
  }

  lemma {:induction false} BlockBelow(x: nat, shift: nat, m: nat)
    requires x < m
    ensures x * shift + shift <= m * shift
    decreases m
  {
    OneMore(m - 1, shift);
    if x < m - 1 { BlockBelow(x, shift, m - 1); }
  }

  /** Two sets of states that correspond through two generator steps have the same size. */
  lemma TwoStepsSize(a: set<nat>, b: set<nat>)
    requires forall s | s in a :: s < TWO_48 && NextSeed(NextSeed(s)) in b
    requires forall y | y in b :: y < TWO_48 && PreviousSeed(PreviousSeed(y)) in a
    ensures |a| == |b|
  {
    forall s | s in a ensures PreviousSeed(PreviousSeed(NextSeed(NextSeed(s)))) == s { TwoSteps(s); }
    forall y | y in b ensures NextSeed(NextSeed(PreviousSeed(PreviousSeed(y)))) == y { TwoSteps(y); }
    hide NextSeed, PreviousSeed;
    InjectionSize(a, b, map s | s in a :: NextSeed(NextSeed(s)));
    InjectionSize(b, a, map y | y in b :: PreviousSeed(PreviousSeed(y)));
  }

  lemma TwoSteps(s: nat)
    requires s < TWO_48
    ensures NextSeed(s) < TWO_48 && NextSeed(NextSeed(s)) < TWO_48
    ensures PreviousSeed(s) < TWO_48 && PreviousSeed(PreviousSeed(s)) < TWO_48
    ensures PreviousSeed(PreviousSeed(NextSeed(NextSeed(s)))) == s
    ensures NextSeed(NextSeed(PreviousSeed(PreviousSeed(s)))) == s
    ensures NextSeed(PreviousSeed(PreviousSeed(s))) == PreviousSeed(s)
  {
    StepBijection(s);
    StepBijection(NextSeed(s));
    StepBijection(PreviousSeed(s));
    hide NextSeed, PreviousSeed;
  }

  lemma {:induction false} PowerSum(a: nat, b: nat)
    ensures Pow2(a + b) == Pow2(a) * Pow2(b)
  {
    if a > 0 {
      PowerSum(a - 1, b);
      assert 2 * (Pow2(a - 1) * Pow2(b)) == (2 * Pow2(a - 1)) * Pow2(b);
    }
  }

  lemma {:induction false} PowerPositive(k: nat)
    ensures Pow2(k) > 0
  {
    if k > 0 { PowerPositive(k - 1); }
  }

  lemma PowerValues()
    ensures Pow2(16) == 0x1_0000 && Pow2(17) == TWO_17 && Pow2(31) == TWO_31 && Pow2(32) == TWO_32
    ensures Pow2(33) == 2 * TWO_32 && Pow2(48) == TWO_48
  {
    PowersOfTwo();
    assert Pow2(33) == 2 * Pow2(32);
    PowerSum(16, 16);
    PowerSum(16, 32);
    Sixteen();
    assert Pow2(17) == 2 * Pow2(16);
  }

  lemma Sixteen()
    ensures Pow2(16) == 0x1_0000
  {
    assert Pow2(4) == 16;
    PowerSum(4, 4);
    PowerSum(8, 8);
  }

  // ------------------------------------------------- small powers of two

  lemma ResidueOfLow(hi: nat, low: nat, n: nat, m: nat)
    requires n > 0 && n * m == TWO_32
    ensures (hi * TWO_32 + low) % n == low % n
  {
    var q := low / n;
    assert hi * TWO_32 + low == n * (hi * m + q) + low % n by {
      assert hi * (n * m) == n * (hi * m);
      assert low == n * q + low % n;
      assert n * (hi * m + q) == n * (hi * m) + n * q;
    }
    DivUnique(hi * TWO_32 + low, n, hi * m + q, low % n);
  }

  lemma SmallPowerNumbers(version: int, k: nat)
    requires k <= LowerBits(version)
    ensures Pow2(k) > 0 && RightShift(version) > 0 && Pow2(k) * Pow2(32 - k) == TWO_32
    ensures Pow2(LowerBits(version) - k) * Pow2(k) == Pow2(LowerBits(version))
    ensures Pow2(LowerBits(version)) * RightShift(version) == TWO_48
    ensures Pow2(LowerBits(version) - k) * RightShift(version) == Pow2(48 - k)
  {
    var lower := LowerBits(version);
    PowerValues();
    PowerPositive(k);
    PowerSum(k, 32 - k);
    PowerSum(lower - k, k);
    PowerSum(lower - k, 48 - lower);
    hide Pow2;
  }

  /** For a power of two within the low half every residue comes from 2^48 / n states. */
  lemma SmallPowerEven(version: int, k: nat, v: nat)
    requires k <= LowerBits(version) && v < Pow2(k)
    ensures |StatesGiving(version, Pow2(k), v)| == Pow2(48 - k)
  {
    hide Pow2, RightShift, StatesGiving, Bits63;
    SmallPowerNumbers(version, k);
    SmallPowerCount(version, Pow2(k), Pow2(32 - k), Pow2(LowerBits(version) - k), v);
  }

  lemma SmallPowerCount(version: int, n: nat, m: nat, q: nat, v: nat)
    requires n > 0 && v < n && n * m == TWO_32 && q * n * RightShift(version) == TWO_48
    ensures |StatesGiving(version, n, v)| == q * RightShift(version)
  {
    assert RightShift(version) > 0;
    hide *;
    var shift, top := RightShift(version), q * n;
    var z := Residues(top, n, v);
    ResidueCount(n, q, v);
    ResiduesBelow(top, n, v);
    PreimageSize(z, shift, top);
    SmallPowerStates(version, n, m, v, top);
    TwoStepsSize(StatesGiving(version, n, v), Preimage(z, shift, top * shift));
  }

  lemma ResiduesBelow(top: nat, n: nat, v: nat)
    requires n > 0
    ensures forall x | x in Residues(top, n, v) :: x < top
  {
  }

  lemma SmallPowerStates(version: int, n: nat, m: nat, v: nat, top: nat)
    requires n > 0 && n * m == TWO_32 && top * RightShift(version) == TWO_48
    ensures var a := StatesGiving(version, n, v);
      var b := Preimage(Residues(top, n, v), RightShift(version), top * RightShift(version));
      && (forall s | s in a :: s < TWO_48 && NextSeed(NextSeed(s)) in b)
      && (forall y | y in b :: y < TWO_48 && PreviousSeed(PreviousSeed(y)) in a)
  {
    var shift := RightShift(version);
    var a, b := StatesGiving(version, n, v), Preimage(Residues(top, n, v), shift, top * shift);
    forall s: nat | s < TWO_48 ensures s in a <==> NextSeed(NextSeed(s)) in b {
      TwoSteps(s);
      SmallPowerState(version, n, m, v, top, s);
    }
    forall y | y in b ensures y < TWO_48 && PreviousSeed(PreviousSeed(y)) in a {
      TwoSteps(y);
    }
  }

  lemma SmallPowerState(version: int, n: nat, m: nat, v: nat, top: nat, s: nat)
    requires n > 0 && n * m == TWO_32 && top * RightShift(version) == TWO_48
    requires s < TWO_48 && NextSeed(NextSeed(s)) < TWO_48
    ensures s in StatesGiving(version, n, v) <==>
            NextSeed(NextSeed(s)) in Preimage(Residues(top, n, v), RightShift(version), top * RightShift(version))
  {
    hide NextSeed;
    var shift, y := RightShift(version), NextSeed(NextSeed(s));
    ResidueOfLow(NextSeed(s) / TWO_17, y / shift, n, m);
    QuotientBelow(y, shift, top);
  }

  lemma QuotientBelow(y: nat, shift: nat, top: nat)
    requires shift > 0 && y < top * shift
    ensures y / shift < top
  {
    var q := y / shift;
    assert y == shift * q + y % shift;
    assert q >= top ==> (q - top) * shift >= 0;
  }

  // ------------------------------------------------------- an odd count

  /** Bit `i` of a number. */
  function Bit(x: nat, i: nat): nat {
    PowerPositive(i);
    x / Pow2(i) % 2
  }

  /** The state before `y`, not reduced. */
  function Before(y: nat): nat { INVERSE * y + (TWO_48 - ADDEND) * INVERSE }

  /** How many of the first `n` states have bit `i` set in the state before them. */
  function Ones(i: nat, n: nat): nat {
    if n == 0 then 0 else Ones(i, n - 1) + Bit(Before(n - 1), i)
  }

  lemma QuotientTwice(x: nat, p: nat)
    requires p > 0
    ensures x / (2 * p) == x / p / 2
  {
    var q := x / p / 2;
    var r := x - 2 * p * q;
    assert x == p * (x / p) + x % p;
    assert x / p == 2 * q + x / p % 2;
    assert r == p * (x / p % 2) + x % p by { assert p * (2 * q + x / p % 2) == 2 * p * q + p * (x / p % 2); }
    assert 0 <= r < 2 * p;
    DivUnique(x, 2 * p, q, r);
  }

  lemma CarryParity(w: nat, m: nat)
    ensures (w + (4 * m + 1)) / 2 % 2 == (w / 2 % 2 + w % 2) % 2
  {
    var u, r := w / 2, w % 2;
    assert w + (4 * m + 1) == 2 * (u + 2 * m) + r + 1;
    if r == 0 {
      DivUnique(w + (4 * m + 1), 2, u + 2 * m, 1);
      SameParity(u, m);
    } else {
      DivUnique(w + (4 * m + 1), 2, u + 1 + 2 * m, 0);
      SameParity(u + 1, m);
    }
  }

  lemma SameParity(u: nat, m: nat)
    ensures (u + 2 * m) % 2 == u % 2
  {
  }

  lemma QuotientLater(x: nat, p: nat, d: nat)
    requires p > 0
    ensures (x + p * d) / p == x / p + d
  {
    assert x == p * (x / p) + x % p;
    assert p * (x / p + d) == p * (x / p) + p * d;
    DivUnique(x + p * d, p, x / p + d, x % p);
  }

  /** Adding 2^j carries into bit j + 1 exactly when bit j is set. */
  lemma AddedBit(x: nat, j: nat, m: nat)
    ensures Bit(x + Pow2(j) * (4 * m + 1), j + 1) == (Bit(x, j + 1) + Bit(x, j)) % 2
  {
    hide *;
    var p, d := Pow2(j), 4 * m + 1;
    BitsAre(x, j);
    BitsAre(x + p * d, j);
    QuotientLater(x, p, d);
    CarryParity(x / p, m);
  }

  lemma BitsAre(x: nat, j: nat)
    ensures Pow2(j) > 0 && Bit(x, j) == x / Pow2(j) % 2 && Bit(x, j + 1) == x / Pow2(j) / 2 % 2
  {
    PowerPositive(j);
    QuotientTwice(x, Pow2(j));
    PowerDoubles(j);
  }

  lemma BeforeLater(l: nat, d: nat)
    ensures Before(l + d) == Before(l) + d * (4 * (INVERSE / 4) + 1)
  {
    assert INVERSE == 4 * (INVERSE / 4) + 1;
  }

  lemma OnesLater(j: nat, l: nat)
    ensures Bit(Before(Pow2(j) + l), j + 1) == (Bit(Before(l), j + 1) + Bit(Before(l), j)) % 2
  {
    BeforeLater(l, Pow2(j));
    AddedBit(Before(l), j, INVERSE / 4);
  }

  lemma OnesStep(i: nat, n: nat)
    ensures Ones(i, n + 1) == Ones(i, n) + Bit(Before(n), i) && Ones(i, 0) == 0
  {
  }

  lemma ParityStep(a: nat, b: nat, c: nat, d: nat, e: nat, f: nat, g: nat)
    requires a % 2 == (b + c + d) % 2 && e == (f + g) % 2
    ensures (a + e) % 2 == (b + (c + f) + (d + g)) % 2
  {
  }

  lemma {:induction false} OnesSecondHalf(j: nat, m: nat)
    ensures Ones(j + 1, Pow2(j) + m) % 2 == (Ones(j + 1, Pow2(j)) + Ones(j + 1, m) + Ones(j, m)) % 2
    decreases m
  {
    hide *;
    if m == 0 {
      OnesStep(j + 1, 0);
      OnesStep(j, 0);
    } else {
      var h, l := Pow2(j), m - 1;
      OnesSecondHalf(j, l);
      OnesLater(j, l);
      OnesStep(j + 1, h + l);
      OnesStep(j + 1, l);
      OnesStep(j, l);
      ParityStep(Ones(j + 1, h + l), Ones(j + 1, h), Ones(j + 1, l), Ones(j, l),
                 Bit(Before(h + l), j + 1), Bit(Before(l), j + 1), Bit(Before(l), j));
    }
  }

  lemma FirstBit()
    ensures Ones(0, 1) == 1
  {
    assert Pow2(0) == 1;
    OnesStep(0, 0);
    assert Before(0) % 2 == 1;
  }

  /** Of the first 2^j states an odd number has bit j set in the state before. */
  lemma {:induction false} OnesOdd(j: nat)
    ensures Ones(j, Pow2(j)) % 2 == 1
    decreases j
  {
    hide *;
    if j == 0 {
      FirstBit();
      PowerZero();
    } else {
      OnesOdd(j - 1);
      OnesSecondHalf(j - 1, Pow2(j - 1));
      PowerDoubles(j - 1);
      OddOf(Ones(j, Pow2(j - 1)), Ones(j - 1, Pow2(j - 1)));
    }
  }

  lemma PowerZero()
    ensures Pow2(0) == 1
  {
  }

  lemma PowerDoubles(k: nat)
    ensures Pow2(k + 1) == Pow2(k) + Pow2(k)
  {
  }

  lemma OddOf(a: nat, b: nat)
    requires b % 2 == 1
    ensures (a + a + b) % 2 == 1
  {
  }

  /** The states below `n` with bit 17 set in the state before. */
  ghost function OneStates(n: nat): set<nat> { set y: nat | y < n && Bit(Before(y), 17) == 1 }

  lemma {:induction false} OneStatesSize(n: nat)
    ensures |OneStates(n)| == Ones(17, n)
  {
    hide Before, Bit;
    if n == 0 {
      assert OneStates(0) == {};
    } else {
      OneStatesSize(n - 1);
      BitRange(Before(n - 1), 17);
      if Bit(Before(n - 1), 17) == 1 {
        assert OneStates(n) == OneStates(n - 1) + {n - 1};
      } else {
        assert OneStates(n) == OneStates(n - 1);
      }
    }
  }

  lemma BitRange(x: nat, i: nat)
    ensures Bit(x, i) == 0 || Bit(x, i) == 1
  {
  }

  /** The low bit of the high half, from the second state of a draw. */
  lemma HighBit(y: nat)
    requires y < TWO_48
    ensures PreviousSeed(y) / TWO_17 % 2 == Bit(Before(y), 17)
  {
    PowerValues();
    var x := Before(y);
    assert PreviousSeed(y) == x % TWO_48;
    assert Bit(x, 17) == x / TWO_17 % 2;
    hide Pow2, PreviousSeed, Before;
    HighBitOf(x);
  }

  lemma HighBitOf(x: nat)
    ensures x % TWO_48 / TWO_17 % 2 == x / TWO_17 % 2
  {
    var q, r := x / TWO_48, x % TWO_48;
    assert x == TWO_17 * (0x8000_0000 * q) + r;
    assert r == TWO_17 * (r / TWO_17) + r % TWO_17;
    DivUnique(x, TWO_17, 0x8000_0000 * q + r / TWO_17, r % TWO_17);
  }

  /** With bound 2^33 the result 2^32 + t comes from the states whose second successor lies in
      block `t` and follows a state with bit 17 set. */
  lemma ThirtyThreeStates(version: int, t: nat, s: nat)
    requires version != 0 && t < TWO_32 && s < TWO_48
    ensures s in StatesGiving(version, 2 * TWO_32, TWO_32 + t) <==>
      NextSeed(s) / TWO_17 % 2 == 1 && NextSeed(NextSeed(s)) / 0x1_0000 == t
  {
    TwoSteps(s);
    hide NextSeed;
    var hi, low := NextSeed(s) / TWO_17, NextSeed(NextSeed(s)) / 0x1_0000;
    assert low < TWO_32;
    assert hi * TWO_32 + low == 2 * TWO_32 * (hi / 2) + (hi % 2 * TWO_32 + low);
    DivUnique(hi * TWO_32 + low, 2 * TWO_32, hi / 2, hi % 2 * TWO_32 + low);
  }

  ghost function BlockOnes(t: nat): set<nat> { set y: nat | y < TWO_48 && y / 0x1_0000 == t && Bit(Before(y), 17) == 1 }

  lemma ThirtyThreeSize(version: int, t: nat)
    requires version != 0 && t < TWO_32
    ensures |StatesGiving(version, 2 * TWO_32, TWO_32 + t)| == |BlockOnes(t)|
  {
    var a, b := StatesGiving(version, 2 * TWO_32, TWO_32 + t), BlockOnes(t);
    forall s: nat | s < TWO_48 ensures NextSeed(NextSeed(s)) < TWO_48 && (s in a <==> NextSeed(NextSeed(s)) in b) {
      TwoSteps(s);
      ThirtyThreeStates(version, t, s);
      HighBit(NextSeed(NextSeed(s)));
      StepBijection(NextSeed(s));
    }
    forall y | y in b ensures y < TWO_48 && PreviousSeed(PreviousSeed(y)) in a {
      TwoSteps(y);
    }
    hide StatesGiving, BlockOnes, NextSeed, PreviousSeed;
    TwoStepsSize(a, b);
  }

  /** The failing case of even counts: with bound 2^33 the results 2^32 and 2^32 + 1 come from
      different numbers of states, because the two numbers add up to an odd one. */
  lemma UnevenAt33(version: int)
    requires version != 0
    ensures |StatesGiving(version, 2 * TWO_32, TWO_32)| != |StatesGiving(version, 2 * TWO_32, TWO_32 + 1)|
  {
    hide *;
    Seventeen();
    OneStatesSize(0x2_0000);
    OnesOdd(17);
    BlocksOfOnes();
    ThirtyThreeSize(version, 0);
    ThirtyThreeSize(version, 1);
  }

  lemma Seventeen()
    ensures Pow2(17) == 0x2_0000 && TWO_32 > 1
  {
    PowerValues();
    hide Pow2;
  }

  lemma BlocksOfOnes()
    ensures |BlockOnes(0)| == |OneStates(0x1_0000)|
    ensures |BlockOnes(0)| + |BlockOnes(1)| == |OneStates(0x2_0000)|
  {
    hide Before, Bit;
    assert BlockOnes(0) == OneStates(0x1_0000);
    assert BlockOnes(0) + BlockOnes(1) == OneStates(0x2_0000);
    assert BlockOnes(0) !! BlockOnes(1);
  }

  // ------------------------------------------------------- the exact bound

  /** The states whose draw has a residue below `m`. */
  ghost function StatesBelow(version: int, n: nat, m: nat): set<nat>
    requires n > 0
  {
    set s: nat | s < TWO_48 && Bits63(version, s) % n < m
  }

  lemma {:induction false} EvenTotal(version: int, n: nat, m: nat, c: nat)
    requires n > 0 && m <= n && forall v: nat | v < n :: |StatesGiving(version, n, v)| == c
    ensures |StatesBelow(version, n, m)| == m * c
  {
    hide Bits63;
    if m == 0 {
      assert StatesBelow(version, n, 0) == {};
    } else {
      EvenTotal(version, n, m - 1, c);
      assert StatesBelow(version, n, m) == StatesBelow(version, n, m - 1) + StatesGiving(version, n, m - 1);
      assert StatesBelow(version, n, m - 1) !! StatesGiving(version, n, m - 1);
      OneMore(m - 1, c);
    }
  }

  lemma AllStates(version: int, n: nat)
    requires n > 0
    ensures |StatesBelow(version, n, n)| == TWO_48
  {
    hide Bits63;
    IntervalSize(0, TWO_48);
    assert StatesBelow(version, n, n) == Interval(0, TWO_48);
  }

  /** A divisor of a power of two is one. */
  lemma {:induction false} DivisorOfPower(n: nat, c: nat, k: nat) returns (j: nat)
    requires n * c == Pow2(k)
    ensures j <= k && n == Pow2(j)
    decreases k + n
  {
    PowerPositive(k);
    if n == 1 {
      j := 0;
    } else if n % 2 == 0 {
      assert n * c == 2 * (n / 2 * c);
      assert k > 0;
      j := DivisorOfPower(n / 2, c, k - 1);
      j := j + 1;
    } else {
      OddProduct(n, c);
      assert k > 0;
      assert n * c == 2 * (n * (c / 2)) by { assert c == 2 * (c / 2); }
      j := DivisorOfPower(n, c / 2, k - 1);
    }
  }

  lemma OddTimes(n: nat, c: nat)
    requires n % 2 == 1
    ensures n * c == 2 * (n / 2 * c) + c
  {
    assert n == 2 * (n / 2) + 1;
    assert (2 * (n / 2)) * c == 2 * (n / 2 * c);
  }

  /** An odd number above 1 divides a power of two only with an even cofactor. */
  lemma OddProduct(n: nat, c: nat)
    requires n % 2 == 1 && n > 1 && c > 0 && (n * c == 1 || n * c % 2 == 0)
    ensures c % 2 == 0 && n * c > 1
  {
    assert (n - 1) * c >= c;
    OddTimes(n, c);
  }

  /** Even counts for a bound are even counts for its half. */
  lemma HalfEven(version: int, m: nat)
    requires m > 0 && EvenlyGiven(version, 2 * m)
    ensures EvenlyGiven(version, m)
  {
    hide StatesGiving;
    forall v: nat, w: nat | v < m && w < m
      ensures |StatesGiving(version, m, v)| == |StatesGiving(version, m, w)|
    {
      HalfStates(version, m, v);
      HalfStates(version, m, w);
      EvenPair(version, 2 * m, v, w);
      EvenPair(version, 2 * m, v + m, w + m);
    }
  }

  lemma EvenPair(version: int, n: nat, v: nat, w: nat)
    requires n > 0 && EvenlyGiven(version, n) && v < n && w < n
    ensures |StatesGiving(version, n, v)| == |StatesGiving(version, n, w)|
  {
  }

  lemma HalfStates(version: int, m: nat, v: nat)
    requires v < m
    ensures |StatesGiving(version, m, v)| ==
            |StatesGiving(version, 2 * m, v)| + |StatesGiving(version, 2 * m, v + m)|
  {
    hide Bits63;
    var a, b, c := StatesGiving(version, m, v), StatesGiving(version, 2 * m, v), StatesGiving(version, 2 * m, v + m);
    forall s: nat | s < TWO_48 ensures s in a <==> s in b + c { HalfResidue(Bits63(version, s), m); }
    assert a == b + c && b !! c;
  }

  lemma HalfResidue(x: nat, m: nat)
    requires m > 0
    ensures x % m == if x % (2 * m) < m then x % (2 * m) else x % (2 * m) - m
  {
    var q, r := x / (2 * m), x % (2 * m);
    assert x == 2 * m * q + r && 2 * m * q == m * (2 * q);
    if r < m { DivUnique(x, m, 2 * q, r); } else {
      assert x == m * (2 * q + 1) + (r - m) by { assert m * (2 * q + 1) == m * (2 * q) + m; }
      DivUnique(x, m, 2 * q + 1, r - m);
    }
  }

  lemma {:induction false} SmallerPowerEven(version: int, k: nat, j: nat)
    requires j <= k && Pow2(k) > 0 && Pow2(j) > 0 && EvenlyGiven(version, Pow2(k))
    ensures EvenlyGiven(version, Pow2(j))
    decreases k
  {
    if j < k {
      PowerPositive(k - 1);
      PowerDoubles(k - 1);
      HalfEven(version, Pow2(k - 1));
      SmallerPowerEven(version, k - 1, j);
    }
  }

  /** One bit more than the low half is not evenly given. */
  lemma NextPowerUneven(version: int)
    ensures Pow2(LowerBits(version) + 1) > 0 && !EvenlyGiven(version, Pow2(LowerBits(version) + 1))
  {
    PowerValues();
    hide Pow2, StatesGiving;
    if version != 0 {
      UnevenAt33(version);
    } else {
      Version0Uneven();
    }
  }

  lemma Version0Low(s: nat)
    requires s < TWO_48
    ensures Bits63(0, s) % TWO_32 < TWO_31
  {
    TwoSteps(s);
    hide NextSeed;
    var low := NextSeed(NextSeed(s)) / TWO_17;
    assert low < TWO_31;
    ResidueOfLow(NextSeed(s) / TWO_17, low, TWO_32, 1);
  }

  lemma Version0Uneven()
    ensures !EvenlyGiven(0, TWO_32)
  {
    hide Bits63;
    var v := Bits63(0, 0) % TWO_32;
    assert 0 in StatesGiving(0, TWO_32, v);
    forall s | s in StatesGiving(0, TWO_32, TWO_31) ensures false { Version0Low(s); }
    assert StatesGiving(0, TWO_32, TWO_31) == {};
  }

  /** Every residue of a 63-bit draw comes from equally many of the 2^48 states exactly for
      the powers of two that fit the low half of the draw: up to 2^32, and up to 2^31 in
      version 0. */
  lemma EvenlyGivenExactly(version: int, n: nat)
    requires n > 0
    ensures EvenlyGiven(version, n) <==> exists k: nat :: k <= LowerBits(version) && n == Pow2(k)
  {
    var lower := LowerBits(version);
    if k: nat :| k <= lower && n == Pow2(k) {
      forall v: nat | v < n ensures |StatesGiving(version, n, v)| == Pow2(48 - k) {
        SmallPowerEven(version, k, v);
      }
    }
    if EvenlyGiven(version, n) {
      var k := EvenIsPower(version, n);
      if k > lower {
        NextPowerUneven(version);
        SmallerPowerEven(version, k, lower + 1);
      }
      assert k <= lower && n == Pow2(k);
    }
  }

  lemma EvenIsPower(version: int, n: nat) returns (k: nat)
    requires n > 0 && EvenlyGiven(version, n)
    ensures n == Pow2(k)
  {
    var c := |StatesGiving(version, n, 0)|;
    forall v: nat | v < n ensures |StatesGiving(version, n, v)| == c {
    }
    EvenTotal(version, n, n, c);
    AllStates(version, n);
    PowerValues();
    k := DivisorOfPower(n, c, 48);
  }

  // -------------------------------------------------------- results never given

  ghost function SomeState(a: set<nat>): nat
    requires a != {}
  {
    var s :| s in a; s
  }

  /** Beyond 2^48, in every version, some result is given by no state. */
  lemma SomeResultNeverGiven(version: int, n: nat) returns (v: nat)
    requires n > TWO_48
    ensures v < n && StatesGiving(version, n, v) == {}
  {
    hide Bits63;
    if forall w: nat | w < n :: StatesGiving(version, n, w) != {} {
      var a, b := Interval(0, n), Interval(0, TWO_48);
      IntervalSize(0, n);
      IntervalSize(0, TWO_48);
      var f := map w | w in a :: SomeState(StatesGiving(version, n, w));
      forall w | w in a ensures f[w] in StatesGiving(version, n, w) { assert StatesGiving(version, n, w) != {}; }
      InjectionSize(a, b, f);
      assert false;
    }
    v :| v < n && StatesGiving(version, n, v) == {};
  }

  lemma {:induction false} SeedBelow(seed: nat, j: nat)
    requires seed < TWO_48
    ensures SeedAfter(seed, j) < TWO_48
    decreases j
  {
    if j > 0 {
      StepBijection(seed);
      SeedBelow(NextSeed(seed), j - 1);
    }
  }

  /** The failing input: with bound 2^49, in every version and from every state, `next` never
      returns some result, whichever draw it accepts. */
  lemma LongNeverReturns(version: int) returns (v: nat)
    ensures v < 2 * TWO_48
    ensures forall seed: nat, j: nat | seed < TWO_48 :: Bits63(version, SeedAfter(seed, j)) % (2 * TWO_48) != v
  {
    hide Bits63;
    v := SomeResultNeverGiven(version, 2 * TWO_48);
    forall seed: nat, j: nat | seed < TWO_48 ensures Bits63(version, SeedAfter(seed, j)) % (2 * TWO_48) != v {
      SeedBelow(seed, j);
      assert SeedAfter(seed, j) !in StatesGiving(version, 2 * TWO_48, v);
    }
  }

  // ------------------------------------------------------------- acceptance

  /** The states whose 31-bit draw is accepted and gives the sample `v`. */
  ghost function States31(n: nat, v: nat): set<nat>
    requires n > 0
  {
    set s: nat | s < TWO_48 && Accepts31(n, Raw31(s)) && Sample31(n, Raw31(s)) == v
  }

  /** `next(int)` from the states: for every bound every result comes from equally many
      accepted states. */
  lemma States31Even(n: nat, v: nat)
    requires 0 < n <= INT_MAX && v < n
    ensures |States31(n, v)| == (if LowBit(n) == n then TWO_31 / n else INT_MAX / n) * TWO_17
  {
    Sample31Uniform(n, v);
    hide LowBit, Accepts31, Sample31, NextSeed, PreviousSeed;
    var z := Accepted31(n, v);
    var a, b := States31(n, v), Preimage(z, TWO_17, TWO_31 * TWO_17);
    assert forall x | x in z :: x < TWO_31;
    PreimageSize(z, TWO_17, TWO_31);
    forall s: nat | s < TWO_48 ensures NextSeed(s) < TWO_48 && PreviousSeed(NextSeed(s)) == s { StepBijection(s); }
    forall s: nat | s < TWO_48 ensures PreviousSeed(s) < TWO_48 && NextSeed(PreviousSeed(s)) == s { StepBijection(s); }
    forall s: nat | s < TWO_48 ensures s in a <==> NextSeed(s) in b { QuotientBelow(NextSeed(s), TWO_17, TWO_31); }
    InjectionSize(a, b, map s | s in a :: NextSeed(s));
    InjectionSize(b, a, map y | y in b :: PreviousSeed(y));
  }

  /** The states whose 63-bit draw is rejected. */
  ghost function Rejected(version: int, n: nat): set<nat>
    requires n > 0
  {
    set s: nat | s < TWO_48 && Bits63(version, s) >= Limit63(n)
  }

  /** The states whose 63-bit draw is accepted and gives the sample `v`. */
  ghost function AcceptedGiving(version: int, n: nat, v: nat): set<nat>
    requires n > 0
  {
    set s: nat | s < TWO_48 && Bits63(version, s) < Limit63(n) && Bits63(version, s) % n == v
  }

  ghost function StatesWithHigh(high: nat): set<nat> { set s: nat | s < TWO_48 && Raw31(s) == high }

  /** For a bound up to 2^32 that divides 2^63 at most 2^17 of the 2^48 states are rejected. */
  lemma FewRejected(version: int, k: nat)
    requires k <= 32
    ensures Pow2(k) > 0 && |Rejected(version, Pow2(k))| <= TWO_17
  {
    PowerPositive(k);
    var n := Pow2(k);
    PowerLimit(k);
    DrawsUniform(TWO_31 - 1);
    forall s | s in Rejected(version, n) ensures s in StatesWithHigh(TWO_31 - 1) {
      HalvesInRange(version, s);
      hide NextSeed, Pow2, Limit63;
    }
    SubsetSize(Rejected(version, n), StatesWithHigh(TWO_31 - 1));
  }

  lemma LimitOfDivisor(n: nat, m: nat)
    requires n > 0 && m > 0 && n * m == TWO_63
    ensures Limit63(n) == TWO_63 - n
  {
    assert n * (m - 1) == n * m - n;
    assert LLONG_MAX == n * (m - 1) + (n - 1);
    DivUnique(LLONG_MAX, n, m - 1, n - 1);
    assert (m - 1) * n == n * (m - 1);
  }

  lemma PowerLimit(k: nat)
    requires k <= 32
    ensures Pow2(k) > 0 && Limit63(Pow2(k)) == TWO_63 - Pow2(k) >= TWO_63 - TWO_32
  {
    hide *;
    SixtyThree();
    PowerPositive(k);
    PowerPositive(63 - k);
    PowerPositive(32 - k);
    PowerSum(k, 63 - k);
    PowerSum(k, 32 - k);
    LimitOfDivisor(Pow2(k), Pow2(63 - k));
    NoSmaller(Pow2(k), Pow2(32 - k));
  }

  lemma NoSmaller(a: nat, b: nat)
    requires b > 0
    ensures a * b >= a
  {
  }

  lemma SixtyThree()
    ensures Pow2(63) == TWO_63 && Pow2(32) == TWO_32
  {
    PowersOfTwo();
    PowerSum(31, 32);
    hide Pow2;
  }

  lemma {:induction false} SubsetSize(a: set<nat>, b: set<nat>)
    requires a <= b
    ensures |a| <= |b|
  {
    if a != {} {
      var x :| x in a;
      SubsetSize(a - {x}, b - {x});
    }
  }

  /** Rejection spoils the even counts: with bound 2^32 exactly 2^17 states are rejected, and
      2^48 - 2^17 accepted ones cannot be shared evenly among 2^32 results. */
  lemma AcceptedUnevenAt32(version: int)
    ensures |Rejected(version, TWO_32)| == TWO_17
    ensures exists v: nat, w: nat | v < TWO_32 && w < TWO_32 ::
      |AcceptedGiving(version, TWO_32, v)| != |AcceptedGiving(version, TWO_32, w)|
  {
    RejectedAt32(version);
    var c := |AcceptedGiving(version, TWO_32, 0)|;
    if forall v: nat | v < TWO_32 :: |AcceptedGiving(version, TWO_32, v)| == c {
      AcceptedTotal(version, TWO_32, TWO_32, c);
      AcceptedOrRejected(version, TWO_32);
      NotShared(c);
      assert false;
    }
  }

  lemma NotShared(c: nat)
    ensures TWO_32 * c != TWO_48 - TWO_17
  {
    assert TWO_48 - TWO_17 == TWO_32 * 0xFFFF + (TWO_32 - TWO_17);
    if TWO_32 * c == TWO_48 - TWO_17 { DivUnique(TWO_32 * c, TWO_32, c, 0); assert false; }
  }

  lemma RejectedAt32(version: int)
    ensures |Rejected(version, TWO_32)| == TWO_17
  {
    assert Limit63(TWO_32) == TWO_63 - TWO_32;
    DrawsUniform(TWO_31 - 1);
    forall s: nat | s < TWO_48 ensures s in Rejected(version, TWO_32) <==> s in StatesWithHigh(TWO_31 - 1) {
      HalvesInRange(version, s);
      hide NextSeed, Limit63;
    }
    assert Rejected(version, TWO_32) == StatesWithHigh(TWO_31 - 1);
  }

  ghost function AcceptedBelow(version: int, n: nat, m: nat): set<nat>
    requires n > 0
  {
    set s: nat | s < TWO_48 && Bits63(version, s) < Limit63(n) && Bits63(version, s) % n < m
  }

  lemma {:induction false} AcceptedTotal(version: int, n: nat, m: nat, c: nat)
    requires n > 0 && m <= n && forall v: nat | v < n :: |AcceptedGiving(version, n, v)| == c
    ensures |AcceptedBelow(version, n, m)| == m * c
  {
    hide Bits63, Limit63;
    if m == 0 {
      assert AcceptedBelow(version, n, 0) == {};
    } else {
      AcceptedTotal(version, n, m - 1, c);
      assert AcceptedBelow(version, n, m) == AcceptedBelow(version, n, m - 1) + AcceptedGiving(version, n, m - 1);
      assert AcceptedBelow(version, n, m - 1) !! AcceptedGiving(version, n, m - 1);
      OneMore(m - 1, c);
    }
  }

  lemma AcceptedOrRejected(version: int, n: nat)
    requires n > 0
    ensures |AcceptedBelow(version, n, n)| + |Rejected(version, n)| == TWO_48
  {
    hide Bits63, Limit63;
    IntervalSize(0, TWO_48);
    assert AcceptedBelow(version, n, n) + Rejected(version, n) == Interval(0, TWO_48);
    assert AcceptedBelow(version, n, n) !! Rejected(version, n);
  }
}
