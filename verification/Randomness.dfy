/** The 48-bit generator and its sampling (support/testlib.h:752-861). */
module Randomness {
  import opened Bytes

  const MULTIPLIER: nat := 0x5DEECE66D
  const ADDEND: nat := 0xB
  const TWO_17: nat := 0x2_0000
  const TWO_31: nat := 0x8000_0000
  const TWO_32: nat := 0x1_0000_0000
  const TWO_48: nat := 0x1_0000_0000_0000
  const TWO_63: nat := 0x8000_0000_0000_0000
  const TWO_64: nat := 0x1_0000_0000_0000_0000
  const LLONG_MAX: nat := 0x7FFF_FFFF_FFFF_FFFF

  // -------------------------------------------------------------- generator

  /** Unsigned 64-bit arithmetic, then the mask. */
  function NextSeed(seed: nat): nat {
    (seed * MULTIPLIER + ADDEND) % TWO_64 % TWO_48
  }

  const INVERSE: nat := 0xDFE05BCB1365

  function PreviousSeed(seed: nat): nat {
    (seed + TWO_48 - ADDEND) * INVERSE % TWO_48
  }

  lemma MaskDrops(x: nat)
    ensures x % TWO_64 % TWO_48 == x % TWO_48
  {
    assert TWO_64 == TWO_48 * 0x1_0000;
    assert x == (x / TWO_64) * TWO_64 + x % TWO_64;
  }

  /** The step is a bijection on the 48-bit states. */
  lemma StepBijection(x: nat)
    requires x < TWO_48
    ensures NextSeed(x) < TWO_48 && PreviousSeed(NextSeed(x)) == x
    ensures PreviousSeed(x) < TWO_48 && NextSeed(PreviousSeed(x)) == x
  {
    MaskDrops(x * MULTIPLIER + ADDEND);
    var k := MULTIPLIER * INVERSE / TWO_48;
    assert MULTIPLIER * INVERSE == 1 + k * TWO_48;
    var q := (x * MULTIPLIER + ADDEND) / TWO_48;
    assert (NextSeed(x) + TWO_48 - ADDEND) * INVERSE == x + TWO_48 * (x * k + INVERSE - q * INVERSE);
    ModPlus(x, x * k + INVERSE - q * INVERSE);
    var y := PreviousSeed(x);
    var p := (x + TWO_48 - ADDEND) * INVERSE / TWO_48;
    assert y * MULTIPLIER + ADDEND == x + TWO_48 * (1 + (x + TWO_48 - ADDEND) * k - p * MULTIPLIER);
    ModPlus(x, 1 + (x + TWO_48 - ADDEND) * k - p * MULTIPLIER);
    MaskDrops(y * MULTIPLIER + ADDEND);
  }

  /** The step in numbers: the 48-bit state that 25214903917 times the old one plus 11 leaves. */
  lemma StepInNumbers(x: nat)
    ensures NextSeed(x) < 281474976710656
    ensures (25214903917 * x + 11 - NextSeed(x)) % 281474976710656 == 0
  {
    var y := x * MULTIPLIER + ADDEND;
    MaskDrops(y);
    assert y == 25214903917 * x + 11 && NextSeed(x) == y % TWO_48;
    hide NextSeed;
    WholeRounds(y);
  }

  lemma WholeRounds(y: nat)
    ensures (y - y % TWO_48) % TWO_48 == 0
  {
  }

  lemma {:induction false} ModPlus(x: nat, t: int)
    requires x < TWO_48 && x + TWO_48 * t >= 0
    ensures (x + TWO_48 * t) % TWO_48 == x
  {
  }

  // --------------------------------------------------------------- counting

  predicate Within(b: nat, lo: nat, n: nat) { lo <= b < lo + n }

  ghost function Interval(lo: nat, n: nat): set<nat> {
    set b: nat | b < lo + n && Within(b, lo, n)
  }

  lemma {:induction false} IntervalSize(lo: nat, n: nat)
    ensures |Interval(lo, n)| == n
  {
    if n > 0 {
      IntervalSize(lo, n - 1);
      assert Interval(lo, n) == Interval(lo, n - 1) + {lo + n - 1};
    } else {
      assert Interval(lo, n) == {};
    }
  }

  /** A set mapped one-to-one into another is no larger. */
  lemma {:induction false} InjectionSize(a: set<nat>, b: set<nat>, f: map<nat, nat>)
    requires f.Keys == a && f.Values <= b
    requires forall x, y | x in a && y in a && f[x] == f[y] :: x == y
    ensures |a| <= |b|
  {
    if a != {} {
      var x :| x in a;
      InjectionSize(a - {x}, b - {f[x]}, f - {x});
    }
  }

  function Raw31(seed: nat): nat { NextSeed(seed) / TWO_17 }

  /** Every 31-bit draw comes from exactly 2^17 of the 2^48 states. */
  lemma DrawsUniform(r: nat)
    requires r < TWO_31
    ensures |set seed: nat | seed < TWO_48 && Raw31(seed) == r| == TWO_17
  {
    var a := set seed: nat | seed < TWO_48 && Raw31(seed) == r;
    var b := Interval(r * TWO_17, TWO_17);
    IntervalSize(r * TWO_17, TWO_17);
    forall x | x in a ensures NextSeed(x) in b && PreviousSeed(NextSeed(x)) == x { StepBijection(x); }
    InjectionSize(a, b, map x | x in a :: NextSeed(x));
    forall y: nat | y in b ensures PreviousSeed(y) in a && NextSeed(PreviousSeed(y)) == y { StepBijection(y); }
    InjectionSize(b, a, map y | y in b :: PreviousSeed(y));
  }

  // --------------------------------------------------------------- sampling

  /** `n & -n`: the lowest set bit. */
  function LowBit(n: nat): nat
    requires n > 0
  {
    if n % 2 == 1 then 1 else 2 * LowBit(n / 2)
  }

  predicate Accepts31(n: nat, bits: nat)
    requires n > 0
  {
    LowBit(n) == n || bits < INT_MAX / n * n
  }

  function Sample31(n: nat, bits: nat): nat
    requires n > 0
  {
    if LowBit(n) == n then n * bits / TWO_31 else bits % n
  }

  function Limit63(n: nat): nat
    requires n > 0
  {
    LLONG_MAX / n * n
  }

  /** A number equal to its lowest set bit, and at most 2^k, divides 2^k. */
  lemma {:induction false} LowBitDivides(n: nat, k: nat)
    requires n > 0 && LowBit(n) == n && n <= Pow2(k)
    ensures Pow2(k) % n == 0 && n * (Pow2(k) / n) == Pow2(k)
    decreases k
  {
    if n % 2 == 1 {
      assert n == 1;
    } else {
      var m := n / 2;
      assert LowBit(m) == m;
      LowBitDivides(m, k - 1);
      var q := Pow2(k - 1) / m;
      assert Pow2(k) == 2 * (m * q) == n * q by { assert 2 * (m * q) == (2 * m) * q; }
      DivExact(n, q);
    }
  }

  function Pow2(k: nat): nat { if k == 0 then 1 else 2 * Pow2(k - 1) }

  lemma DivExact(n: nat, q: nat)
    requires n > 0
    ensures (n * q) / n == q && (n * q) % n == 0
  {
    DivUnique(n * q, n, q, 0);
  }

  lemma ScaledDivision(n: nat, q: nat, b: nat)
    requires n > 0 && q > 0 && n * q == TWO_31
    ensures n * b / TWO_31 == b / q
  {
    var t, r := b / q, b % q;
    assert n * b == TWO_31 * t + n * r by {
      assert b == q * t + r;
      assert n * (q * t + r) == (n * q) * t + n * r;
    }
    assert n * r < n * q;
    DivUnique(n * b, TWO_31, t, n * r);
  }

  ghost predicate PowerOfTwo(n: nat) { exists k: nat :: n == Pow2(k) }

  /** The test `(n & -n) == n` finds exactly the powers of two. */
  lemma {:induction false} LowBitExactly(n: nat)
    requires n > 0
    ensures LowBit(n) == n <==> PowerOfTwo(n)
  {
    if n % 2 == 1 {
      assert Pow2(0) == 1;
      if PowerOfTwo(n) {
        var k: nat :| n == Pow2(k);
        assert k == 0;
      }
    } else {
      LowBitExactly(n / 2);
      if PowerOfTwo(n / 2) {
        var k: nat :| n / 2 == Pow2(k);
        assert n == Pow2(k + 1);
      }
      if PowerOfTwo(n) {
        var k: nat :| n == Pow2(k);
        assert k > 0 && n / 2 == Pow2(k - 1);
      }
    }
  }

  /** A draw is accepted for any other bound exactly when the whole block of `n` numbers that
      it falls in lies below the largest int. */
  lemma AcceptedExactly(n: nat, bits: nat)
    requires n > 0 && !PowerOfTwo(n)
    ensures Accepts31(n, bits) <==> bits - bits % n + n <= 0x7FFF_FFFF
  {
    LowBitExactly(n);
    hide LowBit, PowerOfTwo;
    BlockFits(n, bits, INT_MAX);
  }

  /** The block of `n` numbers that `b` falls in lies below `m` if and only if `b` lies below
      the last multiple of `n` up to `m`. */
  lemma BlockFits(n: nat, b: nat, m: nat)
    requires n > 0
    ensures b < m / n * n <==> b - b % n + n <= m
  {
    var q, p, s, t := m / n, b / n, m % n, b % n;
    DivParts(b, n);
    DivParts(m, n);
    NextMultiple(p, n);
    NextMultiple(q, n);
    if p < q {
      MulOrder(p + 1, q, n);
    } else {
      MulOrder(q, p, n);
    }
  }

  lemma DivParts(b: nat, n: nat)
    requires n > 0
    ensures b == b / n * n + b % n && b % n < n
  {
  }

  lemma NextMultiple(p: nat, n: nat)
    ensures (p + 1) * n == p * n + n
  {
  }

  lemma MulOrder(a: nat, b: nat, n: nat)
    requires a <= b
    ensures a * n <= b * n
  {
  }

  /** The numbers below `m` with residue `v`. */
  ghost function Residues(m: nat, n: nat, v: nat): set<nat>
    requires n > 0
  {
    set b: nat | b < m && b % n == v
  }

  lemma BlockResidue(n: nat, q: nat, v: nat, b: nat)
    requires v < n && q * n <= b < q * n + n
    ensures b % n == v <==> b == q * n + v
  {
    DivUnique(b, n, q, b - q * n);
  }

  lemma {:induction false} ResidueCount(n: nat, q: nat, v: nat)
    requires n > 0 && v < n
    ensures |Residues(q * n, n, v)| == q
    decreases q
  {
    if q == 0 {
      assert Residues(q * n, n, v) == {};
    } else {
      ResidueCount(n, q - 1, v);
      var m := (q - 1) * n;
      assert q * n == m + n;
      ResidueStep(n, q - 1, v);
    }
  }

  lemma ResidueStep(n: nat, q: nat, v: nat)
    requires n > 0 && v < n
    ensures Residues(q * n + n, n, v) == Residues(q * n, n, v) + {q * n + v}
  {
    forall b: nat | b < q * n + n
      ensures b in Residues(q * n + n, n, v) <==> b in Residues(q * n, n, v) || b == q * n + v
    {
      if b >= q * n { BlockResidue(n, q, v, b); }
    }
    BlockResidue(n, q, v, q * n + v);
  }

  /** The accepted 31-bit draws that give the sample `v`. */
  ghost function Accepted31(n: nat, v: nat): set<nat>
    requires n > 0
  {
    set b: nat | b < TWO_31 && Accepts31(n, b) && Sample31(n, b) == v
  }

  /** Exact uniformity of `next(int)`: every result is reached by the same number of
      accepted 31-bit draws. */
  lemma Sample31Uniform(n: nat, v: nat)
    requires 0 < n <= INT_MAX && v < n
    ensures |Accepted31(n, v)| == if LowBit(n) == n then TWO_31 / n else INT_MAX / n
  {
    hide LowBit;
    if LowBit(n) == n {
      ScaledUniform(n, v);
    } else {
      var q := INT_MAX / n;
      assert q * n <= INT_MAX;
      assert Accepted31(n, v) == Residues(q * n, n, v);
      ResidueCount(n, q, v);
    }
  }

  lemma ScaledResult(n: nat, q: nat, v: nat, b: nat)
    requires 0 < n && LowBit(n) == n && n * q == TWO_31 && v < n
    ensures v * q + q <= TWO_31
    ensures Accepts31(n, b) && (Sample31(n, b) == v <==> Within(b, v * q, q))
  {
    hide LowBit;
    assert q > 0;
    ScaledDivision(n, q, b);
    QuotientIs(b, q, v);
    assert n * q == (n - v - 1) * q + v * q + q;
    assert (n - v - 1) * q >= 0;
  }

  lemma ScaledUniform(n: nat, v: nat)
    requires 0 < n <= INT_MAX && v < n && LowBit(n) == n
    ensures |Accepted31(n, v)| == TWO_31 / n
  {
    var q := TWO_31 / n;
    assert n * q == TWO_31 by { PowersOfTwo(); LowBitDivides(n, 31); }
    ScaledDraws(n, q, v);
    IntervalSize(v * q, q);
  }

  lemma ScaledDraws(n: nat, q: nat, v: nat)
    requires 0 < n && LowBit(n) == n && n * q == TWO_31 && v < n
    ensures Accepted31(n, v) == Interval(v * q, q)
  {
    hide LowBit, Accepts31, Sample31;
    var lo := v * q;
    forall b: nat ensures b in Accepted31(n, v) <==> b in Interval(lo, q) {
      ScaledResult(n, q, v, b);
    }
  }

  lemma QuotientIs(b: nat, q: nat, v: nat)
    requires q > 0
    ensures b / q == v <==> v * q <= b < v * q + q
  {
    assert b == q * (b / q) + b % q;
    if v * q <= b < v * q + q { DivUnique(b, q, v, b - v * q); }
  }

  // --------------------------------------------------------- 63-bit draws

  /** Bitwise exclusive or. */
  function Xor(a: nat, b: nat): nat
    decreases a + b
  {
    if a == 0 && b == 0 then 0 else 2 * Xor(a / 2, b / 2) + (if a % 2 == b % 2 then 0 else 1)
  }

  /** Joining disjoint bit ranges by xor is addition. */
  lemma {:induction false} XorJoins(left: nat, right: nat, k: nat)
    requires right < Pow2(k)
    ensures Xor(left * Pow2(k), right) == left * Pow2(k) + right
    decreases k
  {
    if k == 0 {
      XorSymmetricZero(left);
    } else {
      var half := left * Pow2(k - 1);
      assert left * Pow2(k) == 2 * half by { assert left * (2 * Pow2(k - 1)) == 2 * (left * Pow2(k - 1)); }
      XorJoins(left, right / 2, k - 1);
      if half == 0 && right == 0 {
        assert left * Pow2(k) == 0;
      }
    }
  }

  lemma {:induction false} XorSymmetricZero(a: nat)
    ensures Xor(a, 0) == a
  {
    if a > 0 { XorSymmetricZero(a / 2); }
  }

  /** The number of low bits drawn for a 63-bit value. */
  function LowerBits(version: int): nat { if version == 0 then 31 else 32 }

  function Join63(left: nat, right: nat): nat { Xor(left * TWO_32, right) }

  lemma PowersOfTwo()
    ensures Pow2(31) == TWO_31 && Pow2(32) == TWO_32
  {
    assert Pow2(4) == 16;
    assert Pow2(8) == 16 * Pow2(4);
    assert Pow2(12) == 16 * Pow2(8);
    assert Pow2(16) == 16 * Pow2(12);
    assert Pow2(20) == 16 * Pow2(16);
    assert Pow2(24) == 16 * Pow2(20);
    assert Pow2(28) == 16 * Pow2(24);
    assert Pow2(31) == 8 * Pow2(28);
  }

  lemma Join63IsAddition(left: nat, right: nat)
    requires right < TWO_32
    ensures Join63(left, right) == left * TWO_32 + right
  {
    PowersOfTwo();
    XorJoins(left, right, 32);
  }

  /** With 32 low bits the joined draws are exactly the 63-bit numbers, each once. */
  lemma Join63Bijection(bits: nat)
    requires bits < TWO_63
    ensures bits / TWO_32 < TWO_31 && Join63(bits / TWO_32, bits % TWO_32) == bits
    ensures forall left: nat, right: nat | left < TWO_31 && right < TWO_32 ::
              Join63(left, right) == bits ==> left == bits / TWO_32 && right == bits % TWO_32
  {
    Join63IsAddition(bits / TWO_32, bits % TWO_32);
    forall left: nat, right: nat | left < TWO_31 && right < TWO_32 && Join63(left, right) == bits
      ensures left == bits / TWO_32 && right == bits % TWO_32
    {
      Join63IsAddition(left, right);
    }
  }

  // Below, the two halves are independent draws of an arbitrary source. What the one
  // 48-bit state behind both of them gives is the subject of `SamplingStates`.

  /** The 63-bit numbers that two independent halves can join to. */
  ghost predicate Joinable(version: int, bits: nat) {
    exists left: nat, right: nat | left < TWO_31 && right < Pow2(LowerBits(version)) :: Join63(left, right) == bits
  }

  /** The accepted joins of independent halves that give the sample `v`. */
  ghost function AcceptedHalves(version: int, n: nat, v: nat): set<nat>
    requires n > 0
  {
    set b: nat | b < TWO_63 && Joinable(version, b) && b < Limit63(n) && b % n == v
  }

  lemma JoinableExactly(version: int, bits: nat)
    requires bits < TWO_63
    ensures Joinable(version, bits) <==> version != 0 || bits % TWO_32 < TWO_31
  {
    PowersOfTwo();
    hide Pow2, Join63;
    Join63Bijection(bits);
    if Joinable(version, bits) {
      var left: nat, right: nat :| left < TWO_31 && right < Pow2(LowerBits(version)) && Join63(left, right) == bits;
      assert right == bits % TWO_32;
    }
    if version != 0 || bits % TWO_32 < TWO_31 {
      assert Join63(bits / TWO_32, bits % TWO_32) == bits;
    }
  }

  lemma HalvesUniform(version: int, n: nat, v: nat)
    requires version != 0 && 0 < n <= LLONG_MAX && v < n
    ensures |AcceptedHalves(version, n, v)| == LLONG_MAX / n
  {
    hide Joinable;
    var q := LLONG_MAX / n;
    assert q * n <= LLONG_MAX;
    forall b: nat | b < TWO_63 ensures Joinable(version, b) { JoinableExactly(version, b); }
    assert Limit63(n) == q * n;
    hide Limit63;
    assert AcceptedHalves(version, n, v) == Residues(q * n, n, v);
    ResidueCount(n, q, v);
  }

  /** The failing case: in version 0, with bound 2^32, no halves give the result 2^31. */
  lemma Version0NeverJoins()
    ensures AcceptedHalves(0, TWO_32, TWO_31) == {}
    ensures |AcceptedHalves(0, TWO_32, TWO_31)| != LLONG_MAX / TWO_32
  {
    forall b: nat | b in AcceptedHalves(0, TWO_32, TWO_31) ensures false { JoinableExactly(0, b); }
  }

  /** `next(long long)` over a source of independent halves: every result is reached by the
      same number of accepted joins for every bound exactly with the generator versions
      other than 0. In version 0 bit 31 of a join is never set, and with bound 2^32 half of
      the results are never given. */
  lemma HalvesUniformUnlessVersion0(version: int)
    ensures version != 0 <==>
      forall n: nat, v: nat | 0 < n <= LLONG_MAX && v < n :: |AcceptedHalves(version, n, v)| == LLONG_MAX / n
  {
    if version == 0 {
      Version0NeverJoins();
    } else {
      forall n: nat, v: nat | 0 < n <= LLONG_MAX && v < n ensures |AcceptedHalves(version, n, v)| == LLONG_MAX / n {
        HalvesUniform(version, n, v);
      }
    }
  }

  // ---------------------------------------------------------- the object

  function SeedAfter(seed: nat, k: nat): nat
    decreases k
  {
    if k == 0 then seed else SeedAfter(NextSeed(seed), k - 1)
  }

  ghost predicate NoneAccepted(n: nat, seed: nat, j: nat)
    requires n > 0
  {
    forall i: nat | i < j :: !Accepts31(n, Raw31(SeedAfter(seed, i)))
  }

  /** The first `j` 63-bit draws are rejected. */
  ghost predicate NoneAccepted63(version: int, n: nat, seed: nat, j: nat)
    requires n > 0
  {
    forall i: nat | i < j :: Bits63(version, SeedAfter(seed, 2 * i)) >= Limit63(n)
  }

  ghost predicate FirstAccepted(n: nat, seed: nat, j: nat)
    requires n > 0
  {
    Accepts31(n, Raw31(SeedAfter(seed, j))) && NoneAccepted(n, seed, j)
  }

  /** Two to the number of state bits that the low half of a 63-bit draw drops. */
  function RightShift(version: int): nat { if version == 0 then TWO_17 else 0x1_0000 }

  /** The 63-bit draw from a state: the high half first. */
  function Bits63(version: int, seed: nat): nat {
    NextSeed(seed) / TWO_17 * TWO_32 + NextSeed(NextSeed(seed)) / RightShift(version)
  }

  lemma HalvesInRange(version: int, seed: nat)
    ensures NextSeed(seed) / TWO_17 < TWO_31
    ensures NextSeed(NextSeed(seed)) / RightShift(version) < TWO_32
    ensures Bits63(version, seed) < TWO_63
    ensures Bits63(version, seed)
         == Join63(NextSeed(seed) / TWO_17, NextSeed(NextSeed(seed)) / RightShift(version))
  {
    var x := NextSeed(seed);
    var y := NextSeed(x);
    hide NextSeed, Xor;
    Join63IsAddition(x / TWO_17, y / RightShift(version));
  }

  class Random {
    var seed: nat
    const version: int

    constructor (seed: nat, version: int)
      ensures this.seed == seed && this.version == version
    {
      this.seed := seed;
      this.version := version;
    }

    /** `nextBits` for at most 48 bits; `shift` is 2 to the number of bits dropped. */
    method NextBits(shift: nat) returns (r: nat)
      requires shift > 0
      modifies this
      ensures seed == NextSeed(old(seed)) && r == seed / shift && seed < TWO_48
    {
      seed := (seed * MULTIPLIER + ADDEND) % TWO_64 % TWO_48;
      r := seed / shift;
    }

    /** `nextBits(63)` */
    method NextBits63() returns (r: nat)
      modifies this
      ensures seed == SeedAfter(old(seed), 2)
      ensures r == Bits63(version, old(seed)) && r < TWO_63
      ensures r == NextSeed(old(seed)) / 0x2_0000 * 0x1_0000_0000
                   + seed / (if version == 0 then 0x2_0000 else 0x1_0000)
    {
      HalvesInRange(version, seed);
      SeedNext(seed, 0);
      SeedNext(seed, 1);
      hide NextSeed, Xor;
      var left := NextBits(TWO_17);
      var right := NextBits(RightShift(version));
      r := Join63(left, right);
    }

    /** `next(int n)`; a bound that is not positive fails. The draw number `k` is one that will
        be accepted: without such a draw the rejection loop has no end. The result is made of
        the first accepted draw, which is the top 31 bits of the state left behind: for a
        power of two it is the number that the top bits of the draw form, and for any other
        bound it is the remainder of the draw. */
    method NextInt(n: int, ghost k: nat) returns (r: Option<nat>)
      requires n <= INT_MAX && (n > 0 ==> Accepts31(n, Raw31(SeedAfter(seed, k))))
      modifies this
      ensures n <= 0 ==> r == None && seed == old(seed)
      ensures n > 0 ==> r.Some? && r.value < n && exists j: nat | j <= k ::
                FirstAccepted(n, old(seed), j) && seed == SeedAfter(old(seed), j + 1)
                && r.value == Sample31(n, Raw31(SeedAfter(old(seed), j)))
      ensures n > 0 ==> seed < 0x1_0000_0000_0000
      ensures n > 0 && PowerOfTwo(n) ==> (
                && seed == NextSeed(old(seed))
                && r.value * (0x8000_0000 / n) <= seed / 0x2_0000 < (r.value + 1) * (0x8000_0000 / n))
      ensures n > 0 && !PowerOfTwo(n) ==> (
                && (seed / 0x2_0000 - r.value) % n == 0
                && seed / 0x2_0000 - r.value + n <= 0x7FFF_FFFF)
    {
      if n <= 0 { return None; }
      LowBitExactly(n);
      hide LowBit, PowerOfTwo, NextSeed, Accepts31, Sample31;
      if LowBit(n) == n {
        var bits := NextBits(TWO_17);
        assert bits < TWO_31;
        assert SeedAfter(old(seed), 0) == old(seed) && SeedAfter(old(seed), 1) == seed;
        TakeTopBits(n, bits);
        return Some(n * bits / TWO_31);
      }
      var limit := INT_MAX / n * n;
      LimitDecides(n, limit);
      var bits := NextBits(TWO_17);
      ghost var j: nat := 0;
      assert SeedAfter(old(seed), 0) == old(seed) && SeedAfter(old(seed), 1) == seed;
      while bits >= limit
        invariant seed == SeedAfter(old(seed), j + 1) && bits == Raw31(SeedAfter(old(seed), j))
        invariant j <= k && NoneAccepted(n, old(seed), j) && bits == seed / TWO_17 && seed < TWO_48
        decreases k - j
      {
        SeedNext(old(seed), j);
        SeedNext(old(seed), j + 1);
        bits := NextBits(TWO_17);
        j := j + 1;
      }
      TakeRemainder(n, bits);
      r := Some(bits % n);
    }

    /** `next(long long n)`: the residue of the first accepted 63-bit draw. */
    method NextLong(n: int, ghost k: nat) returns (r: Option<nat>)
      requires n <= LLONG_MAX && (n > 0 ==> Bits63(version, SeedAfter(seed, 2 * k)) < Limit63(n))
      modifies this
      ensures n <= 0 ==> r == None && seed == old(seed)
      ensures n > 0 ==> r.Some? && r.value < n && exists j: nat | j <= k ::
                NoneAccepted63(version, n, old(seed), j) && seed == SeedAfter(old(seed), 2 * j + 2)
                && Bits63(version, SeedAfter(old(seed), 2 * j)) < Limit63(n)
                && r.value == Bits63(version, SeedAfter(old(seed), 2 * j)) % n
    {
      hide Bits63, NextSeed;
      if n <= 0 { return None; }
      var limit := LLONG_MAX / n * n;
      var bits := NextBits63();
      ghost var j: nat := 0;
      while bits >= limit
        invariant seed == SeedAfter(old(seed), 2 * j + 2) && bits == Bits63(version, SeedAfter(old(seed), 2 * j))
        invariant j <= k && NoneAccepted63(version, n, old(seed), j)
        decreases k - j
      {
        SeedSum(old(seed), 2 * j + 2, 2);
        bits := NextBits63();
        j := j + 1;
      }
      r := Some(bits % n);
    }
  }

  lemma {:induction false} SeedSum(seed: nat, j: nat, k: nat)
    ensures SeedAfter(SeedAfter(seed, j), k) == SeedAfter(seed, j + k)
    decreases j
  {
    if j > 0 { SeedSum(NextSeed(seed), j - 1, k); }
  }

  lemma {:induction false} SeedNext(seed: nat, k: nat)
    ensures SeedAfter(seed, k + 1) == NextSeed(SeedAfter(seed, k))
    decreases k
  {
    if k > 0 { SeedNext(NextSeed(seed), k - 1); }
  }

  lemma LimitDecides(n: nat, limit: nat)
    requires n > 0 && LowBit(n) != n && limit == INT_MAX / n * n
    ensures forall b: nat :: Accepts31(n, b) <==> b < limit
  {
    hide LowBit;
  }

  lemma TakeTopBits(n: nat, bits: nat)
    requires 0 < n <= INT_MAX && bits < TWO_31 && LowBit(n) == n
    ensures Accepts31(n, bits) && Sample31(n, bits) == n * bits / TWO_31 < n
    ensures var r := Sample31(n, bits); r * (0x8000_0000 / n) <= bits < (r + 1) * (0x8000_0000 / n)
  {
    var q := 0x8000_0000 / n;
    assert n * q == TWO_31 by { PowersOfTwo(); LowBitDivides(n, 31); }
    assert q > 0;
    ScaledDivision(n, q, bits);
    assert Sample31(n, bits) == bits / q;
    hide *;
    QuotientIs(bits, q, bits / q);
    NextMultiple(bits / q, q);
    if bits / q >= n { MulOrder(n, bits / q, q); }
  }

  lemma TakeRemainder(n: nat, bits: nat)
    requires n > 0 && LowBit(n) != n && Accepts31(n, bits)
    ensures Sample31(n, bits) == bits % n < n
    ensures (bits - bits % n) % n == 0 && bits - bits % n + n <= 0x7FFF_FFFF
  {
    hide LowBit;
    BlockFits(n, bits, INT_MAX);
    DivExact(n, bits / n);
    assert bits - bits % n == n * (bits / n);
  }
}
