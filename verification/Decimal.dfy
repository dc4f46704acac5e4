/** Decimal notation of integers, and what `vtos`, `std::to_string`,
    `std::stoll` and `sscanf("%d")` do with it (support/testlib.h:549-566, 3773-3805). */
module Decimal {
  import opened Bytes

  const ZERO: Byte := 48
  const NINE: Byte := 57
  const MINUS: Byte := 45
  const PLUS: Byte := 43

  predicate IsDigit(c: Byte) { ZERO <= c <= NINE }

  predicate AllDigits(s: seq<Byte>) {
    forall i | 0 <= i < |s| :: IsDigit(s[i])
  }

  /** The number a digit string denotes, leading zeros allowed. */
  function DigitsValue(s: seq<Byte>): nat
    requires AllDigits(s)
  {
    if s == [] then 0 else DigitsValue(s[..|s| - 1]) * 10 + (s[|s| - 1] - ZERO) as int
  }

  function DigitChar(d: nat): Byte
    requires d < 10
  {
    ZERO + d as Byte
  }

  /** The shortest digit string denoting `n`. */
  function NatText(n: nat): seq<Byte> {
    if n < 10 then [DigitChar(n)] else NatText(n / 10) + [DigitChar(n % 10)]
  }

  function IntText(n: int): seq<Byte> {
    if n < 0 then [MINUS] + NatText(-n) else NatText(n)
  }

  lemma {:induction false} NatTextShape(n: nat)
    ensures AllDigits(NatText(n)) && |NatText(n)| >= 1
    ensures DigitsValue(NatText(n)) == n
    ensures n > 0 ==> NatText(n)[0] != ZERO
    ensures n == 0 ==> NatText(n) == [ZERO]
  {
    if n >= 10 {
      NatTextShape(n / 10);
      var t := NatText(n / 10);
      assert (t + [DigitChar(n % 10)])[..|t|] == t;
    } else {
      assert [DigitChar(n)][..0] == [];
    }
  }

  /** A digit string without a redundant leading zero is the text of its value. */
  lemma {:induction false} NatTextUnique(s: seq<Byte>)
    requires AllDigits(s) && s != [] && (|s| > 1 ==> s[0] != ZERO)
    ensures NatText(DigitsValue(s)) == s
  {
    var t := s[..|s| - 1];
    if t == [] {
      assert s == [s[0]];
    } else {
      NatTextUnique(t);
      assert s == t + [s[|s| - 1]];
      LeadingDigitPositive(t);
    }
  }

  lemma {:induction false} LeadingDigitPositive(s: seq<Byte>)
    requires AllDigits(s) && s != [] && s[0] != ZERO
    ensures DigitsValue(s) > 0
  {
    if |s| > 1 { LeadingDigitPositive(s[..|s| - 1]); }
  }

  /** `isspace` in the C locale. */
  predicate IsSpaceC(c: Byte) { c == SPACE || 9 <= c <= 13 }

  function DropSpaces(s: seq<Byte>): seq<Byte> {
    if s != [] && IsSpaceC(s[0]) then DropSpaces(s[1..]) else s
  }

  function DigitRun(s: seq<Byte>): (r: seq<Byte>)
    ensures AllDigits(r)
  {
    if s != [] && IsDigit(s[0]) then [s[0]] + DigitRun(s[1..]) else []
  }

  /** `sscanf("%d")`: blanks, an optional sign, digits, anything. */
  function ScanInt(s: seq<Byte>): Option<int> {
    var t := DropSpaces(s);
    var negative := t != [] && t[0] == MINUS;
    var u := if t != [] && (t[0] == MINUS || t[0] == PLUS) then t[1..] else t;
    var digits := DigitRun(u);
    if digits == [] then None
    else
      var n: int := DigitsValue(digits);
      Some(if negative then -n else n)
  }

  lemma {:induction false} DigitRunAll(u: seq<Byte>)
    requires AllDigits(u)
    ensures DigitRun(u) == u
  {
    if u != [] { DigitRunAll(u[1..]); }
  }

  // ------------------------------------------------------ canonical integers

  /** "0", or an optional minus and digits that do not start with 0. */
  predicate Canonical(s: seq<Byte>) {
    s == [ZERO] || (var d := Magnitude(s); AllDigits(d) && d != [] && d[0] != ZERO)
  }

  /** The text after an optional minus. */
  function Magnitude(s: seq<Byte>): seq<Byte> {
    if s != [] && s[0] == MINUS then s[1..] else s
  }

  function IntValue(s: seq<Byte>): int
    requires AllDigits(Magnitude(s))
  {
    var v: int := DigitsValue(Magnitude(s));
    if s != [] && s[0] == MINUS then -v else v
  }

  lemma IntTextCanonical(v: int)
    ensures Canonical(IntText(v)) && IntValue(IntText(v)) == v
  {
    NatTextShape(if v < 0 then -v else v);
    if v < 0 { assert Magnitude(IntText(v)) == NatText(-v); }
  }

  /** A canonical integer is the text of its value, so canonical texts are injective in value. */
  lemma CanonicalUnique(s: seq<Byte>)
    requires Canonical(s)
    ensures IntText(IntValue(s)) == s
  {
    var d := Magnitude(s);
    if s == [ZERO] {
      assert DigitsValue(s) == 0;
    } else {
      NatTextUnique(d);
      LeadingDigitPositive(d);
    }
  }

  lemma CanonicalInjective(s: seq<Byte>, t: seq<Byte>)
    requires Canonical(s) && Canonical(t)
    ensures s == t <==> IntValue(s) == IntValue(t)
  {
    CanonicalUnique(s);
    CanonicalUnique(t);
  }

  // -------------------------------------------------------- machine integers

  const INT32_MIN: int := -0x8000_0000

  predicate IsInt32(v: int) { INT32_MIN <= v <= INT_MAX }

  const INT64_MIN: int := -0x8000_0000_0000_0000
  const INT64_MAX: int := 0x7FFF_FFFF_FFFF_FFFF

  predicate IsInt64(v: int) { INT64_MIN <= v <= INT64_MAX }

  /** The signed 64-bit integer a text is the canonical notation of, if any. */
  function Int64Of(s: seq<Byte>): Option<int> {
    if Canonical(s) && IsInt64(IntValue(s)) then Some(IntValue(s)) else None
  }

  /** Reading accepts exactly what printing produces, and gives the printed value back. */
  lemma Int64RoundTrip(v: int, s: seq<Byte>)
    requires IsInt64(v)
    ensures Int64Of(s) == Some(v) <==> s == IntText(v)
  {
    IntTextCanonical(v);
    if Canonical(s) { CanonicalUnique(s); }
  }

  /** `std::stoll`, whose two exceptions both end in the same error. */
  function Stoll(s: seq<Byte>): Option<int> {
    var v := ScanInt(s);
    if v.None? || !IsInt64(v.value) then None else v
  }

  function TruncDiv(n: int, d: int): int
    requires d > 0
  {
    if n < 0 then -(-n / d) else n / d
  }

  function TruncRem(n: int, d: int): int
    requires d > 0
  {
    n - TruncDiv(n, d) * d
  }

  function Reverse(s: seq<Byte>): seq<Byte> {
    if s == [] then [] else Reverse(s[1..]) + [s[0]]
  }

  lemma {:induction false} ReverseAppend(s: seq<Byte>, c: Byte)
    ensures Reverse(s + [c]) == [c] + Reverse(s)
  {
    if s == [] {
      assert s + [c] == [c];
      assert [c][1..] == [];
    } else {
      ReverseAppend(s[1..], c);
      assert (s + [c])[1..] == s[1..] + [c];
    }
  }

  function Abs(n: int): nat { if n < 0 then -n else n }

  /** The digits of |t| below |n| have been emitted, lowest first. */
  ghost predicate Emitted(s: seq<Byte>, n: int, t: int) {
    NatText(Abs(t)) == (if n == 0 then [] else NatText(Abs(n))) + Reverse(s)
  }

  lemma EmitDigit(s: seq<Byte>, n: int, t: int, digit: nat)
    requires n != 0 && Emitted(s, n, t) && digit == Abs(n) % 10
    ensures Emitted(s + [DigitChar(digit)], TruncDiv(n, 10), t)
  {
    ReverseAppend(s, DigitChar(digit));
    assert Abs(TruncDiv(n, 10)) == Abs(n) / 10;
    var high := if Abs(n) < 10 then [] else NatText(Abs(n) / 10);
    assert NatText(Abs(n)) == high + [DigitChar(digit)];
    assert (high + [DigitChar(digit)]) + Reverse(s) == high + ([DigitChar(digit)] + Reverse(s));
  }

  /** Digits are taken off the low end, negated one by one when negative, then reversed. */
  method Vtos(t: int) returns (s: seq<Byte>)
    ensures s == IntText(t)
    ensures Canonical(s) && IntValue(s) == t
  {
    IntTextCanonical(t);
    if t == 0 { return [ZERO]; }
    hide NatText, Reverse, Canonical, IntValue, Emitted;
    var n := t;
    var negative := n < 0;
    s := [];
    StartEmit(t);
    while n != 0
      invariant Emitted(s, n, t)
      decreases Abs(n)
    {
      var digit := TruncRem(n, 10);
      if digit < 0 { digit := -digit; }
      EmitDigit(s, n, t, digit);
      s := s + [DigitChar(digit)];
      n := TruncDiv(n, 10);
    }
    EndEmit(s, t);
    s := Reverse(s);
    if negative { s := [MINUS] + s; }
  }

  lemma StartEmit(t: int)
    requires t != 0
    ensures Emitted([], t, t)
  {
    assert NatText(Abs(t)) + [] == NatText(Abs(t));
  }

  lemma EndEmit(s: seq<Byte>, t: int)
    requires Emitted(s, 0, t)
    ensures Reverse(s) == NatText(Abs(t))
  {
    assert [] + Reverse(s) == Reverse(s);
  }

  function Pow10(k: nat): (r: nat)
    ensures r > 0
  {
    if k == 0 then 1 else 10 * Pow10(k - 1)
  }

  lemma {:induction false} NatTextLength(n: nat, k: nat)
    requires n < Pow10(k) && k >= 1
    ensures |NatText(n)| <= k
    decreases k
  {
    if n >= 10 {
      assert n / 10 < Pow10(k - 1);
      NatTextLength(n / 10, k - 1);
    }
  }

  lemma Int64TextLength(s: seq<Byte>)
    requires Int64Of(s).Some?
    ensures 1 <= |s| <= 20 && 0 !in s
  {
    var v := IntValue(s);
    CanonicalUnique(s);
    assert Pow10(4) == 10000;
    assert Pow10(8) == 10000 * Pow10(4);
    assert Pow10(12) == 10000 * Pow10(8);
    assert Pow10(16) == 10000 * Pow10(12);
    assert Pow10(19) == 1000 * Pow10(16);
    NatTextLength(if v < 0 then -v else v, 19);
    NatTextShape(if v < 0 then -v else v);
  }

  function LeadingZeros(s: seq<Byte>): (n: nat)
    ensures n <= |s|
  {
    if s != [] && s[0] == ZERO then 1 + LeadingZeros(s[1..]) else 0
  }

  lemma {:induction false} LeadingZerosAppend(s: seq<Byte>, c: Byte)
    ensures LeadingZeros(s + [c]) == LeadingZeros(s) + (if LeadingZeros(s) == |s| && c == ZERO then 1 else 0)
  {
    if s == [] {
      assert s + [c] == [c] && [c][1..] == [];
    } else {
      LeadingZerosAppend(s[1..], c);
      assert (s + [c])[1..] == s[1..] + [c];
    }
  }

  lemma {:induction false} ZeroValue(s: seq<Byte>)
    requires AllDigits(s) && s != [] && DigitsValue(s) == 0
    ensures LeadingZeros(s) == |s|
  {
    var t := s[..|s| - 1];
    if t == [] {
      assert s == [ZERO] && s[1..] == [];
    } else {
      ZeroValue(t);
      LeadingZerosAppend(t, s[|s| - 1]);
      assert s == t + [s[|s| - 1]];
    }
  }

  /** `std::stoll` on a sign and digits. */
  lemma StollOfShape(s: seq<Byte>)
    requires AllDigits(Magnitude(s)) && Magnitude(s) != []
    ensures Stoll(s) == if IsInt64(IntValue(s)) then Some(IntValue(s)) else None
  {
    DigitRunAll(Magnitude(s));
    assert DropSpaces(s) == s;
  }

  /** The digit loop: refuses a non-digit, counts the leading zeros. */
  method CountZeroes(digits: seq<Byte>) returns (ok: bool, zeroes: nat)
    ensures ok <==> AllDigits(digits)
    ensures ok ==> zeroes == LeadingZeros(digits)
  {
    hide LeadingZeros;
    zeroes := 0;
    var processingZeroes := true;
    assert LeadingZeros([]) == 0 by { EmptyZeros(); }
    assert digits[..0] == [];
    for i := 0 to |digits|
      invariant forall k | 0 <= k < i :: IsDigit(digits[k])
      invariant zeroes == LeadingZeros(digits[..i])
      invariant processingZeroes <==> zeroes == i
    {
      assert digits[..i + 1] == digits[..i] + [digits[i]];
      LeadingZerosAppend(digits[..i], digits[i]);
      if digits[i] == ZERO && processingZeroes {
        zeroes := zeroes + 1;
      } else {
        processingZeroes := false;
      }
      if !IsDigit(digits[i]) { return false, zeroes; }
    }
    assert digits[..|digits|] == digits;
    ok := true;
  }

  lemma EmptyZeros()
    ensures LeadingZeros([]) == 0
  {
  }

  /** The final test on leading zeros accepts exactly the canonical texts. */
  lemma ZeroRule(s: seq<Byte>)
    requires AllDigits(Magnitude(s)) && Magnitude(s) != []
    ensures var zeroes := LeadingZeros(Magnitude(s));
            var hasMinus := |s| > 1 && s[0] == MINUS;
            Canonical(s) <==> !((zeroes > 0 && (IntValue(s) != 0 || hasMinus)) || zeroes > 1)
  {
    var d := Magnitude(s);
    if d[0] == ZERO {
      if DigitsValue(d) == 0 { ZeroValue(d); }
      if s == [ZERO] { assert DigitsValue([ZERO]) == 0; assert [ZERO][1..] == []; }
    }
  }

  method StringToLongLong(buffer: seq<Byte>) returns (r: Option<int>)
    ensures r == Int64Of(buffer)
    ensures r.Some? ==> IntText(r.value) == buffer
  {
    if Int64Of(buffer).Some? {
      Int64TextLength(buffer);
      CanonicalUnique(buffer);
    }
    for i := 0 to |buffer|
      invariant forall k | 0 <= k < i :: buffer[k] != 0
    {
      if buffer[i] == 0 { return None; }
    }
    var length := |buffer|;
    if length == 0 || length > 20 { return None; }
    var hasMinus := length > 1 && buffer[0] == MINUS;
    var ok, zeroes := CountZeroes(buffer[if hasMinus then 1 else 0..]);
    if !ok {
      NotCanonical(buffer);
      return None;
    }
    assert Magnitude(buffer) == buffer[if hasMinus then 1 else 0..] by { if !hasMinus { assert IsDigit(buffer[0]); } }
    hide LeadingZeros, Canonical, ScanInt, AllDigits, DigitsValue;
    MagnitudeKept(buffer);
    StollOfShape(buffer);
    ZeroRule(buffer);
    var result := Stoll(buffer);
    if result.None? { return None; }
    if (zeroes > 0 && (result.value != 0 || hasMinus)) || zeroes > 1 { return None; }
    return result;
  }

  lemma MagnitudeKept(s: seq<Byte>)
    requires s != [] && AllDigits(Magnitude(s)) && Magnitude(s) == s[if |s| > 1 && s[0] == MINUS then 1 else 0..]
    ensures Magnitude(s) != []
  {
  }

  lemma NotCanonical(s: seq<Byte>)
    requires s != [] && !AllDigits(s[if |s| > 1 && s[0] == MINUS then 1 else 0..])
    ensures !Canonical(s)
  {
    var d := s[if |s| > 1 && s[0] == MINUS then 1 else 0..];
    if |s| == 1 && s[0] == MINUS { assert Magnitude(s) == []; } else { assert Magnitude(s) == d; }
  }
}
