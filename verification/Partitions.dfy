/** `random_t::distinct` and `partition` (support/testlib.h:1186-1222, 1240-1281). Random
    draws are arbitrary; the floating-point estimate that selects the branch of `distinct`
    is an arbitrary boolean. */
module Partitions {
  import opened Bytes
  import opened Permutations

  // --------------------------------------------------------------- distinct

  predicate NoDuplicates(s: seq<int>) {
    forall i, j | 0 <= i < j < |s| :: s[i] != s[j]
  }

  predicate InRange(s: seq<int>, from: int, to: int) {
    forall i | 0 <= i < |s| :: from <= s[i] <= to
  }

  /** The draws without repetitions, in order of first appearance. */
  function FirstSeen(draws: seq<int>): seq<int> {
    if draws == [] then []
    else
      var before := FirstSeen(draws[..|draws| - 1]);
      var x := draws[|draws| - 1];
      if x in before then before else before + [x]
  }

  lemma {:induction false} FirstSeenDistinct(draws: seq<int>, from: int, to: int)
    requires InRange(draws, from, to)
    ensures NoDuplicates(FirstSeen(draws)) && InRange(FirstSeen(draws), from, to)
  {
    if draws != [] {
      FirstSeenDistinct(draws[..|draws| - 1], from, to);
    }
  }

  lemma {:induction false} FirstSeenGrows(draws: seq<int>, k: nat)
    requires k <= |draws|
    ensures FirstSeen(draws[..k]) <= FirstSeen(draws)
    ensures |FirstSeen(draws)| <= |FirstSeen(draws[..k])| + |draws| - k
  {
    if k < |draws| {
      FirstSeenGrows(draws[..|draws| - 1], k);
      assert draws[..|draws| - 1][..k] == draws[..k];
    } else {
      assert draws[..k] == draws;
    }
  }

  lemma {:induction false} FirstSeenOfDistinct(s: seq<int>)
    requires NoDuplicates(s)
    ensures FirstSeen(s) == s
  {
    if s != [] {
      FirstSeenOfDistinct(s[..|s| - 1]);
    }
  }

  /** A draw that did not come before is kept, behind those kept so far; any other is dropped. */
  lemma KeptExactly(draws: seq<int>, i: nat)
    requires i < |draws|
    ensures draws[i] in FirstSeen(draws)
    ensures var kept := FirstSeen(draws[..i]);
      && kept <= FirstSeen(draws)
      && FirstSeen(draws[..i + 1]) == kept + (if draws[i] in draws[..i] then [] else [draws[i]])
      && FirstSeen(draws[..i + 1]) <= FirstSeen(draws)
  {
    assert draws[..i + 1][..i] == draws[..i];
    FirstSeenGrows(draws, i);
    FirstSeenGrows(draws, i + 1);
    FirstSeenMembers(draws[..i], draws[i]);
    FirstSeenMembers(draws, draws[i]);
  }

  lemma {:induction false} FirstSeenMembers(draws: seq<int>, x: int)
    ensures x in FirstSeen(draws) <==> x in draws
  {
    if draws != [] {
      var n := |draws| - 1;
      FirstSeenMembers(draws[..n], x);
      assert draws == draws[..n] + [draws[n]];
    }
  }

  lemma PermDistinct(first: int, p: seq<int>)
    requires IsPerm(first, p)
    ensures NoDuplicates(p) && InRange(p, first, first + |p| - 1)
  {
    forall i | 0 <= i < |p| ensures first <= p[i] <= first + |p| - 1 {
      assert p[i] in p;
      PermMember(first, p, p[i]);
    }
    forall i, j | 0 <= i < j < |p| ensures p[i] != p[j] {
      if p[i] == p[j] {
        IotaOnce(first, |p|, p[i]);
        TwicePresent(p, i, j);
      }
    }
  }

  lemma {:induction false} IotaOnce(first: int, n: nat, x: int)
    ensures multiset(Iota(first, n))[x] <= 1
  {
    if n > 0 {
      IotaOnce(first, n - 1, x);
      IotaMember(first, n - 1, x);
      var a, b := Iota(first, n - 1), [first + n - 1];
      assert multiset(a + b) == multiset(a) + multiset(b);
      assert x in multiset(a) <==> x in a;
    }
  }

  lemma TwicePresent(p: seq<int>, i: nat, j: nat)
    requires i < j < |p| && p[i] == p[j]
    ensures multiset(p)[p[i]] >= 2
  {
    var a, b := p[..j], p[j..];
    assert p == a + b;
    assert multiset(p) == multiset(a) + multiset(b);
    assert a[i] in multiset(a) && b[0] in multiset(b);
  }

  /** Why `distinct(size, from, to)` stops the program. */
  predicate DistinctFails(size: int, from: int, to: int, dense: bool) {
    size != 0 && (from > to || size < 0 || size > to - from + 1 || (dense && to - from + 1 > 1_000_000_000))
  }

  /** The sparse branch: repeated draws are rejected. The set and the vector grow together,
      so their sizes agree. */
  method DrawDistinct(size: nat, draws: seq<int>) returns (result: seq<int>)
    requires size <= |FirstSeen(draws)|
    ensures result == FirstSeen(draws)[..size]
  {
    var vals: set<int> := {};
    result := [];
    var k := 0;
    while |result| < size
      invariant k <= |draws| && |result| <= size
      invariant result == FirstSeen(draws[..k]) && forall x :: x in vals <==> x in result
      decreases |draws| - k
    {
      FirstSeenGrows(draws, k);
      assert draws[..|draws|] == draws;
      var x := draws[k];
      assert draws[..k + 1][..k] == draws[..k];
      if x !in vals {
        vals := vals + {x};
        result := result + [x];
      }
      k := k + 1;
    }
    FirstSeenGrows(draws, k);
  }

  /** `distinct`. The rejection loop has an end only when the draws hold enough distinct
      values, and then reads them up to the last one it needs. */
  method Distinct(size: int, from: int, to: int, dense: bool, draws: seq<int>, choices: seq<nat>)
      returns (r: Option<seq<int>>)
    requires InRange(draws, from, to)
    requires !dense && !DistinctFails(size, from, to, dense) ==> size <= |FirstSeen(draws)|
    requires Legal(choices) && (from <= to ==> |choices| == to - from + 1)
    ensures r == None <==> DistinctFails(size, from, to, dense)
    ensures r.Some? ==> |r.value| == size && NoDuplicates(r.value) && InRange(r.value, from, to)
    ensures r.Some? && size > 0 ==>
              r.value == if dense then Shuffled(from, choices)[..size] else FirstSeen(draws)[..size]
  {
    if size == 0 {
      return Some([]);
    }
    if from > to || size < 0 {
      return None;
    }
    var n := to - from + 1;
    if size > n {
      return None;
    }
    if !dense {
      FirstSeenDistinct(draws, from, to);
      var result := DrawDistinct(size, draws);
      return Some(result);
    }
    if n > 1_000_000_000 {
      return None;
    }
    var p := Perm(n, from, choices);
    ShuffledIsPerm(from, choices);
    PermDistinct(from, p.value);
    return Some(p.value[..size]);
  }

  // -------------------------------------------------------------- partition

  predicate Increasing(prev: int, marks: seq<int>, end: int)
    decreases |marks|
  {
    if marks == [] then prev < end else prev < marks[0] && Increasing(marks[0], marks[1..], end)
  }

  /** The part sizes between consecutive separators. */
  function Parts(prev: int, marks: seq<int>, end: int, min: int): (r: seq<int>)
    decreases |marks|
  {
    if marks == [] then [end - prev - 1 + min]
    else [marks[0] - prev - 1 + min] + Parts(marks[0], marks[1..], end, min)
  }

  /** The separators that give the parts. */
  function Marks(prev: int, parts: seq<int>, min: int): seq<int>
    decreases |parts|
  {
    if |parts| <= 1 then []
    else var x := prev + parts[0] - min + 1; [x] + Marks(x, parts[1..], min)
  }

  function Sum(s: seq<int>): int {
    if s == [] then 0 else s[0] + Sum(s[1..])
  }

  predicate AtLeast(s: seq<int>, min: int) {
    forall i | 0 <= i < |s| :: s[i] >= min
  }

  /** Parts of increasing separators: their number, sum and lower bound. */
  lemma {:induction false} PartsCompose(prev: int, marks: seq<int>, end: int, min: int)
    requires Increasing(prev, marks, end)
    ensures |Parts(prev, marks, end, min)| == |marks| + 1
    ensures AtLeast(Parts(prev, marks, end, min), min)
    ensures Sum(Parts(prev, marks, end, min)) == end - prev - (|marks| + 1) + min * (|marks| + 1)
    ensures Marks(prev, Parts(prev, marks, end, min), min) == marks
    decreases |marks|
  {
    if marks == [] {
      assert [end - prev - 1 + min][1..] == [];
    } else {
      var x, tail := marks[0] - prev - 1 + min, Parts(marks[0], marks[1..], end, min);
      PartsCompose(marks[0], marks[1..], end, min);
      assert Parts(prev, marks, end, min) == [x] + tail;
      PartsStep(x, tail, prev, min);
      assert marks == [marks[0]] + marks[1..];
      OneMore(min, |marks|);
      hide Parts, Sum, Marks, Increasing;
    }
  }

  lemma OneMore(min: int, n: nat)
    ensures min * (n + 1) == min + min * n
  {
  }

  lemma PartsStep(x: int, tail: seq<int>, prev: int, min: int)
    requires tail != []
    ensures Sum([x] + tail) == x + Sum(tail)
    ensures Marks(prev, [x] + tail, min) == [prev + x - min + 1] + Marks(prev + x - min + 1, tail, min)
  {
    assert ([x] + tail)[1..] == tail;
  }

  lemma PartsLength(prev: int, marks: seq<int>, end: int, min: int)
    ensures |Parts(prev, marks, end, min)| == |marks| + 1
    decreases |marks|
  {
  }

  /** Every composition is given by its separators. */
  lemma {:induction false} MarksSeparate(prev: int, parts: seq<int>, end: int, min: int)
    requires parts != [] && AtLeast(parts, min) && Sum(parts) == end - prev - |parts| + min * |parts|
    ensures Increasing(prev, Marks(prev, parts, min), end)
    ensures Parts(prev, Marks(prev, parts, min), end, min) == parts
    decreases |parts|
  {
    if |parts| == 1 {
      assert Sum(parts[1..]) == 0;
    } else {
      var x := prev + parts[0] - min + 1;
      OneMore(min, |parts| - 1);
      MarksSeparate(x, parts[1..], end, min);
      var m := Marks(prev, parts, min);
      assert m[1..] == Marks(x, parts[1..], min);
    }
  }

  /** Stars and bars: with separators in [1, total + size - 1], where `total` is the sum less
      the minimal parts, partitions and sorted separator sets correspond one to one. */
  lemma StarsAndBars(marks: seq<int>, parts: seq<int>, sum: int, min: int)
    requires Increasing(0, marks, sum - min * |parts| + |parts|) && |marks| + 1 == |parts|
    requires AtLeast(parts, min) && Sum(parts) == sum
    ensures Parts(0, marks, sum - min * |parts| + |parts|, min) == parts <==> marks == Marks(0, parts, min)
  {
    var end := sum - min * |parts| + |parts|;
    MarksSeparate(0, parts, end, min);
    PartsCompose(0, marks, end, min);
  }

  function Identity(x: int): int { x }

  /** The separators in ascending order. */
  function Ordered(d: seq<int>): seq<int> { Sort(d, Identity) }

  lemma {:induction false} IncreasingWhen(prev: int, s: seq<int>, end: int)
    requires prev < end && forall i | 0 <= i < |s| :: prev < s[i] < end
    requires forall i, j | 0 <= i < j < |s| :: s[i] < s[j]
    ensures Increasing(prev, s, end)
    decreases |s|
  {
    if s != [] {
      IncreasingWhen(s[0], s[1..], end);
    }
  }

  lemma {:induction false} OneEach(s: seq<int>, x: int)
    requires NoDuplicates(s)
    ensures multiset(s)[x] <= 1
  {
    if s != [] {
      var a, b := [s[0]], s[1..];
      OneEach(b, x);
      assert s == a + b;
      assert multiset(s) == multiset(a) + multiset(b);
      assert s[0] in multiset(b) <==> s[0] in b;
    }
  }

  /** Distinct values within bounds are strictly increasing once sorted. */
  lemma OrderedIncreasing(d: seq<int>, prev: int, end: int)
    requires prev < end && NoDuplicates(d) && InRange(d, prev + 1, end - 1)
    ensures Increasing(prev, Ordered(d), end) && |Ordered(d)| == |d|
  {
    var s := Ordered(d);
    SortSorts(d, Identity);
    forall i | 0 <= i < |s| ensures prev < s[i] < end {
      SameMembers(s, d, s[i]);
    }
    forall i, j | 0 <= i < j < |s| ensures s[i] < s[j] {
      assert Identity(s[i]) <= Identity(s[j]);
      if s[i] == s[j] {
        OneEach(d, s[i]);
        TwicePresent(s, i, j);
      }
    }
    IncreasingWhen(prev, s, end);
  }

  /** With a smaller value in front, sorting leaves it in front. */
  lemma SortFirst(x: int, d: seq<int>)
    requires forall i | 0 <= i < |d| :: x < d[i]
    ensures Sort([x] + d, Identity) == [x] + Ordered(d)
  {
    assert ([x] + d)[1..] == d;
    SortSorts(d, Identity);
    var s := Ordered(d);
    if s != [] { SameMembers(s, d, s[0]); }
  }

  /** The number of places strictly between separator `i` and the next one. */
  function Gap(septums: seq<int>, end: int, i: nat): int
    requires i < |septums|
  {
    (if i == |septums| - 1 then end else septums[i + 1]) - septums[i] - 1
  }

  lemma {:induction false} PartsAt(prev: int, marks: seq<int>, end: int, min: int, i: nat)
    requires i <= |marks|
    ensures |Parts(prev, marks, end, min)| == |marks| + 1
    ensures Parts(prev, marks, end, min)[i] == Gap([prev] + marks, end, i) + min
    decreases |marks|
  {
    if marks != [] {
      PartsAt(marks[0], marks[1..], end, min, if i == 0 then 0 else i - 1);
      assert marks == [marks[0]] + marks[1..];
    }
  }

  /** Each part is the number of places strictly between its two separators, above the least part. */
  lemma PartsBetween(marks: seq<int>, end: int, min: int, i: nat)
    requires i <= |marks|
    ensures var walls := [0] + marks + [end];
      && |Parts(0, marks, end, min)| == |marks| + 1
      && Parts(0, marks, end, min)[i] == walls[i + 1] - walls[i] - 1 + min
  {
    PartsAt(0, marks, end, min, i);
  }

  lemma {:induction false} SumSnoc(s: seq<int>, x: int)
    ensures Sum(s + [x]) == Sum(s) + x
  {
    if s != [] {
      assert (s + [x])[1..] == s[1..] + [x];
      SumSnoc(s[1..], x);
    }
  }

  /** Every partition is reached: with its separators as draws `distinct` gives them back. */
  lemma PartitionReaches(parts: seq<int>, sum: int, min: int)
    requires parts != [] && AtLeast(parts, min) && Sum(parts) == sum
    ensures var last := sum - min * |parts| + |parts| - 1;
      var draws := Marks(0, parts, min);
      && InRange(draws, 1, last) && FirstSeen(draws) == draws && |draws| == |parts| - 1
      && Parts(0, Ordered(draws), last + 1, min) == parts
  {
    hide Marks, Parts, Increasing, Sum, AtLeast, Ordered, FirstSeen;
    var end := sum - min * |parts| + |parts|;
    var draws := Marks(0, parts, min);
    MarksSeparate(0, parts, end, min);
    PartsLength(0, draws, end, min);
    IncreasingMeans(0, draws, end);
    FirstSeenOfDistinct(draws);
    SortedAlready(draws);
  }

  lemma {:induction false} IncreasingMeans(prev: int, s: seq<int>, end: int)
    requires Increasing(prev, s, end)
    ensures forall i | 0 <= i < |s| :: prev < s[i] < end
    ensures forall i, j | 0 <= i < j < |s| :: s[i] < s[j]
    decreases |s|
  {
    if s != [] {
      IncreasingMeans(s[0], s[1..], end);
    }
  }

  lemma {:induction false} SortedAlready(s: seq<int>)
    requires forall i, j | 0 <= i < j < |s| :: s[i] < s[j]
    ensures Ordered(s) == s
  {
    if s != [] {
      SortedAlready(s[1..]);
      assert s == [s[0]] + s[1..];
    }
  }

  datatype PartitionError =
    | NegativeSize | EmptyWithSum | SumTooSmall | DistinctFailed
    | WrongSum | PartTooSmall | WrongSize

  datatype PartitionResult = Made(parts: seq<int>) | Failed(error: PartitionError)

  /** `partition(size, sum, min_part)`. `d` is what `distinct` returned for the separators; it
      fails only in its dense branch. */
  method Partition(size: int, sum: int, min: int, dense: bool, draws: seq<int>, choices: seq<nat>)
      returns (r: PartitionResult)
    requires var last := sum - min * size + size - 1;
      size > 0 && min * size <= sum ==>
        && InRange(draws, 1, last) && (dense || size - 1 <= |FirstSeen(draws)|)
        && Legal(choices) && (1 <= last ==> |choices| == last)
    ensures size < 0 ==> r == Failed(NegativeSize)
    ensures size == 0 && sum != 0 ==> r == Failed(EmptyWithSum)
    ensures size >= 0 && (size == 0 ==> sum == 0) && min * size > sum ==> r == Failed(SumTooSmall)
    ensures size == 0 && sum == 0 ==> r == Made([])
    ensures size > 0 && min * size <= sum ==>
      var last := sum - min * size + size - 1;
      if size > 1 && dense && last > 1_000_000_000 then r == Failed(DistinctFailed)
      else
        var d := if size == 1 then []
                 else if dense then Shuffled(1, choices)[..size - 1]
                 else FirstSeen(draws)[..size - 1];
        && Increasing(0, Ordered(d), last + 1)
        && r == Made(Parts(0, Ordered(d), last + 1, min))
        && |r.parts| == size && AtLeast(r.parts, min) && Sum(r.parts) == sum
  {
    if size < 0 {
      return Failed(NegativeSize);
    }
    if size == 0 && sum != 0 {
      return Failed(EmptyWithSum);
    }
    if min * size > sum {
      return Failed(SumTooSmall);
    }
    if size == 0 && sum == 0 {
      return Made([]);
    }
    var rest := sum - min * size;
    var d := Distinct(size - 1, 1, rest + size - 1, dense, draws, choices);
    if d.None? {
      return Failed(DistinctFailed);
    }
    ghost var marks := Ordered(d.value);
    ghost var end := rest + size;
    OrderedIncreasing(d.value, 0, end);
    PartsCompose(0, marks, end, min);
    var result := Gaps(size, rest, min, d.value);
    r := SelfCheck(size, sum, min, result);
  }

  lemma PartsFromSeptums(marks: seq<int>, end: int, min: int, result: seq<int>)
    requires |result| == |marks| + 1
    requires forall i | 0 <= i < |result| :: result[i] == Gap([0] + marks, end, i) + min
    ensures result == Parts(0, marks, end, min)
  {
    hide Parts, Gap;
    PartsAt(0, marks, end, min, 0);
    forall i: nat | i <= |marks| ensures Parts(0, marks, end, min)[i] == result[i] {
      PartsAt(0, marks, end, min, i);
    }
  }

  lemma SeptumsAre(d: seq<int>, last: int)
    requires InRange(d, 1, last)
    ensures Sort([0] + d, Identity) == [0] + Ordered(d) && |Ordered(d)| == |d|
  {
    SortFirst(0, d);
    SortSorts(d, Identity);
  }

  /** The gaps between separators, the last one up to `last` included. */
  method Differences(septums: seq<int>, last: int) returns (result: array<int>)
    requires septums != []
    ensures fresh(result) && result.Length == |septums|
    ensures forall k | 0 <= k < |septums| :: result[k] == Gap(septums, last + 1, k)
  {
    var size := |septums|;
    result := new int[size];
    for i := 0 to size - 1
      invariant forall k | 0 <= k < i :: result[k] == Gap(septums, last + 1, k)
    {
      result[i] := septums[i + 1] - septums[i] - 1;
    }
    result[size - 1] := last - septums[size - 1];
  }

  method AddToEach(a: array<int>, min: int)
    modifies a
    ensures forall k | 0 <= k < a.Length :: a[k] == old(a[k]) + min
  {
    for i := 0 to a.Length
      invariant forall k | 0 <= k < i :: a[k] == old(a[k]) + min
      invariant forall k | i <= k < a.Length :: a[k] == old(a[k])
    {
      a[i] := a[i] + min;
    }
  }

  /** From the separators to the parts. */
  method Gaps(size: int, rest: int, min: int, d: seq<int>) returns (r: seq<int>)
    requires |d| == size - 1 && InRange(d, 1, rest + size - 1)
    ensures r == Parts(0, Ordered(d), rest + size, min)
  {
    SeptumsAre(d, rest + size - 1);
    var septums := Sort([0] + d, Identity);
    var result := Differences(septums, rest + size - 1);
    AddToEach(result, min);
    assert septums == [0] + Ordered(d);
    hide *;
    PartsFromSeptums(Ordered(d), rest + size, min, result[..]);
    r := result[..];
  }

  /** The three final checks of `partition`. */
  method SelfCheck(size: int, sum: int, min: int, parts: seq<int>) returns (r: PartitionResult)
    requires parts != []
    ensures r == if Sum(parts) != sum then Failed(WrongSum)
                 else if !AtLeast(parts, min) then Failed(PartTooSmall)
                 else if |parts| != size then Failed(WrongSize)
                 else Made(parts)
  {
    var resultSum, least := 0, parts[0];
    for i := 0 to |parts|
      invariant resultSum == Sum(parts[..i])
      invariant least in parts && forall k | 0 <= k < i :: least <= parts[k]
    {
      assert parts[..i + 1] == parts[..i] + [parts[i]];
      SumSnoc(parts[..i], parts[i]);
      resultSum := resultSum + parts[i];
      if parts[i] < least {
        least := parts[i];
      }
    }
    assert parts[..|parts|] == parts;
    if resultSum != sum {
      return Failed(WrongSum);
    }
    if least < min {
      return Failed(PartTooSmall);
    }
    if |parts| != size {
      return Failed(WrongSize);
    }
    return Made(parts);
  }
}
