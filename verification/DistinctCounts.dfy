/** How many random choices lead to each result of `distinct` and `partition`
    (support/testlib.h:1186-1222, 1240-1281): in the dense branch always equally many. */
module DistinctCounts {
  import opened Bytes
  import opened Permutations
  import opened Partitions

  function Factorial(n: nat): nat { if n == 0 then 1 else n * Factorial(n - 1) }

  // ------------------------------------------------------------ arrangements

  ghost function Members(q: seq<int>): set<int> { set x | x in q }

  /** The orders in which a set can be written down. */
  ghost function Arrangements(vals: set<int>): set<seq<int>>
    decreases |vals|
  {
    if vals == {} then {[]} else ArrangedFrom(vals, vals)
  }

  /** Those that begin with one of `heads`. */
  ghost function ArrangedFrom(vals: set<int>, heads: set<int>): set<seq<int>>
    requires heads <= vals
    decreases |vals|, 0, |heads|
  {
    set x, q | x in heads && q in Arrangements(vals - {x}) :: [x] + q
  }

  lemma MembersCons(x: int, q: seq<int>)
    ensures Members([x] + q) == Members(q) + {x}
    ensures NoDuplicates([x] + q) <==> NoDuplicates(q) && x !in q
  {
    var r := [x] + q;
    assert r[1..] == q;
    if NoDuplicates(q) && x !in q {
      forall i, j | 0 <= i < j < |r| ensures r[i] != r[j] { assert r[j] == q[j - 1]; }
    }
    if NoDuplicates(r) {
      forall i, j | 0 <= i < j < |q| ensures q[i] != q[j] { assert r[i + 1] == q[i] && r[j + 1] == q[j]; }
      forall i | 0 <= i < |q| ensures q[i] != x { assert r[i + 1] == q[i] && r[0] == x; }
    }
  }

  lemma {:induction false} ArrangementsAre(vals: set<int>, q: seq<int>)
    ensures q in Arrangements(vals) <==> NoDuplicates(q) && Members(q) == vals
    decreases |q|
  {
    hide NoDuplicates;
    if q == [] {
      EmptyDistinct();
      if vals != {} { assert [] !in ArrangedFrom(vals, vals); }
    } else {
      var x, t := q[0], q[1..];
      assert q == [x] + t;
      MembersCons(x, t);
      ArrangementsAre(vals - {x}, t);
      hide Members;
      if q in Arrangements(vals) && vals != {} {
        assert q in ArrangedFrom(vals, vals);
        var y, r :| y in vals && r in Arrangements(vals - {y}) && q == [y] + r;
        assert y == x && r == t;
      }
      if x in vals && t in Arrangements(vals - {x}) {
        assert [x] + t in ArrangedFrom(vals, vals);
      }
      if vals == {} {
        assert x in Members(q) by { MembersCons(x, t); }
      }
    }
  }

  lemma EmptyDistinct()
    ensures NoDuplicates([]) && Members([]) == {}
  {
  }

  lemma {:induction false} PrependSize(x: int, s: set<seq<int>>)
    ensures |set q | q in s :: [x] + q| == |s|
  {
    var r := set q | q in s :: [x] + q;
    if s == {} {
      assert r == {};
    } else {
      var p :| p in s;
      PrependSize(x, s - {p});
      var r' := set q | q in s - {p} :: [x] + q;
      forall q | q in s - {p} ensures [x] + q != [x] + p {
        assert ([x] + q)[1..] == q && ([x] + p)[1..] == p;
      }
      assert r == r' + {[x] + p};
    }
  }

  lemma SomeMember<T>(s: set<T>) returns (x: T)
    requires s != {}
    ensures x in s
  {
    x :| x in s;
  }

  lemma {:induction false} HeadsCount(vals: set<int>, heads: set<int>)
    requires heads <= vals
    ensures |ArrangedFrom(vals, heads)| == |heads| * (if heads == {} then 0 else Factorial(|vals| - 1))
    decreases |vals|, 0, |heads|
  {
    hide *;
    if heads == {} {
      NoHeads(vals);
    } else {
      var x := SomeMember(heads);
      var rest := heads - {x};
      HeadsCount(vals, rest);
      ArrangementsCount(vals - {x});
      OneHead(vals, rest, x);
      assert rest + {x} == heads;
      Times(|rest|, Factorial(|vals| - 1));
      assert rest == {} ==> |rest| == 0;
    }
  }

  lemma NoHeads(vals: set<int>)
    ensures |ArrangedFrom(vals, {})| == 0
  {
    assert ArrangedFrom(vals, {}) == {};
  }

  lemma Times(a: nat, b: nat)
    ensures (a + 1) * b == a * b + b
  {
  }

  lemma OneHead(vals: set<int>, rest: set<int>, x: int)
    requires rest + {x} <= vals && x !in rest
    ensures |ArrangedFrom(vals, rest + {x})| == |ArrangedFrom(vals, rest)| + |Arrangements(vals - {x})|
  {
    var a := set q | q in Arrangements(vals - {x}) :: [x] + q;
    PrependSize(x, Arrangements(vals - {x}));
    hide Arrangements;
    assert ArrangedFrom(vals, rest + {x}) == ArrangedFrom(vals, rest) + a;
    forall p | p in ArrangedFrom(vals, rest) ensures p != [] && p[0] in rest { }
    forall p | p in a ensures p != [] && p[0] == x { }
    assert ArrangedFrom(vals, rest) !! a;
  }

  /** A set of n values has n! orders. */
  lemma {:induction false} ArrangementsCount(vals: set<int>)
    ensures |Arrangements(vals)| == Factorial(|vals|)
    decreases |vals|, 1
  {
    if vals != {} { HeadsCount(vals, vals); }
  }

  // ------------------------------------------------------------- the fronts

  predicate Inside(x: int, first: int, n: nat) { first <= x < first + n }

  ghost function Range(first: int, n: nat): set<int> { set x | first <= x < first + n && Inside(x, first, n) }

  lemma {:induction false} RangeSize(first: int, n: nat)
    ensures |Range(first, n)| == n
  {
    if n > 0 {
      RangeSize(first, n - 1);
      assert Range(first, n) == Range(first, n - 1) + {first + n - 1};
    } else {
      assert Range(first, 0) == {};
    }
  }

  lemma {:induction false} MembersSize(q: seq<int>)
    requires NoDuplicates(q)
    ensures |Members(q)| == |q|
  {
    if q != [] {
      assert q == [q[0]] + q[1..];
      MembersCons(q[0], q[1..]);
      MembersSize(q[1..]);
    } else {
      EmptyDistinct();
    }
  }

  /** A permutation lists every value of the range once. */
  lemma PermLists(first: int, p: seq<int>)
    ensures IsPerm(first, p) <==> NoDuplicates(p) && Members(p) == Range(first, |p|)
  {
    if IsPerm(first, p) {
      PermDistinct(first, p);
      forall x ensures x in Members(p) <==> x in Range(first, |p|) { PermMember(first, p, x); }
    }
    if NoDuplicates(p) && Members(p) == Range(first, |p|) {
      var iota := Iota(first, |p|);
      forall x ensures multiset(p)[x] == multiset(iota)[x] {
        OneEach(p, x);
        IotaOnce(first, |p|, x);
        IotaMember(first, |p|, x);
        assert x in Members(p) <==> x in Range(first, |p|);
        assert (x in p <==> x in multiset(p)) && (x in iota <==> x in multiset(iota));
      }
      assert multiset(p) == multiset(iota);
    }
  }

  lemma MembersConcat(a: seq<int>, b: seq<int>)
    ensures Members(a + b) == Members(a) + Members(b)
    ensures NoDuplicates(a + b) <==> NoDuplicates(a) && NoDuplicates(b) && Members(a) !! Members(b)
  {
    var s := a + b;
    if NoDuplicates(s) {
      forall i, j | 0 <= i < j < |a| ensures a[i] != a[j] { assert s[i] == a[i] && s[j] == a[j]; }
      forall i, j | 0 <= i < j < |b| ensures b[i] != b[j] { assert s[|a| + i] == b[i] && s[|a| + j] == b[j]; }
      forall i, j | 0 <= i < |a| && 0 <= j < |b| ensures a[i] != b[j] { assert s[i] == a[i] && s[|a| + j] == b[j]; }
    }
    if NoDuplicates(a) && NoDuplicates(b) && Members(a) !! Members(b) {
      forall i, j | 0 <= i < j < |s| ensures s[i] != s[j] {
        if i < |a| <= j { assert s[i] in Members(a) && s[j] in Members(b); }
      }
    }
  }

  /** What may stand behind a front. */
  ghost function Rests(first: int, n: nat, front: seq<int>): set<seq<int>> {
    Arrangements(Range(first, n) - Members(front))
  }

  lemma RestCompletes(first: int, n: nat, front: seq<int>, q: seq<int>)
    requires NoDuplicates(front) && Members(front) <= Range(first, n)
    ensures q in Rests(first, n, front) <==> |front + q| == n && IsPerm(first, front + q)
  {
    ArrangementsAre(Range(first, n) - Members(front), q);
    PermLists(first, front + q);
    MembersConcat(front, q);
    RangeSize(first, n);
    hide NoDuplicates, IsPerm, Range, Arrangements;
    if q in Rests(first, n, front) {
      assert Members(front + q) == Range(first, n);
      MembersSize(front + q);
    }
    if |front + q| == n && IsPerm(first, front + q) {
      assert Members(q) == Range(first, n) - Members(front);
    }
  }

  /** The choice sequences of `perm` whose permutation begins with `front`. */
  ghost function ChoicesFor(first: int, n: nat, front: seq<int>): set<seq<nat>> {
    set q | q in Rests(first, n, front) && IsPerm(first, front + q) :: Unshuffled(first, front + q)
  }

  lemma ChoicesForAre(first: int, n: nat, front: seq<int>, c: seq<nat>)
    requires NoDuplicates(front) && Members(front) <= Range(first, n)
    ensures c in ChoicesFor(first, n, front) <==>
            Legal(c) && |c| == n && front <= Shuffled(first, c)
  {
    hide Rests, IsPerm, Unshuffled, Range, NoDuplicates, Members;
    if c in ChoicesFor(first, n, front) {
      var q :| q in Rests(first, n, front) && IsPerm(first, front + q) && c == Unshuffled(first, front + q);
      RestCompletes(first, n, front, q);
      ShuffledReaches(first, front + q);
      assert |c| == n;
    }
    if Legal(c) && |c| == n && front <= Shuffled(first, c) {
      var p := Shuffled(first, c);
      var q := p[|front|..];
      assert p == front + q;
      ShuffledOnce(first, c);
      RestCompletes(first, n, front, q);
    }
  }

  lemma {:induction false} ImageSize(s: set<seq<int>>, f: map<seq<int>, seq<nat>>)
    requires f.Keys == s && forall p, q | p in s && q in s && f[p] == f[q] :: p == q
    ensures |f.Values| == |s|
  {
    if s == {} {
      assert f.Values == {};
    } else {
      var p := SomeMember(s);
      var g := f - {p};
      ImageSize(s - {p}, g);
      assert f.Values == g.Values + {f[p]};
      assert f[p] !in g.Values;
    }
  }

  /** Equal likelihood in the dense branch of `distinct`: each sequence of distinct values of the
      range is the front of the permutation for exactly (n - size)! choice sequences. */
  lemma DistinctUniform(first: int, n: nat, front: seq<int>)
    requires NoDuplicates(front) && InRange(front, first, first + n - 1)
    ensures |front| <= n && |ChoicesFor(first, n, front)| == Factorial(n - |front|)
    ensures forall c :: c in ChoicesFor(first, n, front) <==> Legal(c) && |c| == n && front <= Shuffled(first, c)
  {
    assert Members(front) <= Range(first, n);
    forall c ensures c in ChoicesFor(first, n, front) <==> Legal(c) && |c| == n && front <= Shuffled(first, c) {
      ChoicesForAre(first, n, front, c);
    }
    DistinctCount(first, n, front);
  }

  lemma DistinctCount(first: int, n: nat, front: seq<int>)
    requires NoDuplicates(front) && Members(front) <= Range(first, n)
    ensures |front| <= n && |ChoicesFor(first, n, front)| == Factorial(n - |front|)
  {
    var rests := Rests(first, n, front);
    RestsCount(first, n, front);
    forall q | q in rests ensures IsPerm(first, front + q) { RestCompletes(first, n, front, q); }
    hide Rests, IsPerm, Unshuffled, Range, NoDuplicates, Members, Factorial;
    var f := map q | q in rests && IsPerm(first, front + q) :: Unshuffled(first, front + q);
    assert f.Keys == rests;
    forall p, q | p in rests && q in rests && f[p] == f[q] ensures p == q {
      ShuffledReaches(first, front + p);
      ShuffledReaches(first, front + q);
      assert front + p == front + q;
      assert p == (front + p)[|front|..] && q == (front + q)[|front|..];
    }
    ImageSize(rests, f);
    assert f.Values == ChoicesFor(first, n, front);
  }

  lemma RestsCount(first: int, n: nat, front: seq<int>)
    requires NoDuplicates(front) && Members(front) <= Range(first, n)
    ensures |front| <= n && |Rests(first, n, front)| == Factorial(n - |front|)
  {
    var rest := Range(first, n) - Members(front);
    ArrangementsCount(rest);
    MembersSize(front);
    RangeSize(first, n);
    hide Arrangements, Factorial, Range, Members, NoDuplicates;
    assert Range(first, n) == rest + Members(front);
    assert |Range(first, n)| == |rest| + |Members(front)|;
  }

  // ------------------------------------------------------------- partitions

  /** Strictly increasing sequences with the same members are the same. */
  lemma {:induction false} IncreasingSame(prev: int, a: seq<int>, b: seq<int>, end: int)
    requires Increasing(prev, a, end) && Increasing(prev, b, end) && Members(a) == Members(b)
    ensures a == b
    decreases |a|
  {
    IncreasingMeans(prev, a, end);
    IncreasingMeans(prev, b, end);
    MembersEmpty(a);
    MembersEmpty(b);
    if a != [] {
      assert a[0] in Members(b) && b[0] in Members(a);
      assert a[0] == b[0];
      assert a == [a[0]] + a[1..] && b == [b[0]] + b[1..];
      SmallestFirst(a);
      SmallestFirst(b);
      IncreasingSame(a[0], a[1..], b[1..], end);
    }
  }

  lemma MembersEmpty(a: seq<int>)
    ensures a == [] <==> Members(a) == {}
  {
    if a != [] { assert a[0] in Members(a); }
  }

  lemma SmallestFirst(a: seq<int>)
    requires a != [] && forall i, j | 0 <= i < j < |a| :: a[i] < a[j]
    ensures Members(a[1..]) == Members(a) - {a[0]}
  {
    assert a == [a[0]] + a[1..];
    MembersCons(a[0], a[1..]);
    forall i | 0 <= i < |a[1..]| ensures a[1..][i] != a[0] { assert a[1..][i] == a[i + 1]; }
  }

  lemma OrderedMembers(d: seq<int>)
    ensures Members(Ordered(d)) == Members(d)
  {
    SortSorts(d, Identity);
    forall x ensures x in Members(Ordered(d)) <==> x in Members(d) { SameMembers(Ordered(d), d, x); }
  }

  /** The separators of a partition into at least two parts, and the last place they may take. */
  function LastMark(parts: seq<int>, sum: int, min: int): int { sum - min * |parts| + |parts| - 1 }

  /** Distinct separators give a partition exactly when they are its own separators in some order. */
  lemma PartsOfSeparators(parts: seq<int>, sum: int, min: int, d: seq<int>)
    requires parts != [] && AtLeast(parts, min) && Sum(parts) == sum
    requires NoDuplicates(d) && InRange(d, 1, LastMark(parts, sum, min)) && |d| == |parts| - 1
    ensures Parts(0, Ordered(d), LastMark(parts, sum, min) + 1, min) == parts <==>
            Members(d) == Members(Marks(0, parts, min))
  {
    var end := LastMark(parts, sum, min) + 1;
    var marks := Marks(0, parts, min);
    MarksSeparate(0, parts, end, min);
    IncreasingBound(0, marks, end);
    OrderedIncreasing(d, 0, end);
    OrderedMembers(d);
    PartsCompose(0, Ordered(d), end, min);
    hide *;
    if Members(d) == Members(marks) { IncreasingSame(0, Ordered(d), marks, end); }
  }

  lemma {:induction false} IncreasingBound(prev: int, s: seq<int>, end: int)
    requires Increasing(prev, s, end)
    ensures prev < end
    decreases |s|
  {
    if s != [] { IncreasingBound(s[0], s[1..], end); }
  }

  /** The choice sequences of `perm` that lead to a partition. */
  ghost function PartitionChoices(parts: seq<int>, last: nat, min: int): set<seq<nat>> {
    set f, c | f in Arrangements(Members(Marks(0, parts, min))) && c in ChoicesFor(1, last, f) :: c
  }

  /** Every choice sequence shows the front it belongs to. */
  ghost predicate Fronts(fronts: set<seq<int>>, last: nat, size: nat, c: nat) {
    && (forall f | f in fronts :: |ChoicesFor(1, last, f)| == c)
    && (forall f, x | f in fronts && x in ChoicesFor(1, last, f) ::
          Legal(x) && size <= |x| && Shuffled(1, x)[..size] == f)
  }

  ghost function UnionOf(fronts: set<seq<int>>, last: nat): set<seq<nat>> {
    set f, x | f in fronts && x in ChoicesFor(1, last, f) :: x
  }

  lemma UnionMore(rest: set<seq<int>>, f: seq<int>, last: nat, size: nat, c: nat)
    requires f !in rest && Fronts(rest + {f}, last, size, c)
    ensures |UnionOf(rest + {f}, last)| == |UnionOf(rest, last)| + c
  {
    hide ChoicesFor, Legal, Shuffled;
    var others := UnionOf(rest, last);
    assert UnionOf(rest + {f}, last) == others + ChoicesFor(1, last, f);
    assert others !! ChoicesFor(1, last, f);
  }

  /** The union of equally large sets that share nothing. */
  lemma {:induction false} UnionSize(fronts: set<seq<int>>, last: nat, size: nat, c: nat)
    requires Fronts(fronts, last, size, c)
    ensures |UnionOf(fronts, last)| == |fronts| * c
  {
    hide ChoicesFor, Legal, Shuffled;
    if fronts == {} {
      assert UnionOf(fronts, last) == {};
    } else {
      var f := SomeMember(fronts);
      var rest := fronts - {f};
      UnionSize(rest, last, size, c);
      assert rest + {f} == fronts;
      UnionMore(rest, f, last, size, c);
      hide *;
      assert |fronts| == |rest| + 1;
      Times(|rest|, c);
    }
  }

  lemma OneOrder(marks: seq<int>, last: nat, f: seq<int>)
    requires NoDuplicates(marks) && InRange(marks, 1, last) && f in Arrangements(Members(marks))
    ensures NoDuplicates(f) && Members(f) <= Range(1, last) && |f| == |marks| <= last
    ensures |ChoicesFor(1, last, f)| == Factorial(last - |marks|)
  {
    hide *;
    MembersRange(marks, last);
    ArrangementsAre(Members(marks), f);
    MembersSize(f);
    MembersSize(marks);
    DistinctCount(1, last, f);
  }

  lemma OneChoice(f: seq<int>, last: nat, x: seq<nat>)
    requires NoDuplicates(f) && Members(f) <= Range(1, last) && x in ChoicesFor(1, last, f)
    ensures Legal(x) && |f| <= |x| && Shuffled(1, x)[..|f|] == f
  {
    hide *;
    ChoicesForAre(1, last, f, x);
  }

  /** The fronts that are orders of the separators. */
  lemma OrdersAreFronts(marks: seq<int>, last: nat)
    requires NoDuplicates(marks) && InRange(marks, 1, last)
    ensures |marks| <= last
    ensures Fronts(Arrangements(Members(marks)), last, |marks|, Factorial(last - |marks|))
  {
    hide Arrangements, Members, Factorial, NoDuplicates, InRange, Range, Shuffled, Legal, ChoicesFor;
    MembersRange(marks, last);
    MembersSizeBelow(marks, last);
    var fronts := Arrangements(Members(marks));
    forall f | f in fronts ensures |ChoicesFor(1, last, f)| == Factorial(last - |marks|) {
      OneOrder(marks, last, f);
    }
    forall f, x | f in fronts && x in ChoicesFor(1, last, f)
      ensures Legal(x) && |marks| <= |x| && Shuffled(1, x)[..|marks|] == f
    {
      OneOrder(marks, last, f);
      OneChoice(f, last, x);
    }
  }

  /** Equal likelihood of partitions in the dense branch: each partition of a sum into `size` parts
      of at least `min` comes from exactly (size - 1)! (last - size + 1)! choice sequences. */
  lemma PartitionUniform(parts: seq<int>, sum: int, min: int)
    requires |parts| >= 2 && AtLeast(parts, min) && Sum(parts) == sum
    ensures var last, size := LastMark(parts, sum, min), |parts|;
      && last >= size - 1
      && |PartitionChoices(parts, last, min)| == Factorial(size - 1) * Factorial(last - (size - 1))
  {
    hide *;
    var last := LastMark(parts, sum, min);
    var marks := Marks(0, parts, min);
    MarksValid(parts, sum, min);
    var fronts := Arrangements(Members(marks));
    ChoicesAreUnion(parts, last, min);
    OrdersAreFronts(marks, last);
    ArrangementsCount(Members(marks));
    MembersSize(marks);
    UnionSize(fronts, last, |marks|, Factorial(last - |marks|));
  }

  lemma ChoicesAreUnion(parts: seq<int>, last: nat, min: int)
    ensures PartitionChoices(parts, last, min) == UnionOf(Arrangements(Members(Marks(0, parts, min))), last)
  {
    hide Arrangements, Members, Marks, ChoicesFor;
  }

  lemma MarksValid(parts: seq<int>, sum: int, min: int)
    requires parts != [] && AtLeast(parts, min) && Sum(parts) == sum
    ensures var marks := Marks(0, parts, min);
      NoDuplicates(marks) && InRange(marks, 1, LastMark(parts, sum, min)) && |marks| == |parts| - 1
    ensures LastMark(parts, sum, min) >= 0
  {
    var end := LastMark(parts, sum, min) + 1;
    MarksSeparate(0, parts, end, min);
    PartsLength(0, Marks(0, parts, min), end, min);
    IncreasingMeans(0, Marks(0, parts, min), end);
    IncreasingBound(0, Marks(0, parts, min), end);
  }

  lemma MembersRange(d: seq<int>, last: nat)
    requires InRange(d, 1, last)
    ensures Members(d) <= Range(1, last)
  {
  }

  lemma MembersSizeBelow(d: seq<int>, last: nat)
    requires NoDuplicates(d) && Members(d) <= Range(1, last)
    ensures |d| <= last
  {
    RestsCount(1, last, d);
  }

  /** A choice sequence is among those exactly when `partition` makes these parts of it. */
  lemma PartitionChoicesAre(parts: seq<int>, sum: int, min: int, c: seq<nat>)
    requires |parts| >= 2 && AtLeast(parts, min) && Sum(parts) == sum
    ensures var last := LastMark(parts, sum, min);
      last >= |parts| - 1 && (c in PartitionChoices(parts, last, min) <==>
        Legal(c) && |c| == last
        && Parts(0, Ordered(Shuffled(1, c)[..|parts| - 1]), last + 1, min) == parts)
  {
    var last, marks := LastMark(parts, sum, min), Marks(0, parts, min);
    MarksValid(parts, sum, min);
    MembersRange(marks, last);
    MembersSizeBelow(marks, last);
    if c in PartitionChoices(parts, last, min) {
      var f :| f in Arrangements(Members(marks)) && c in ChoicesFor(1, last, f);
      hide *;
      ChosenGives(parts, sum, min, f, c);
    }
    if Legal(c) && |c| == last && Parts(0, Ordered(Shuffled(1, c)[..|parts| - 1]), last + 1, min) == parts {
      GivingChosen(parts, sum, min, c);
      var f := Shuffled(1, c)[..|parts| - 1];
      hide Arrangements, Members, ChoicesFor, Marks, Legal, Shuffled, Parts, Ordered;
      assert f in Arrangements(Members(marks)) && c in ChoicesFor(1, last, f);
    }
  }

  lemma ChosenGives(parts: seq<int>, sum: int, min: int, f: seq<int>, c: seq<nat>)
    requires |parts| >= 2 && AtLeast(parts, min) && Sum(parts) == sum && LastMark(parts, sum, min) >= 0
    requires f in Arrangements(Members(Marks(0, parts, min)))
    requires c in ChoicesFor(1, LastMark(parts, sum, min), f)
    ensures var last := LastMark(parts, sum, min);
      Legal(c) && |c| == last && last >= |parts| - 1
      && Parts(0, Ordered(Shuffled(1, c)[..|parts| - 1]), last + 1, min) == parts
  {
    hide *;
    var last, marks := LastMark(parts, sum, min), Marks(0, parts, min);
    MarksValid(parts, sum, min);
    MembersRange(marks, last);
    MembersSizeBelow(marks, last);
    ArrangementsAre(Members(marks), f);
    MembersSize(f);
    MembersSize(marks);
    ChoicesForAre(1, last, f, c);
    FrontInRange(f, marks, last);
    PartsOfSeparators(parts, sum, min, f);
    assert Shuffled(1, c)[..|parts| - 1] == f;
  }

  lemma GivingChosen(parts: seq<int>, sum: int, min: int, c: seq<nat>)
    requires |parts| >= 2 && AtLeast(parts, min) && Sum(parts) == sum
    requires Legal(c) && |c| == LastMark(parts, sum, min) >= |parts| - 1
    requires Parts(0, Ordered(Shuffled(1, c)[..|parts| - 1]), LastMark(parts, sum, min) + 1, min) == parts
    ensures var f := Shuffled(1, c)[..|parts| - 1];
      f in Arrangements(Members(Marks(0, parts, min))) && c in ChoicesFor(1, LastMark(parts, sum, min), f)
  {
    var last := LastMark(parts, sum, min);
    var p := Shuffled(1, c);
    var d := p[..|parts| - 1];
    ShuffledIsPerm(1, c);
    PermDistinct(1, p);
    FrontDistinct(p, |parts| - 1, last);
    hide *;
    PartsOfSeparators(parts, sum, min, d);
    ArrangementsAre(Members(Marks(0, parts, min)), d);
    MembersRange(d, last);
    ChoicesForAre(1, last, d, c);
  }

  lemma FrontDistinct(p: seq<int>, size: nat, last: nat)
    requires NoDuplicates(p) && InRange(p, 1, last) && size <= |p|
    ensures NoDuplicates(p[..size]) && InRange(p[..size], 1, last)
  {
  }

  lemma FrontInRange(f: seq<int>, marks: seq<int>, last: nat)
    requires Members(f) == Members(marks) && InRange(marks, 1, last)
    ensures InRange(f, 1, last)
  {
    forall i | 0 <= i < |f| ensures 1 <= f[i] <= last {
      assert f[i] in Members(f);
      assert f[i] in marks;
    }
  }
}
