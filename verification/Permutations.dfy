/** `random_t::perm` and `shuffle` (support/testlib.h:1163-1177, 4973-4978). The random
    source is an arbitrary sequence of choices: choice `i` is what `next(i + 1)` returned. */
module Permutations {
  import opened Bytes

  predicate Legal(choices: seq<nat>) {
    forall i | 0 <= i < |choices| :: choices[i] <= i
  }

  function Swapped<T>(s: seq<T>, i: nat, j: nat): seq<T>
    requires i < |s| && j < |s|
  {
    s[i := s[j]][j := s[i]]
  }

  function Iota(first: int, n: nat): seq<int> {
    if n == 0 then [] else Iota(first, n - 1) + [first + n - 1]
  }

  /** A rearrangement of first, first + 1, …, first + size - 1. */
  ghost predicate IsPerm(first: int, p: seq<int>) {
    multiset(p) == multiset(Iota(first, |p|))
  }

  /** The permutation that the choices determine: the new largest value takes the place of
      the chosen element, which goes last. */
  function Shuffled(first: int, choices: seq<nat>): (p: seq<int>)
    requires Legal(choices)
    ensures |p| == |choices|
  {
    if choices == [] then []
    else
      var n := |choices| - 1;
      Swapped(Shuffled(first, choices[..n]) + [first + n], n, choices[n])
  }

  lemma IotaMember(first: int, n: nat, x: int)
    ensures |Iota(first, n)| == n
    ensures x in Iota(first, n) <==> first <= x < first + n
  {
  }

  lemma SwapKeeps<T>(s: seq<T>, i: nat, j: nat)
    requires i < |s| && j < |s|
    ensures multiset(Swapped(s, i, j)) == multiset(s)
    ensures |Swapped(s, i, j)| == |s|
    ensures Swapped(Swapped(s, i, j), i, j) == s
  {
  }

  lemma SwappedAt<T>(s: seq<T>, i: nat, j: nat, k: nat)
    requires i < |s| && j < |s| && k < |s|
    ensures |Swapped(s, i, j)| == |s|
    ensures Swapped(s, i, j)[k] == if k == i then s[j] else if k == j then s[i] else s[k]
  {
  }

  lemma IotaGrows(first: int, q: seq<int>)
    requires IsPerm(first, q)
    ensures multiset(q + [first + |q|]) == multiset(Iota(first, |q| + 1))
  {
    var x := first + |q|;
    assert multiset(q + [x]) == multiset(q) + multiset([x]);
    assert multiset(Iota(first, |q|) + [x]) == multiset(Iota(first, |q|)) + multiset([x]);
    assert Iota(first, |q| + 1) == Iota(first, |q|) + [x];
  }

  lemma IotaShrinks(first: int, q: seq<int>)
    requires multiset(q + [first + |q|]) == multiset(Iota(first, |q| + 1))
    ensures IsPerm(first, q)
  {
    var x := first + |q|;
    assert multiset(q + [x]) == multiset(q) + multiset([x]);
    assert multiset(Iota(first, |q|) + [x]) == multiset(Iota(first, |q|)) + multiset([x]);
    assert Iota(first, |q| + 1) == Iota(first, |q|) + [x];
    assert multiset(q) == multiset(q) + multiset([x]) - multiset([x]);
    assert multiset(Iota(first, |q|)) == multiset(Iota(first, |q|)) + multiset([x]) - multiset([x]);
  }

  lemma PermMember(first: int, p: seq<int>, x: int)
    requires IsPerm(first, p)
    ensures x in p <==> first <= x < first + |p|
  {
    IotaMember(first, |p|, x);
    assert x in p <==> x in multiset(p);
    assert x in Iota(first, |p|) <==> x in multiset(Iota(first, |p|));
  }

  lemma {:induction false} ShuffledIsPerm(first: int, choices: seq<nat>)
    requires Legal(choices)
    ensures IsPerm(first, Shuffled(first, choices))
  {
    hide Swapped, Iota;
    if choices != [] {
      var n := |choices| - 1;
      var q := Shuffled(first, choices[..n]);
      ShuffledIsPerm(first, choices[..n]);
      IotaGrows(first, q);
      SwapKeeps(q + [first + n], n, choices[n]);
    } else {
      assert Shuffled(first, choices) == [];
      IotaMember(first, 0, 0);
    }
  }

  /** What the last choice does: the largest value goes to the chosen place, the value that
      was there goes last, and every other value keeps its place. */
  lemma LastChoice(first: int, choices: seq<nat>, i: nat)
    requires Legal(choices) && i < |choices|
    ensures var n := |choices| - 1; var c := choices[n];
      var p, before := Shuffled(first, choices), Shuffled(first, choices[..n]);
      && p[c] == first + n
      && (c < n ==> p[n] == before[c])
      && (i < n && i != c ==> p[i] == before[i])
  {
    var n := |choices| - 1;
    SwappedAt(Shuffled(first, choices[..n]) + [first + n], n, choices[n], choices[n]);
    SwappedAt(Shuffled(first, choices[..n]) + [first + n], n, choices[n], n);
    SwappedAt(Shuffled(first, choices[..n]) + [first + n], n, choices[n], i);
  }

  /** What remains once the largest value is swapped back to the end and dropped. */
  function Undone(first: int, p: seq<int>): (q: seq<int>)
    requires p != [] && first + |p| - 1 in p
    ensures |q| == |p| - 1
  {
    Swapped(p, |p| - 1, IndexOf(p, first + |p| - 1))[..|p| - 1]
  }

  lemma UndoneExtends(first: int, p: seq<int>)
    requires p != [] && first + |p| - 1 in p
    ensures Undone(first, p) + [first + |p| - 1] == Swapped(p, |p| - 1, IndexOf(p, first + |p| - 1))
  {
    var n := |p| - 1;
    SwappedAt(p, n, IndexOf(p, first + n), n);
    SwapKeeps(p, n, IndexOf(p, first + n));
    hide Swapped, IndexOf;
  }

  lemma UndoneIsPerm(first: int, p: seq<int>)
    requires IsPerm(first, p) && p != []
    ensures first + |p| - 1 in p
    ensures IsPerm(first, Undone(first, p))
    ensures Undone(first, p) + [first + |p| - 1] == Swapped(p, |p| - 1, IndexOf(p, first + |p| - 1))
  {
    PermMember(first, p, first + |p| - 1);
    UndoneExtends(first, p);
    SwapKeeps(p, |p| - 1, IndexOf(p, first + |p| - 1));
    var q := Undone(first, p);
    hide Swapped, Iota, IndexOf, Undone;
    IotaShrinks(first, q);
  }

  /** The choices that lead to a permutation: where each largest value stands. */
  ghost function Unshuffled(first: int, p: seq<int>): (choices: seq<nat>)
    requires IsPerm(first, p)
    ensures |choices| == |p|
    decreases |p|
  {
    if p == [] then []
    else
      UndoneIsPerm(first, p);
      Unshuffled(first, Undone(first, p)) + [IndexOf(p, first + |p| - 1)]
  }

  /** Every permutation is reached … */
  lemma {:induction false} ShuffledReaches(first: int, p: seq<int>)
    requires IsPerm(first, p)
    ensures Legal(Unshuffled(first, p)) && Shuffled(first, Unshuffled(first, p)) == p
    decreases |p|
  {
    hide Swapped, Iota, IsPerm, Undone;
    if p != [] {
      UndoneIsPerm(first, p);
      var n := |p| - 1;
      var q := Undone(first, p);
      var k := IndexOf(p, first + n);
      var choices := Unshuffled(first, p);
      ShuffledReaches(first, q);
      assert choices == Unshuffled(first, q) + [k];
      assert choices[..n] == Unshuffled(first, q) && choices[n] == k;
      SwapKeeps(p, n, k);
    }
  }

  /** … and by one choice sequence only. */
  lemma {:induction false} ShuffledOnce(first: int, choices: seq<nat>)
    requires Legal(choices)
    ensures IsPerm(first, Shuffled(first, choices))
    ensures Unshuffled(first, Shuffled(first, choices)) == choices
  {
    hide Swapped, Iota, IsPerm;
    ShuffledIsPerm(first, choices);
    if choices != [] {
      var n := |choices| - 1;
      var before := Shuffled(first, choices[..n]);
      var p := Shuffled(first, choices);
      ShuffledIsPerm(first, choices[..n]);
      UndoneIsPerm(first, p);
      LargestAt(first, before, choices[n]);
      ShuffledOnce(first, choices[..n]);
      assert choices == choices[..n] + [choices[n]];
    }
  }

  lemma LargestAt(first: int, before: seq<int>, c: nat)
    requires IsPerm(first, before) && c <= |before|
    ensures var p := Swapped(before + [first + |before|], |before|, c);
      first + |before| in p && IndexOf(p, first + |before|) == c && Undone(first, p) == before
  {
    var n := |before|;
    var x := first + n;
    PermMember(first, before, x);
    var p := Swapped(before + [x], n, c);
    SwappedAt(before + [x], n, c, c);
    var k := IndexOf(p, x);
    SwappedAt(before + [x], n, c, k);
    SwapKeeps(before + [x], n, c);
    hide Swapped, Iota, IsPerm, IndexOf;
    assert k == c by {
      if k != c {
        assert false;
      }
    }
  }

  /** `perm(size, first)`: legal choice sequences and permutations correspond one to one. */
  lemma PermBijection(first: int, choices: seq<nat>, p: seq<int>)
    requires Legal(choices) && IsPerm(first, p)
    ensures IsPerm(first, Shuffled(first, choices)) && Legal(Unshuffled(first, p))
    ensures Shuffled(first, choices) == p <==> choices == Unshuffled(first, p)
  {
    ShuffledIsPerm(first, choices);
    ShuffledReaches(first, p);
    ShuffledOnce(first, choices);
  }

  // ---------------------------------------------------------------- shuffle

  /** The same swaps on any sequence, from left to right. */
  function Rearranged<T>(s: seq<T>, choices: seq<nat>): (r: seq<T>)
    requires Legal(choices) && |choices| <= |s|
    ensures |r| == |s|
  {
    if choices == [] then s
    else
      var n := |choices| - 1;
      Swapped(Rearranged(s, choices[..n]), n, choices[n])
  }

  /** `shuffle` puts at place `i` the element whose index `perm` would put there. */
  lemma {:induction false} RearrangedByPerm<T>(s: seq<T>, choices: seq<nat>)
    requires Legal(choices) && |choices| <= |s|
    ensures forall i | 0 <= i < |choices| ::
              0 <= Shuffled(0, choices)[i] < |choices| && Rearranged(s, choices)[i] == s[Shuffled(0, choices)[i]]
    ensures forall i | |choices| <= i < |s| :: Rearranged(s, choices)[i] == s[i]
    ensures multiset(Rearranged(s, choices)) == multiset(s)
  {
    hide Swapped;
    if choices != [] {
      var n := |choices| - 1;
      var r := Rearranged(s, choices[..n]);
      var q := Shuffled(0, choices[..n]) + [n];
      RearrangedByPerm(s, choices[..n]);
      SwapKeeps(r, n, choices[n]);
      forall i: nat | i < |s|
        ensures i < |choices| ==> 0 <= Shuffled(0, choices)[i] < |choices|
        ensures i < |choices| ==> Rearranged(s, choices)[i] == s[Shuffled(0, choices)[i]]
        ensures i >= |choices| ==> Rearranged(s, choices)[i] == s[i]
      {
        SwappedAt(r, n, choices[n], i);
        if i < |choices| { SwappedAt(q, n, choices[n], i); }
      }
    }
  }

  lemma {:induction false} IotaRearranged(first: int, size: nat, choices: seq<nat>)
    requires Legal(choices) && |choices| == size
    ensures |Iota(first, size)| == size
    ensures Rearranged(Iota(first, size), choices) == Shuffled(first, choices)
  {
    IotaMember(first, size, 0);
    if size > 0 {
      var n := size - 1;
      IotaRearranged(first, n, choices[..n]);
      IotaMember(first, n, 0);
      RearrangedExtend(Iota(first, n), first + n, choices[..n]);
    }
  }

  lemma {:induction false} RearrangedExtend<T>(s: seq<T>, x: T, choices: seq<nat>)
    requires Legal(choices) && |choices| <= |s|
    ensures Rearranged(s + [x], choices) == Rearranged(s, choices) + [x]
  {
    if choices != [] {
      RearrangedExtend(s, x, choices[..|choices| - 1]);
    }
  }

  lemma RearrangedStep<T>(s: seq<T>, choices: seq<nat>, i: nat)
    requires Legal(choices) && i < |choices| <= |s|
    ensures Rearranged(s, choices[..i + 1]) == Swapped(Rearranged(s, choices[..i]), i, choices[i])
    ensures i == 0 ==> Rearranged(s, choices[..i + 1]) == s
  {
    assert choices[..i + 1][..i] == choices[..i];
  }

  /** `shuffle(first, last)` */
  method ShuffleInPlace<T>(a: array<T>, choices: seq<nat>)
    requires Legal(choices) && |choices| == a.Length
    modifies a
    ensures a[..] == Rearranged(old(a[..]), choices)
  {
    hide Rearranged;
    ghost var was := a[..];
    assert choices[..a.Length] == choices;
    if a.Length == 0 {
      RearrangedNone(was, choices);
      return;
    }
    RearrangedStep(was, choices, 0);
    for i := 1 to a.Length
      invariant a[..] == Rearranged(was, choices[..i])
    {
      RearrangedStep(was, choices, i);
      var j := choices[i];
      a[i], a[j] := a[j], a[i];
    }
  }

  lemma RearrangedNone<T>(s: seq<T>, choices: seq<nat>)
    requires choices == []
    ensures Rearranged(s, choices) == s
  {
  }

  /** The array that `perm` starts from. */
  method Ascending(size: nat, first: int) returns (p: array<int>)
    ensures fresh(p) && p.Length == size && p[..] == Iota(first, size)
  {
    p := new int[size];
    var current := first;
    for i := 0 to size
      invariant current == first + i
      invariant p[..i] == Iota(first, i)
    {
      p[i] := current;
      current := current + 1;
      assert p[..i + 1] == p[..i] + [p[i]];
    }
    assert p[..] == p[..size];
  }

  /** `perm(size, first)`; a negative size fails. */
  method Perm(size: int, first: int, choices: seq<nat>) returns (r: Option<seq<int>>)
    requires Legal(choices) && (size >= 0 ==> |choices| == size)
    ensures size < 0 ==> r == None
    ensures size >= 0 ==> r == Some(Shuffled(first, choices))
  {
    hide Rearranged;
    if size < 0 {
      return None;
    } else if size == 0 {
      return Some([]);
    }
    var p := Ascending(size, first);
    ghost var was := p[..];
    IotaRearranged(first, size, choices);
    RearrangedStep(was, choices, 0);
    assert choices[..size] == choices;
    hide *;
    if size > 1 {
      for i := 1 to size
        invariant p[..] == Rearranged(was, choices[..i])
      {
        RearrangedStep(was, choices, i);
        var j := choices[i];
        p[i], p[j] := p[j], p[i];
        SwappedIs(Rearranged(was, choices[..i]), i, j);
      }
    }
    return Some(p[..]);
  }

  lemma SwappedIs<T>(s: seq<T>, i: nat, j: nat)
    requires i < |s| && j < |s|
    ensures Swapped(s, i, j) == s[i := s[j]][j := s[i]]
  {
  }
}
