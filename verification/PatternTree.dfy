/** The tree a pattern is compiled to, the language it denotes and the greedy
    matcher (support/testlib.h:698-724, 1300-1370). */
module PatternTree {
  import opened Bytes

  /** `from..to` characters of `chars`, then one of `children` (or the end). */
  datatype Pattern = Node(chars: seq<Byte>, from: int, to: int, children: seq<Pattern>)

  // ---------------------------------------------------------------- matcher

  /** `std::binary_search`: a lower bound, then one comparison. */
  function LowerBound(a: seq<Byte>, lo: nat, hi: nat, c: Byte): nat
    requires lo <= hi <= |a|
    decreases hi - lo
  {
    if lo == hi then lo
    else
      var mid := lo + (hi - lo) / 2;
      if a[mid] < c then LowerBound(a, mid + 1, hi, c) else LowerBound(a, lo, mid, c)
  }

  predicate BinarySearch(a: seq<Byte>, c: Byte) {
    var k := LowerBound(a, 0, |a|, c);
    k < |a| && a[k] <= c && c <= a[k]
  }

  /** The number of leading characters from `pos` that belong to the set. */
  function GreedyMatch(s: seq<Byte>, pos: nat, chars: seq<Byte>): (r: nat)
    ensures pos <= |s| ==> pos + r <= |s|
    decreases |s| - pos
  {
    if pos < |s| && BinarySearch(chars, s[pos]) then 1 + GreedyMatch(s, pos + 1, chars) else 0
  }

  predicate MatchesAt(p: Pattern, s: seq<Byte>, pos: nat)
    requires pos <= |s|
    decreases p
  {
    var size := if p.to > 0 then GreedyMatch(s, pos, p.chars) else 0;
    if p.to > 0 && size < p.from then false
    else
      var next := pos + (if p.to > 0 && size > p.to then p.to else size);
      if |p.children| > 0 then
        exists i | 0 <= i < |p.children| :: MatchesAt(p.children[i], s, next)
      else
        next == |s|
  }

  predicate Matches(p: Pattern, s: seq<Byte>) {
    MatchesAt(p, s, 0)
  }

  // --------------------------------------------------------------- language

  ghost predicate AllIn(w: seq<Byte>, chars: seq<Byte>) {
    forall i | 0 <= i < |w| :: w[i] in chars
  }

  ghost predicate CountAllowed(p: Pattern, k: nat) {
    if p.to > 0 then p.from <= k <= p.to else k == 0
  }

  /** `w` splits after `k` characters into a repetition and a continuation. */
  ghost predicate SplitsAt(p: Pattern, w: seq<Byte>, k: nat)
    requires k <= |w|
    decreases p, 1
  {
    CountAllowed(p, k) && AllIn(w[..k], p.chars) && InTail(p, w[k..])
  }

  ghost predicate InTail(p: Pattern, w: seq<Byte>)
    decreases p, 0
  {
    if p.children == [] then w == []
    else exists i | 0 <= i < |p.children| :: InLanguage(p.children[i], w)
  }

  /** The regular language of a tree: no greediness anywhere. */
  ghost predicate InLanguage(p: Pattern, w: seq<Byte>)
    decreases p, 2
  {
    exists k: nat | k <= |w| :: SplitsAt(p, w, k)
  }

  /** What the compiler guarantees of every node it builds. */
  ghost predicate WellFormed(p: Pattern) {
    && Sorted(p.chars)
    && p.from <= p.to
    && (forall i | 0 <= i < |p.children| :: WellFormed(p.children[i]))
  }

  // --------------------------------------------------------- binary search

  lemma {:induction false} LowerBoundSplits(a: seq<Byte>, lo: nat, hi: nat, c: Byte)
    requires lo <= hi <= |a| && Sorted(a)
    requires forall i | 0 <= i < lo :: a[i] < c
    requires forall i | hi <= i < |a| :: c <= a[i]
    ensures var k := LowerBound(a, lo, hi, c);
            k <= |a| && (forall i | 0 <= i < k :: a[i] < c) && (forall i | k <= i < |a| :: c <= a[i])
    decreases hi - lo
  {
    if lo < hi {
      var mid := lo + (hi - lo) / 2;
      if a[mid] < c { LowerBoundSplits(a, mid + 1, hi, c); } else { LowerBoundSplits(a, lo, mid, c); }
    }
  }

  lemma BinarySearchSound(a: seq<Byte>, c: Byte)
    requires BinarySearch(a, c)
    ensures c in a
  {
    assert a[LowerBound(a, 0, |a|, c)] == c;
  }

  /** On a sorted set the search decides membership. */
  lemma BinarySearchExact(a: seq<Byte>, c: Byte)
    requires Sorted(a)
    ensures BinarySearch(a, c) <==> c in a
  {
    LowerBoundSplits(a, 0, |a|, c);
  }

  // ------------------------------------------------------------ soundness

  lemma {:induction false} GreedyTakesMembers(s: seq<Byte>, pos: nat, chars: seq<Byte>)
    requires pos <= |s|
    ensures forall i | pos <= i < pos + GreedyMatch(s, pos, chars) :: s[i] in chars
    decreases |s| - pos
  {
    if pos < |s| && BinarySearch(chars, s[pos]) {
      BinarySearchSound(chars, s[pos]);
      GreedyTakesMembers(s, pos + 1, chars);
    }
  }

  lemma SplitOf(p: Pattern, w: seq<Byte>) returns (k: nat)
    requires InLanguage(p, w)
    ensures k <= |w| && SplitsAt(p, w, k)
  {
    k :| k <= |w| && SplitsAt(p, w, k);
  }

  /** A match implies membership, for every compiled tree. */
  lemma {:induction false} MatchSoundAt(p: Pattern, s: seq<Byte>, pos: nat)
    requires pos <= |s| && WellFormed(p)
    requires MatchesAt(p, s, pos)
    ensures InLanguage(p, s[pos..])
    decreases p
  {
    hide BinarySearch, GreedyMatch;
    var size := if p.to > 0 then GreedyMatch(s, pos, p.chars) else 0;
    var k := if p.to > 0 && size > p.to then p.to else size;
    GreedyTakesMembers(s, pos, p.chars);
    var w := s[pos..];
    assert w[k..] == s[pos + k..];
    if p.children != [] {
      var i :| 0 <= i < |p.children| && MatchesAt(p.children[i], s, pos + k);
      MatchSoundAt(p.children[i], s, pos + k);
      assert InLanguage(p.children[i], w[k..]);
    }
    assert SplitsAt(p, w, k);
  }

  lemma MatchSound(p: Pattern, s: seq<Byte>)
    requires WellFormed(p) && Matches(p, s)
    ensures InLanguage(p, s)
  {
    MatchSoundAt(p, s, 0);
    assert s[0..] == s;
  }

  // ------------------------------------------------------------ exactness

  lemma {:induction false} GreedyOfSuffix(s: seq<Byte>, pos: nat, from: nat, chars: seq<Byte>)
    requires pos + from <= |s|
    ensures GreedyMatch(s, pos + from, chars) == GreedyMatch(s[pos..], from, chars)
    decreases |s| - pos - from
  {
    if pos + from < |s| {
      GreedyOfSuffix(s, pos, from + 1, chars);
    }
  }

  /** The matcher only looks at what lies ahead of it. */
  lemma {:induction false} MatchesSuffix(p: Pattern, s: seq<Byte>, pos: nat, from: nat)
    requires pos + from <= |s|
    ensures MatchesAt(p, s, pos + from) == MatchesAt(p, s[pos..], from)
    decreases p
  {
    hide BinarySearch, GreedyMatch;
    GreedyOfSuffix(s, pos, from, p.chars);
    var size := if p.to > 0 then GreedyMatch(s, pos + from, p.chars) else 0;
    var k := if p.to > 0 && size > p.to then p.to else size;
    if !(p.to > 0 && size < p.from) {
      forall i | 0 <= i < |p.children|
        ensures MatchesAt(p.children[i], s, pos + (from + k)) == MatchesAt(p.children[i], s[pos..], from + k)
      {
        MatchesSuffix(p.children[i], s, pos, from + k);
      }
      assert pos + from + k == pos + (from + k);
    }
  }

  /** Some child (or the end) accepts `w`. */
  ghost predicate TailAccepts(p: Pattern, w: seq<Byte>) {
    if p.children == [] then w == [] else exists i | 0 <= i < |p.children| :: Matches(p.children[i], w)
  }

  function Taken(p: Pattern, w: seq<Byte>): (k: nat)
    ensures k <= |w|
  {
    var size := if p.to > 0 then GreedyMatch(w, 0, p.chars) else 0;
    if p.to > 0 && size > p.to then p.to else size
  }

  /** One step of the matcher: take the longest allowed run, then go on. */
  lemma MatchesUnfolds(p: Pattern, w: seq<Byte>)
    ensures Matches(p, w) <==>
            (p.to > 0 ==> GreedyMatch(w, 0, p.chars) >= p.from) && TailAccepts(p, w[Taken(p, w)..])
  {
    var k := Taken(p, w);
    forall i | 0 <= i < |p.children| ensures MatchesAt(p.children[i], w, k) == Matches(p.children[i], w[k..]) {
      MatchesSuffix(p.children[i], w, k, 0);
    }
  }

  ghost predicate Complete(p: Pattern) {
    forall w :: InLanguage(p, w) ==> Matches(p, w)
  }

  ghost predicate TailComplete(p: Pattern) {
    forall w :: InTail(p, w) ==> TailAccepts(p, w)
  }

  /** Dropping a leading set character of a continuation leaves a continuation. */
  ghost predicate ShiftClosed(p: Pattern) {
    forall w :: InTail(p, w) && w != [] && w[0] in p.chars ==> InTail(p, w[1..])
  }

  lemma {:induction false} GreedyReaches(w: seq<Byte>, pos: nat, k: nat, chars: seq<Byte>)
    requires Sorted(chars) && pos <= k <= |w|
    requires forall i | pos <= i < k :: w[i] in chars
    ensures pos + GreedyMatch(w, pos, chars) >= k
    decreases k - pos
  {
    if pos < k {
      BinarySearchExact(chars, w[pos]);
      GreedyReaches(w, pos + 1, k, chars);
    }
  }

  /** Moving the split point right over set characters keeps a continuation. */
  lemma {:induction false} ShiftTo(p: Pattern, w: seq<Byte>, k: nat, g: nat)
    requires k <= g <= |w| && ShiftClosed(p) && InTail(p, w[k..])
    requires forall i | k <= i < g :: w[i] in p.chars
    ensures InTail(p, w[g..])
    decreases g - k
  {
    if k < g {
      assert w[k..][1..] == w[k + 1..];
      assert w[k..][0] == w[k];
      ShiftTo(p, w, k + 1, g);
    }
  }

  lemma NodeCompleteIf(p: Pattern)
    requires Sorted(p.chars) && TailComplete(p)
    requires p.to > 0 && p.from < p.to ==> ShiftClosed(p)
    ensures Complete(p)
  {
    forall w | InLanguage(p, w) ensures Matches(p, w) {
      var k := SplitOf(p, w);
      var g := Taken(p, w);
      MatchesUnfolds(p, w);
      GreedyTakesMembers(w, 0, p.chars);
      if p.to > 0 {
        forall i | 0 <= i < k ensures w[i] in p.chars { assert w[i] == w[..k][i]; }
        GreedyReaches(w, 0, k, p.chars);
        if p.from < p.to { ShiftTo(p, w, k, g); }
      }
    }
  }

  lemma {:induction false} GreedyOnRun(w: seq<Byte>, n: nat, chars: seq<Byte>, c: Byte)
    requires Sorted(chars) && c in chars && n <= |w|
    requires forall i | 0 <= i < n :: w[i] == c
    ensures GreedyMatch(w, 0, chars) >= n
  {
    GreedyReaches(w, 0, n, chars);
  }

  /** A node that must take a character and has none to take denotes nothing. */
  predicate Dead(p: Pattern) { p.chars == [] && p.from > 0 && p.to > 0 }

  lemma NodeCompleteOnlyIf(p: Pattern)
    requires WellFormed(p) && !Dead(p) && Complete(p)
    ensures TailComplete(p)
    ensures p.to > 0 && p.from < p.to ==> ShiftClosed(p)
  {
    var n: nat := if p.to > 0 && p.chars != [] then p.to else 0;
    var c := if n > 0 then p.chars[0] else 0;
    forall v | InTail(p, v) ensures TailAccepts(p, v) {
      var w := seq<Byte>(n, _ => c) + v;
      assert w[n..] == v;
      assert SplitsAt(p, w, n);
      MatchesUnfolds(p, w);
      if n > 0 { GreedyOnRun(w, n, p.chars, c); } else { GreedyTakesMembers(w, 0, p.chars); }
    }
    if n > 0 && p.from < p.to {
      forall v | InTail(p, v) && v != [] && v[0] in p.chars ensures InTail(p, v[1..]) {
        var w := seq<Byte>(n - 1, _ => c) + v;
        assert w[n - 1..] == v;
        assert SplitsAt(p, w, n - 1);
        MatchesUnfolds(p, w);
        GreedyReaches(w, 0, n, p.chars);
        assert w[n..] == v[1..];
        TailAcceptsSound(p, v[1..]);
      }
    }
  }

  lemma TailAcceptsSound(p: Pattern, w: seq<Byte>)
    requires WellFormed(p) && TailAccepts(p, w)
    ensures InTail(p, w)
  {
    if p.children != [] {
      var i :| 0 <= i < |p.children| && Matches(p.children[i], w);
      MatchSound(p.children[i], w);
    }
  }

  /** Exactly when a node loses no word: it denotes none, or its continuation loses none,
      and either the count is fixed or the continuation is closed under dropping a leading
      character of the node's own set. */
  lemma GreedyExactCondition(p: Pattern)
    requires WellFormed(p)
    ensures Complete(p) <==>
            Dead(p) || (TailComplete(p) && (p.to > 0 && p.from < p.to ==> ShiftClosed(p)))
  {
    if Dead(p) {
      forall w ensures !InLanguage(p, w) { DeadDenotesNothing(p, w); }
    } else {
      if Complete(p) { NodeCompleteOnlyIf(p); }
      if TailComplete(p) && (p.to > 0 && p.from < p.to ==> ShiftClosed(p)) { NodeCompleteIf(p); }
    }
  }

  lemma DeadDenotesNothing(p: Pattern, w: seq<Byte>)
    requires Dead(p)
    ensures !InLanguage(p, w)
  {
    forall k: nat | k <= |w| ensures !SplitsAt(p, w, k) {
      if k > 0 { assert w[..k][0] == w[0]; }
    }
  }

  /** A tree without alternatives. */
  predicate Chain(p: Pattern) {
    |p.children| <= 1 && forall i | 0 <= i < |p.children| :: Chain(p.children[i])
  }

  /** Every node with a variable count has a continuation closed under dropping a leading
      character of its set; behind a dead node anything goes. */
  ghost predicate AllShiftClosed(p: Pattern) {
    || Dead(p)
    || (&& (p.to > 0 && p.from < p.to ==> ShiftClosed(p))
        && (forall i | 0 <= i < |p.children| :: AllShiftClosed(p.children[i])))
  }

  /** For a whole tree without alternatives: the matcher decides membership of every text
      exactly when every node with a variable count is shift-closed. */
  lemma {:induction false} ChainExactCondition(p: Pattern)
    requires WellFormed(p) && Chain(p)
    ensures (forall w :: Matches(p, w) <==> InLanguage(p, w)) <==> AllShiftClosed(p)
  {
    forall w | Matches(p, w) ensures InLanguage(p, w) { MatchSound(p, w); }
    ChainComplete(p);
  }

  lemma {:induction false} ChainComplete(p: Pattern)
    requires WellFormed(p) && Chain(p)
    ensures Complete(p) <==> AllShiftClosed(p)
  {
    GreedyExactCondition(p);
    if p.children == [] {
      assert TailComplete(p);
    } else {
      ChainComplete(p.children[0]);
      OneContinuation(p);
    }
  }

  lemma OneContinuation(p: Pattern)
    requires |p.children| == 1
    ensures TailComplete(p) <==> Complete(p.children[0])
  {
    var q := p.children[0];
    forall w ensures (InTail(p, w) <==> InLanguage(q, w)) && (TailAccepts(p, w) <==> Matches(q, w)) {
      assert InLanguage(q, w) <==> InLanguage(p.children[0], w);
    }
  }

  // ------------------------------------------------- a condition to compute

  /** Every character a word of the node (or of its continuation) can start with. */
  function FirstChars(p: Pattern): set<Byte>
    decreases p, 1
  {
    if p.to > 0 then
      (set c | c in p.chars) + (if p.from <= 0 then TailFirst(p) else {})
    else TailFirst(p)
  }

  function TailFirst(p: Pattern): set<Byte>
    decreases p, 0
  {
    set i, c | 0 <= i < |p.children| && c in FirstChars(p.children[i]) :: c
  }

  /** At every node with a variable count, the set and what may follow share no character. */
  predicate FollowDisjoint(p: Pattern) {
    && (p.to > 0 && p.from < p.to ==> forall c | c in p.chars :: c !in TailFirst(p))
    && (forall i | 0 <= i < |p.children| :: FollowDisjoint(p.children[i]))
  }

  lemma {:induction false} FirstCharsCover(p: Pattern, w: seq<Byte>)
    requires InLanguage(p, w) && w != []
    ensures w[0] in FirstChars(p)
    decreases p, 1
  {
    var k := SplitOf(p, w);
    if k == 0 {
      assert w[0..] == w;
      TailFirstCovers(p, w);
    } else {
      assert w[..k][0] == w[0];
    }
  }

  lemma {:induction false} TailFirstCovers(p: Pattern, w: seq<Byte>)
    requires InTail(p, w) && w != []
    ensures w[0] in TailFirst(p)
    decreases p, 0
  {
    var i :| 0 <= i < |p.children| && InLanguage(p.children[i], w);
    FirstCharsCover(p.children[i], w);
  }

  /** Under the computable condition the greedy matcher decides membership. */
  lemma {:induction false} FollowDisjointExact(p: Pattern)
    requires WellFormed(p) && FollowDisjoint(p)
    ensures forall w :: Matches(p, w) <==> InLanguage(p, w)
  {
    forall i | 0 <= i < |p.children| ensures Complete(p.children[i]) {
      FollowDisjointExact(p.children[i]);
    }
    forall w | InTail(p, w) ensures TailAccepts(p, w) {
      if p.children != [] {
        var i :| 0 <= i < |p.children| && InLanguage(p.children[i], w);
        assert Matches(p.children[i], w);
      }
    }
    if p.to > 0 && p.from < p.to {
      forall w | InTail(p, w) && w != [] ensures w[0] !in p.chars {
        TailFirstCovers(p, w);
      }
    }
    NodeCompleteIf(p);
    forall w ensures Matches(p, w) <==> InLanguage(p, w) {
      if Matches(p, w) { MatchSound(p, w); }
    }
  }

  /** The documented incompleteness: `[0-9]?1`, like any optional set before a character
      that it holds, denotes that character alone and refuses it. */
  lemma GreedyLosesWord(chars: seq<Byte>, c: Byte)
    requires Sorted(chars) && c in chars
    ensures var p := Node(chars, 0, 1, [Node([c], 1, 1, [])]);
            WellFormed(p) && InLanguage(p, [c]) && !Matches(p, [c])
  {
    var one := Node([c], 1, 1, []);
    var p := Node(chars, 0, 1, [one]);
    var w: seq<Byte> := [c];
    GreedyReaches(w, 0, 1, chars);
    MatchesUnfolds(p, w);
    assert w[Taken(p, w)..] == [];
    hide LowerBound, GreedyMatch;
    OneCharacter(one, w, c);
    assert w[0..] == w;
    assert InLanguage(p.children[0], w[0..]);
    assert SplitsAt(p, w, 0);
  }

  lemma OneCharacter(one: Pattern, w: seq<Byte>, c: Byte)
    requires w == [c] && one == Node([c], 1, 1, [])
    ensures InLanguage(one, w) && !Matches(one, []) && WellFormed(one)
  {
    assert w[1..] == [] && w[..1] == w;
    assert SplitsAt(one, w, 1);
  }
}
