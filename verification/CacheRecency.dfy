/** The compile cache as a least-recently-used cache (internal/service/checker_compiler.go:68,
    82, 92-94): after any run it holds exactly the 64 keys used last. */
module CacheRecency {
  import opened CompileCache

  /** The keys, most recently used first. */
  function KeysOf(c: Cache): (r: seq<Key>)
    ensures |r| == |c| && forall i | 0 <= i < |r| :: r[i] == c[i].0
  {
    seq(|c|, i requires 0 <= i < |c| => c[i].0)
  }

  function Without(s: seq<Key>, k: Key): seq<Key> {
    if s == [] then [] else (if s[0] == k then [] else [s[0]]) + Without(s[1..], k)
  }

  /** The different keys of a log, the one used last in front. */
  function Recent(uses: seq<Key>): seq<Key> {
    if uses == [] then []
    else var k := uses[|uses| - 1]; [k] + Without(Recent(uses[..|uses| - 1]), k)
  }

  function First64(s: seq<Key>): seq<Key> { if |s| <= 64 then s else s[..64] }

  /** The key that a step uses: a lookup that hits, or an insertion. */
  function UsedBy(sha: Source -> Key, s: State, step: Step): seq<Key>
    requires Enabled(s, step)
  {
    match step
    case FastGet(c) => if Has(s.cache, sha(s.callers[c].source)) then [sha(s.callers[c].source)] else []
    case InnerGet(f) => if Has(s.cache, sha(s.flights[f].source)) then [sha(s.flights[f].source)] else []
    case AddToCache(f) => [sha(s.flights[f].source)]
    case _ => []
  }

  function UseLog(sha: Source -> Key, s: State, steps: seq<Step>): seq<Key>
    requires IsRun(sha, s, steps)
    decreases |steps|
  {
    if steps == [] then [] else UsedBy(sha, s, steps[0]) + UseLog(sha, Apply(sha, s, steps[0]), steps[1..])
  }

  // ------------------------------------------------------------ sequences

  lemma {:induction false} WithoutConcat(a: seq<Key>, b: seq<Key>, k: Key)
    ensures Without(a + b, k) == Without(a, k) + Without(b, k)
  {
    if a == [] {
      assert a + b == b;
    } else {
      assert (a + b)[1..] == a[1..] + b;
      WithoutConcat(a[1..], b, k);
    }
  }

  lemma {:induction false} WithoutAbsent(s: seq<Key>, k: Key)
    requires k !in s
    ensures Without(s, k) == s
  {
    if s != [] { WithoutAbsent(s[1..], k); }
  }

  lemma {:induction false} WithoutMembers(s: seq<Key>, k: Key, x: Key)
    ensures x in Without(s, k) <==> x in s && x != k
  {
    if s != [] {
      WithoutMembers(s[1..], k, x);
      assert s == [s[0]] + s[1..];
    }
  }

  predicate Distinct(s: seq<Key>) { forall i, j | 0 <= i < j < |s| :: s[i] != s[j] }

  /** Taking one key out of its place. */
  lemma WithoutAt(s: seq<Key>, i: nat)
    requires Distinct(s) && i < |s|
    ensures Without(s, s[i]) == s[..i] + s[i + 1..]
  {
    hide *;
    OnlyThere(s, i);
    WithoutBetween(s[..i], s[i], s[i + 1..]);
  }

  lemma OnlyThere(s: seq<Key>, i: nat)
    requires Distinct(s) && i < |s|
    ensures s == s[..i] + ([s[i]] + s[i + 1..]) && s[i] !in s[..i] && s[i] !in s[i + 1..]
  {
  }

  lemma WithoutBetween(a: seq<Key>, k: Key, b: seq<Key>)
    requires k !in a && k !in b
    ensures Without(a + ([k] + b), k) == a + b
  {
    assert ([k] + b)[1..] == b;
    assert Without([k] + b, k) == Without(b, k) by { assert [] + Without(b, k) == Without(b, k); }
    hide Without;
    WithoutConcat(a, [k] + b, k);
    WithoutAbsent(a, k);
    WithoutAbsent(b, k);
  }

  lemma {:induction false} RecentDistinct(uses: seq<Key>)
    ensures Distinct(Recent(uses))
    ensures forall k :: k in Recent(uses) <==> k in uses
  {
    if uses != [] {
      var before, k := uses[..|uses| - 1], uses[|uses| - 1];
      RecentDistinct(before);
      WithoutDistinct(Recent(before), k);
      assert uses == before + [k];
      forall x ensures x in Recent(uses) <==> x in uses { WithoutMembers(Recent(before), k, x); }
      WithoutMembers(Recent(before), k, k);
    }
  }

  lemma WithoutDistinct(s: seq<Key>, k: Key)
    requires Distinct(s)
    ensures Distinct(Without(s, k))
  {
    if k in s {
      var i :| 0 <= i < |s| && s[i] == k;
      WithoutAt(s, i);
    } else {
      WithoutAbsent(s, k);
    }
  }

  // --------------------------------------------------------- the LRU steps

  lemma TouchParts(c: Cache, k: Key) returns (i: nat)
    requires Has(c, k)
    ensures i < |c| && c[i].0 == k && Touch(c, k) == [c[i]] + c[..i] + c[i + 1..] && Lookup(c, k) == c[i].1
  {
    i := Position(c, k);
    hide Position, Has;
  }

  lemma KeysParts(c: Cache, i: nat)
    requires i < |c|
    ensures KeysOf([c[i]] + c[..i] + c[i + 1..]) == [c[i].0] + (KeysOf(c)[..i] + KeysOf(c)[i + 1..])
  {
  }

  /** A lookup puts the entry of its key first and keeps the order of the others. */
  lemma TouchOrder(c: Cache, k: Key)
    requires DistinctKeys(c) && Has(c, k)
    ensures KeysOf(Touch(c, k)) == [k] + Without(KeysOf(c), k)
    ensures Touch(c, k) != [] && Touch(c, k)[0] == (k, Lookup(c, k))
  {
    assert Distinct(KeysOf(c));
    hide DistinctKeys, Distinct;
    var i := TouchParts(c, k);
    hide Touch, Has, Lookup;
    WithoutAt(KeysOf(c), i);
    hide Without;
    KeysParts(c, i);
  }

  /** An insertion puts the new key first and drops the last one of a full cache. */
  lemma PutOrder(c: Cache, k: Key, r: CompileResult)
    requires !Has(c, k) && |c| <= 64
    ensures KeysOf(Put(c, k, r)) == First64([k] + KeysOf(c))
    ensures Put(c, k, r)[0] == (k, r)
  {
    hide Has, Position;
    if |c| >= 64 {
      assert KeysOf([(k, r)] + c[..63]) == [k] + KeysOf(c)[..63];
      assert ([k] + KeysOf(c))[..64] == [k] + KeysOf(c)[..63];
    } else {
      assert KeysOf([(k, r)] + c) == [k] + KeysOf(c);
    }
  }

  /** Using one key more changes the front of 64 like a lookup or an insertion does. */
  lemma UseFront(uses: seq<Key>, k: Key)
    ensures var was, now := First64(Recent(uses)), First64(Recent(uses + [k]));
      && (k in was ==> now == [k] + Without(was, k))
      && (k !in was ==> now == First64([k] + was))
  {
    var r := Recent(uses);
    assert (uses + [k])[..|uses|] == uses;
    assert Recent(uses + [k]) == [k] + Without(r, k);
    RecentDistinct(uses);
    hide Recent, Without, Distinct;
    if k in r {
      var i :| 0 <= i < |r| && r[i] == k;
      WithoutAt(r, i);
      UseAt(r, i);
    } else {
      WithoutAbsent(r, k);
      assert First64([k] + r) == First64([k] + First64(r));
    }
  }

  lemma UseAt(r: seq<Key>, i: nat)
    requires Distinct(r) && i < |r|
    ensures var was, now := First64(r), First64([r[i]] + (r[..i] + r[i + 1..]));
      && (r[i] in was ==> now == [r[i]] + Without(was, r[i]))
      && (r[i] !in was ==> now == First64([r[i]] + was))
  {
    FrontHolds(r, i);
    var was := First64(r);
    if i < 64 {
      assert Distinct(was);
      WithoutAt(was, i);
      hide Distinct, Without;
      assert r[..i] == was[..i];
      if |r| > 64 { assert (r[i + 1..])[..63 - i] == was[i + 1..]; }
    } else {
      hide Distinct, Without;
      assert ([r[i]] + (r[..i] + r[i + 1..]))[..64] == ([r[i]] + was)[..64];
    }
  }

  /** What stands before place 64. */
  lemma FrontHolds(r: seq<Key>, i: nat)
    requires Distinct(r) && i < |r|
    ensures r[i] in First64(r) <==> i < 64
  {
    if i < 64 { assert First64(r)[i] == r[i]; }
  }

  lemma HasKey(c: Cache, k: Key)
    ensures Has(c, k) <==> k in KeysOf(c)
  {
    if Has(c, k) {
      var i :| 0 <= i < |c| && c[i].0 == k;
      assert KeysOf(c)[i] == k;
    }
  }

  /** A lookup that hits brings the front up to date. */
  lemma HitOrder(c: Cache, k: Key, uses: seq<Key>)
    requires DistinctKeys(c) && KeysOf(c) == First64(Recent(uses)) && Has(c, k)
    ensures KeysOf(Touch(c, k)) == First64(Recent(uses + [k]))
  {
    HasKey(c, k);
    UseFront(uses, k);
    TouchOrder(c, k);
    hide *;
  }

  /** So does an insertion. */
  lemma AddOrder(c: Cache, k: Key, r: CompileResult, uses: seq<Key>)
    requires DistinctKeys(c) && |c| <= 64 && KeysOf(c) == First64(Recent(uses)) && !Has(c, k)
    ensures KeysOf(Put(c, k, r)) == First64(Recent(uses + [k]))
  {
    HasKey(c, k);
    UseFront(uses, k);
    PutOrder(c, k, r);
    hide *;
  }

  /** A step that uses no key leaves the cache alone, a hit moves its entry to the front. */
  predicate LookedUp(c: Cache, d: Cache, used: seq<Key>) {
    if used == [] then d == c else |used| == 1 && Has(c, used[0]) && d == Touch(c, used[0])
  }

  /** What each step does to the cache. */
  lemma CacheAfter(sha: Source -> Key, s: State, step: Step)
    requires Enabled(s, step)
    ensures var t := Apply(sha, s, step); var used := UsedBy(sha, s, step);
      match step
      case AddToCache(f) =>
        && s.flights[f].phase.Adding? && used == [sha(s.flights[f].source)]
        && t.cache == Put(s.cache, used[0], s.flights[f].phase.result)
      case _ => LookedUp(s.cache, t.cache, used)
  {
    match step
    case FastGet(c) => OnCaller(sha, s, step);
    case Return(c) => OnCaller(sha, s, step);
    case Join(c) => OnJoin(sha, s, c);
    case Arrive(source) => OnArrive(sha, s, source);
    case InnerGet(f) => OnInnerGet(sha, s, f);
    case AddToCache(f) => OnAdd(sha, s, f);
    case CompileDone(f, o) => OnFlight(sha, s, step);
    case Finish(f) => OnFlight(sha, s, step);
    hide Apply, Has, Touch, Put;
  }

  /** Every step keeps the cache equal to the 64 keys used last. */
  lemma StepRecency(sha: Source -> Key, s: State, step: Step, uses: seq<Key>)
    requires CacheInv(sha, s) && Enabled(s, step) && KeysOf(s.cache) == First64(Recent(uses))
    ensures KeysOf(Apply(sha, s, step).cache) == First64(Recent(uses + UsedBy(sha, s, step)))
  {
    CacheAfter(sha, s, step);
    assert uses + [] == uses;
    assert DistinctKeys(s.cache) && |s.cache| <= 64;
    var used := UsedBy(sha, s, step);
    if step.AddToCache? {
      assert Working(s.flights[step.flight]);
      hide First64, Recent, KeysOf, Has, Touch, Put, Apply, DistinctKeys;
      assert !Has(s.cache, used[0]);
      AddOrder(s.cache, used[0], s.flights[step.flight].phase.result, uses);
    } else if used != [] {
      hide *;
      assert used == [used[0]];
      HitOrder(s.cache, used[0], uses);
    }
  }

  lemma FirstStep(sha: Source -> Key, s: State, steps: seq<Step>)
    requires IsRun(sha, s, steps) && steps != []
    ensures Enabled(s, steps[0]) && IsRun(sha, Apply(sha, s, steps[0]), steps[1..])
    ensures After(sha, s, steps) == After(sha, Apply(sha, s, steps[0]), steps[1..])
    ensures UseLog(sha, s, steps) == UsedBy(sha, s, steps[0]) + UseLog(sha, Apply(sha, s, steps[0]), steps[1..])
  {
    hide Apply, Enabled, UsedBy;
  }

  lemma NoStep(sha: Source -> Key, s: State, steps: seq<Step>)
    requires IsRun(sha, s, steps) && steps == []
    ensures After(sha, s, steps) == s && UseLog(sha, s, steps) == []
  {
  }

  lemma CacheInvOf(sha: Source -> Key, s: State)
    requires Inv(sha, s)
    ensures CacheInv(sha, s)
  {
  }

  lemma {:induction false} RunRecency(sha: Source -> Key, s: State, steps: seq<Step>, uses: seq<Key>)
    requires Inv(sha, s) && IsRun(sha, s, steps) && KeysOf(s.cache) == First64(Recent(uses))
    ensures KeysOf(After(sha, s, steps).cache) == First64(Recent(uses + UseLog(sha, s, steps)))
    decreases |steps|
  {
    hide *;
    if steps == [] {
      NoStep(sha, s, steps);
      assert uses + [] == uses;
    } else {
      CacheInvOf(sha, s);
      FirstStep(sha, s, steps);
      var t, used := Apply(sha, s, steps[0]), UsedBy(sha, s, steps[0]);
      StepKeepsInv(sha, s, steps[0]);
      StepRecency(sha, s, steps[0], uses);
      RunRecency(sha, t, steps[1..], uses + used);
      assert uses + (used + UseLog(sha, t, steps[1..])) == uses + used + UseLog(sha, t, steps[1..]);
    }
  }

  // --------------------------------------------------------------- theorems

  /** After any run the cache holds the 64 keys that were looked up or added last, the
      latest one first; so what an insertion drops is the key used longest ago. */
  lemma HoldsRecentlyUsed(sha: Source -> Key, steps: seq<Step>)
    requires IsRun(sha, EMPTY, steps)
    ensures KeysOf(After(sha, EMPTY, steps).cache) == First64(Recent(UseLog(sha, EMPTY, steps)))
  {
    EmptyInv(sha);
    assert KeysOf(EMPTY.cache) == First64(Recent([]));
    RunRecency(sha, EMPTY, steps, []);
    assert [] + UseLog(sha, EMPTY, steps) == UseLog(sha, EMPTY, steps);
  }

  /** The different keys of a log. */
  function KeySet(log: seq<Key>): set<Key> { set k | k in log }

  lemma {:induction false} RecentSize(log: seq<Key>)
    ensures |Recent(log)| == |KeySet(log)|
  {
    RecentDistinct(log);
    DistinctSize(Recent(log));
    assert KeySet(Recent(log)) == KeySet(log);
  }

  lemma {:induction false} DistinctSize(s: seq<Key>)
    requires Distinct(s)
    ensures |KeySet(s)| == |s|
  {
    if s == [] {
      assert KeySet(s) == {};
    } else {
      assert Distinct(s[1..]) && s[0] !in KeySet(s[1..]) by {
        forall i, j | 0 <= i < j < |s[1..]| ensures s[1..][i] != s[1..][j] {
          assert s[1..][i] == s[i + 1] && s[1..][j] == s[j + 1];
        }
      }
      DistinctSize(s[1..]);
      assert KeySet(s) == {s[0]} + KeySet(s[1..]);
    }
  }

  /** A key stands behind exactly the keys used since its last use. */
  lemma {:induction false} PlaceInRecent(before: seq<Key>, k: Key, since: seq<Key>) returns (rest: seq<Key>)
    requires k !in since
    ensures Recent(before + [k] + since) == Recent(since) + [k] + rest
  {
    var log := before + [k] + since;
    if since == [] {
      assert log[..|log| - 1] == before;
      rest := Without(Recent(before), k);
    } else {
      var x, less := since[|since| - 1], since[..|since| - 1];
      rest := PlaceInRecent(before, k, less);
      assert log[..|log| - 1] == before + [k] + less && log[|log| - 1] == x;
      assert Recent(log) == [x] + Without(Recent(less) + [k] + rest, x);
      WithoutConcat(Recent(less) + [k], rest, x);
      WithoutConcat(Recent(less), [k], x);
      WithoutAbsent([k], x);
      rest := Without(rest, x);
    }
  }

  /** Cached exactly while fewer than 64 other keys have been used since: a key used at some
      point and not since is in the cache if and only if since then at most 63 different
      keys were looked up or added. */
  lemma CachedExactly(sha: Source -> Key, steps: seq<Step>, before: seq<Key>, k: Key, since: seq<Key>)
    requires IsRun(sha, EMPTY, steps) && UseLog(sha, EMPTY, steps) == before + [k] + since && k !in since
    ensures Has(After(sha, EMPTY, steps).cache, k) <==> |KeySet(since)| < 64
  {
    HoldsRecentlyUsed(sha, steps);
    HasKey(After(sha, EMPTY, steps).cache, k);
    var rest := PlaceInRecent(before, k, since);
    RecentSize(since);
    RecentDistinct(before + [k] + since);
    hide Recent, After, IsRun, UseLog, Has, KeysOf, KeySet;
    var r := Recent(before + [k] + since);
    var i := |Recent(since)|;
    assert r[i] == k;
    FrontHolds(r, i);
  }
}
