/** The checker compile cache: an LRU of successful compilations, a group that lets
    one flight per key run, and a second lookup inside the flight
    (internal/service/checker_compiler.go:18-102). Every atomic step of every caller
    may interleave with every other. */
module CompileCache {
  import opened Bytes

  const CAPACITY: nat := 64

  datatype Source = Source(bytes: seq<Byte>)

  /** A SHA-256 digest. */
  datatype Key = Key(digest: seq<Byte>)

  /** A compilation either yields an artifact or a compiler log. */
  datatype CompileResult = Compiled(artifact: nat) | Rejected(log: seq<Byte>)

  /** What a flight hands to its callers; `Err` is a setup failure. */
  datatype Outcome = Result(value: CompileResult) | Err

  // -------------------------------------------------------------------- LRU

  /** Most recently used first. */
  type Cache = seq<(Key, CompileResult)>

  predicate Has(c: Cache, k: Key) { exists i | 0 <= i < |c| :: c[i].0 == k }

  function Position(c: Cache, k: Key): (i: nat)
    requires Has(c, k)
    ensures i < |c| && c[i].0 == k
  {
    if c[0].0 == k then 0
    else
      assert Has(c[1..], k) by {
        var i :| 0 <= i < |c| && c[i].0 == k;
        assert c[1..][i - 1].0 == k;
      }
      1 + Position(c[1..], k)
  }

  function Lookup(c: Cache, k: Key): CompileResult
    requires Has(c, k)
  {
    c[Position(c, k)].1
  }

  /** `Get` moves the entry to the front. */
  function Touch(c: Cache, k: Key): Cache
    requires Has(c, k)
  {
    var i := Position(c, k);
    [c[i]] + c[..i] + c[i + 1..]
  }

  /** `Add` replaces an entry or puts a new one in front, dropping the oldest beyond the capacity. */
  function Put(c: Cache, k: Key, r: CompileResult): Cache {
    if Has(c, k) then [(k, r)] + c[..Position(c, k)] + c[Position(c, k) + 1..]
    else if |c| >= CAPACITY then [(k, r)] + c[..|c| - 1]
    else [(k, r)] + c
  }

  predicate Evicts(c: Cache, k: Key) { !Has(c, k) && |c| >= CAPACITY }

  predicate DistinctKeys(c: Cache) {
    forall i, j | 0 <= i < j < |c| :: c[i].0 != c[j].0
  }

  // ------------------------------------------------------------------ state

  datatype Phase =
    | Entered
    | Compiling
    | Adding(result: CompileResult)
    | Ready(outcome: Outcome)
    | Finished(outcome: Outcome)

  /** One call of the shared function, run for the caller that opened it. */
  datatype Flight = Flight(source: Source, phase: Phase)

  datatype Pc = Arrived | Missed | Waiting(flight: nat) | Returned(outcome: Outcome)

  datatype Caller = Caller(source: Source, pc: Pc)

  /** `group` maps a key to its running flight; the last four fields are history. */
  datatype State = State(
    cache: Cache,
    group: map<Key, nat>,
    flights: seq<Flight>,
    callers: seq<Caller>,
    produced: set<(Source, CompileResult)>,
    started: map<Key, nat>,
    failed: map<Key, nat>,
    added: map<Key, nat>,
    evicted: map<Key, nat>)

  function Count(m: map<Key, nat>, k: Key): nat { if k in m then m[k] else 0 }

  function Bump(m: map<Key, nat>, k: Key): map<Key, nat> { m[k := Count(m, k) + 1] }

  const EMPTY: State := State([], map[], [], [], {}, map[], map[], map[], map[])

  datatype Step =
    | Arrive(source: Source)
    | FastGet(caller: nat)
    | Join(caller: nat)
    | InnerGet(flight: nat)
    | CompileDone(flight: nat, outcome: Outcome)
    | AddToCache(flight: nat)
    | Finish(flight: nat)
    | Return(caller: nat)

  predicate Enabled(s: State, step: Step) {
    match step
    case Arrive(_) => true
    case FastGet(c) => c < |s.callers| && s.callers[c].pc.Arrived?
    case Join(c) => c < |s.callers| && s.callers[c].pc.Missed?
    case InnerGet(f) => f < |s.flights| && s.flights[f].phase.Entered?
    case CompileDone(f, _) => f < |s.flights| && s.flights[f].phase.Compiling?
    case AddToCache(f) => f < |s.flights| && s.flights[f].phase.Adding?
    case Finish(f) => f < |s.flights| && s.flights[f].phase.Ready?
    case Return(c) =>
      && c < |s.callers| && s.callers[c].pc.Waiting?
      && s.callers[c].pc.flight < |s.flights| && s.flights[s.callers[c].pc.flight].phase.Finished?
  }

  function SetPc(s: State, c: nat, pc: Pc): State
    requires c < |s.callers|
  {
    s.(callers := s.callers[c := s.callers[c].(pc := pc)])
  }

  function SetPhase(s: State, f: nat, phase: Phase): State
    requires f < |s.flights|
  {
    s.(flights := s.flights[f := s.flights[f].(phase := phase)])
  }

  function Apply(sha: Source -> Key, s: State, step: Step): State
    requires Enabled(s, step)
  {
    match step
    case Arrive(source) => s.(callers := s.callers + [Caller(source, Arrived)])
    case FastGet(c) =>
      var k := sha(s.callers[c].source);
      if Has(s.cache, k) then SetPc(s, c, Returned(Result(Lookup(s.cache, k)))).(cache := Touch(s.cache, k))
      else SetPc(s, c, Missed)
    case Join(c) =>
      var k := sha(s.callers[c].source);
      if k in s.group then SetPc(s, c, Waiting(s.group[k]))
      else
        var id := |s.flights|;
        SetPc(s, c, Waiting(id)).(
          group := s.group[k := id], flights := s.flights + [Flight(s.callers[c].source, Entered)])
    case InnerGet(f) =>
      var k := sha(s.flights[f].source);
      if Has(s.cache, k) then SetPhase(s, f, Ready(Result(Lookup(s.cache, k)))).(cache := Touch(s.cache, k))
      else SetPhase(s, f, Compiling).(started := Bump(s.started, k))
    case CompileDone(f, outcome) =>
      var k := sha(s.flights[f].source);
      if outcome.Err? then SetPhase(s, f, Ready(Err)).(failed := Bump(s.failed, k))
      else
        var t := s.(produced := s.produced + {(s.flights[f].source, outcome.value)});
        if outcome.value.Compiled? then SetPhase(t, f, Adding(outcome.value))
        else SetPhase(t, f, Ready(outcome)).(failed := Bump(s.failed, k))
    case AddToCache(f) =>
      var k := sha(s.flights[f].source);
      var r := s.flights[f].phase.result;
      var t := SetPhase(s, f, Ready(Result(r))).(cache := Put(s.cache, k, r), added := Bump(s.added, k));
      if Evicts(s.cache, k) then t.(evicted := Bump(s.evicted, s.cache[|s.cache| - 1].0)) else t
    case Finish(f) =>
      var k := sha(s.flights[f].source);
      SetPhase(s, f, Finished(s.flights[f].phase.outcome)).(group := s.group - {k})
    case Return(c) => SetPc(s, c, Returned(s.flights[s.callers[c].pc.flight].phase.outcome))
  }

  predicate IsRun(sha: Source -> Key, s: State, steps: seq<Step>)
    decreases |steps|
  {
    steps == [] || (Enabled(s, steps[0]) && IsRun(sha, Apply(sha, s, steps[0]), steps[1..]))
  }

  function After(sha: Source -> Key, s: State, steps: seq<Step>): State
    requires IsRun(sha, s, steps)
    decreases |steps|
  {
    if steps == [] then s else After(sha, Apply(sha, s, steps[0]), steps[1..])
  }

  // -------------------------------------------------------------- invariant

  /** Some source with this key was compiled with this result. */
  ghost predicate Made(sha: Source -> Key, s: State, k: Key, r: CompileResult) {
    exists p | p in s.produced :: sha(p.0) == k && p.1 == r
  }

  ghost predicate OutcomeMade(sha: Source -> Key, s: State, k: Key, o: Outcome) {
    o.Result? ==> Made(sha, s, k, o.value)
  }

  /** Between the second lookup and the insertion. */
  predicate Working(f: Flight) { f.phase.Compiling? || f.phase.Adding? }

  /** The group holds exactly the unfinished flights, one per key. */
  ghost predicate GroupInv(sha: Source -> Key, s: State) {
    && (forall k | k in s.group ::
          s.group[k] < |s.flights| && sha(s.flights[s.group[k]].source) == k && !s.flights[s.group[k]].phase.Finished?)
    && (forall f | 0 <= f < |s.flights| && !s.flights[f].phase.Finished? ::
          sha(s.flights[f].source) in s.group && s.group[sha(s.flights[f].source)] == f)
  }

  ghost predicate CacheInv(sha: Source -> Key, s: State) {
    && DistinctKeys(s.cache) && |s.cache| <= CAPACITY
    && (forall i | 0 <= i < |s.cache| :: s.cache[i].1.Compiled? && Made(sha, s, s.cache[i].0, s.cache[i].1))
    && (forall f | 0 <= f < |s.flights| && Working(s.flights[f]) :: !Has(s.cache, sha(s.flights[f].source)))
  }

  predicate WorkingOn(sha: Source -> Key, s: State, k: Key) {
    k in s.group && s.group[k] < |s.flights| && Working(s.flights[s.group[k]])
  }

  /** Insertions are evictions plus what is cached; compilations are insertions, failures or still going on. */
  ghost predicate CountInv(sha: Source -> Key, s: State) {
    forall k: Key ::
      && Count(s.added, k) == Count(s.evicted, k) + (if Has(s.cache, k) then 1 else 0)
      && Count(s.started, k) == Count(s.added, k) + Count(s.failed, k) + (if WorkingOn(sha, s, k) then 1 else 0)
  }

  ghost predicate FlightInv(sha: Source -> Key, s: State) {
    forall f | 0 <= f < |s.flights| ::
      var k := sha(s.flights[f].source);
      match s.flights[f].phase
      case Adding(r) => r.Compiled? && Made(sha, s, k, r)
      case Ready(o) => OutcomeMade(sha, s, k, o)
      case Finished(o) => OutcomeMade(sha, s, k, o)
      case _ => true
  }

  ghost predicate CallerInv(sha: Source -> Key, s: State) {
    forall c | 0 <= c < |s.callers| ::
      var k := sha(s.callers[c].source);
      match s.callers[c].pc
      case Waiting(f) => f < |s.flights| && sha(s.flights[f].source) == k
      case Returned(o) => OutcomeMade(sha, s, k, o)
      case _ => true
  }

  ghost predicate Inv(sha: Source -> Key, s: State) {
    GroupInv(sha, s) && CacheInv(sha, s) && CountInv(sha, s) && FlightInv(sha, s) && CallerInv(sha, s)
  }

  // ------------------------------------------------------------- LRU lemmas

  lemma TouchKeeps(c: Cache, k: Key)
    requires DistinctKeys(c) && Has(c, k)
    ensures DistinctKeys(Touch(c, k)) && |Touch(c, k)| == |c|
    ensures forall x: Key :: Has(Touch(c, k), x) <==> Has(c, x)
    ensures forall e :: e in Touch(c, k) ==> e in c
  {
    var i := Position(c, k);
    var t := Touch(c, k);
    assert forall j | 0 <= j < |t| :: t[j] == if j == 0 then c[i] else if j <= i then c[j - 1] else c[j];
    forall x: Key ensures Has(t, x) <==> Has(c, x) {
      if Has(c, x) {
        var j := Position(c, x);
        assert t[if j == i then 0 else if j < i then j + 1 else j].0 == x;
      }
    }
  }

  lemma PutNew(c: Cache, k: Key, r: CompileResult)
    requires DistinctKeys(c) && |c| <= CAPACITY && !Has(c, k)
    ensures var d := Put(c, k, r);
            && DistinctKeys(d) && 1 <= |d| <= CAPACITY && d[0] == (k, r)
            && (forall j | 0 < j < |d| :: d[j] == c[j - 1])
            && (forall x: Key :: Has(d, x) <==> x == k || (Has(c, x) && !(Evicts(c, k) && x == c[|c| - 1].0)))
  {
    var kept := if |c| >= CAPACITY then c[..|c| - 1] else c;
    var d := [(k, r)] + kept;
    assert Put(c, k, r) == d;
    hide Put;
    assert d[0] == (k, r) && forall j | 0 < j < |d| :: d[j] == c[j - 1];
    KeptKeys(c, kept);
    forall x: Key ensures Has(d, x) <==> x == k || Has(kept, x) { FrontKey(k, r, kept, x); }
    assert DistinctKeys(d) by {
      forall i, j | 0 <= i < j < |d| ensures d[i].0 != d[j].0 { assert d[j] == c[j - 1]; }
    }
  }

  lemma FrontKey(k: Key, r: CompileResult, c: Cache, x: Key)
    ensures Has([(k, r)] + c, x) <==> x == k || Has(c, x)
  {
    var d := [(k, r)] + c;
    assert d[0].0 == k;
    if Has(c, x) { assert d[Position(c, x) + 1].0 == x; }
    if Has(d, x) && x != k { assert c[Position(d, x) - 1].0 == x; }
  }

  lemma KeptKeys(c: Cache, kept: Cache)
    requires DistinctKeys(c) && |c| <= CAPACITY && kept == if |c| >= CAPACITY then c[..|c| - 1] else c
    ensures forall x: Key :: Has(kept, x) <==> Has(c, x) && !(|c| >= CAPACITY && x == c[|c| - 1].0)
  {
    forall x: Key ensures Has(kept, x) <==> Has(c, x) && !(|c| >= CAPACITY && x == c[|c| - 1].0) {
      if Has(c, x) && !(|c| >= CAPACITY && x == c[|c| - 1].0) { assert kept[Position(c, x)].0 == x; }
      if Has(kept, x) { assert c[Position(kept, x)].0 == x; }
    }
  }

  // ------------------------------------------------------ what each step changes

  /** Nothing but the history counters and the listed fields differ. */
  lemma OnCaller(sha: Source -> Key, s: State, step: Step)
    requires Enabled(s, step) && (step.FastGet? || step.Return?)
    ensures var t := Apply(sha, s, step);
            && step.caller < |s.callers|
            && t.group == s.group && t.flights == s.flights && t.produced == s.produced
            && t.started == s.started && t.failed == s.failed && t.added == s.added && t.evicted == s.evicted
            && |t.callers| == |s.callers|
            && t.callers == s.callers[step.caller := s.callers[step.caller].(pc := t.callers[step.caller].pc)]
            && (if step.FastGet? && Has(s.cache, sha(s.callers[step.caller].source)) then
                  && t.cache == Touch(s.cache, sha(s.callers[step.caller].source))
                  && t.callers[step.caller].pc == Returned(Result(Lookup(s.cache, sha(s.callers[step.caller].source))))
                else t.cache == s.cache)
            && (step.FastGet? && !Has(s.cache, sha(s.callers[step.caller].source)) ==>
                  t.callers[step.caller].pc == Missed)
            && (step.Return? ==>
                  && s.callers[step.caller].pc.Waiting? && s.callers[step.caller].pc.flight < |s.flights|
                  && s.flights[s.callers[step.caller].pc.flight].phase.Finished?
                  && t.callers[step.caller].pc == Returned(s.flights[s.callers[step.caller].pc.flight].phase.outcome))
  {
    hide Has, Position, Lookup, Touch;
  }

  lemma OnArrive(sha: Source -> Key, s: State, source: Source)
    ensures Apply(sha, s, Arrive(source)) == s.(callers := s.callers + [Caller(source, Arrived)])
  {
  }

  lemma OnJoin(sha: Source -> Key, s: State, c: nat)
    requires Enabled(s, Join(c))
    ensures var t := Apply(sha, s, Join(c));
            && c < |s.callers|
            && t.cache == s.cache && t.produced == s.produced
            && t.started == s.started && t.failed == s.failed && t.added == s.added && t.evicted == s.evicted
            && t.callers == s.callers[c := s.callers[c].(pc := t.callers[c].pc)]
            && (if sha(s.callers[c].source) in s.group then
                  && t.group == s.group && t.flights == s.flights
                  && t.callers[c].pc == Waiting(s.group[sha(s.callers[c].source)])
                else
                  && t.group == s.group[sha(s.callers[c].source) := |s.flights|]
                  && t.flights == s.flights + [Flight(s.callers[c].source, Entered)]
                  && t.callers[c].pc == Waiting(|s.flights|))
  {
  }

  /** What a step of a flight leaves alone. */
  ghost predicate FlightFrame(sha: Source -> Key, s: State, t: State, step: Step, f: nat) {
    && f < |s.flights| && !s.flights[f].phase.Finished? && t.callers == s.callers
    && |t.flights| == |s.flights|
    && t.flights == s.flights[f := s.flights[f].(phase := t.flights[f].phase)]
    && (t.flights[f].phase.Finished? <==> step.Finish?)
    && t.group == (if step.Finish? then s.group - {sha(s.flights[f].source)} else s.group)
    && s.produced <= t.produced && (!step.CompileDone? ==> t.produced == s.produced)
    && (!step.AddToCache? ==> t.added == s.added && t.evicted == s.evicted)
    && (step.AddToCache? || step.Finish? ==> t.started == s.started && t.failed == s.failed)
    && (step.CompileDone? || step.Finish? ==> t.cache == s.cache)
  }

  lemma FrameInnerGet(sha: Source -> Key, s: State, f: nat)
    requires Enabled(s, InnerGet(f))
    ensures FlightFrame(sha, s, Apply(sha, s, InnerGet(f)), InnerGet(f), f)
  {
    hide Has, Position, Lookup, Touch, Put, Evicts, Bump;
  }

  lemma FrameCompileDone(sha: Source -> Key, s: State, f: nat, o: Outcome)
    requires Enabled(s, CompileDone(f, o))
    ensures FlightFrame(sha, s, Apply(sha, s, CompileDone(f, o)), CompileDone(f, o), f)
  {
    hide Has, Position, Lookup, Touch, Put, Evicts, Bump;
  }

  lemma FrameAddToCache(sha: Source -> Key, s: State, f: nat)
    requires Enabled(s, AddToCache(f))
    ensures FlightFrame(sha, s, Apply(sha, s, AddToCache(f)), AddToCache(f), f)
  {
    hide Has, Position, Lookup, Touch, Put, Evicts, Bump;
  }

  lemma FrameFinish(sha: Source -> Key, s: State, f: nat)
    requires Enabled(s, Finish(f))
    ensures FlightFrame(sha, s, Apply(sha, s, Finish(f)), Finish(f), f)
  {
    hide Has, Position, Lookup, Touch, Put, Evicts, Bump;
  }

  lemma OnFlight(sha: Source -> Key, s: State, step: Step)
    requires Enabled(s, step) && (step.InnerGet? || step.CompileDone? || step.AddToCache? || step.Finish?)
    ensures FlightFrame(sha, s, Apply(sha, s, step), step, step.flight)
  {
    hide Enabled, Apply, FlightFrame;
    match step
    case InnerGet(f) => FrameInnerGet(sha, s, f);
    case CompileDone(f, o) => FrameCompileDone(sha, s, f, o);
    case AddToCache(f) => FrameAddToCache(sha, s, f);
    case Finish(f) => FrameFinish(sha, s, f);
  }

  lemma OnInnerGet(sha: Source -> Key, s: State, f: nat)
    requires Enabled(s, InnerGet(f))
    ensures var t := Apply(sha, s, InnerGet(f));
            var k := sha(s.flights[f].source);
            && s.flights[f].phase.Entered? && t.failed == s.failed
            && (if Has(s.cache, k) then
                  && t.flights[f].phase == Ready(Result(Lookup(s.cache, k))) && t.cache == Touch(s.cache, k)
                  && t.started == s.started
                else t.flights[f].phase == Compiling && t.cache == s.cache && t.started == Bump(s.started, k))
  {
    hide Has, Position, Lookup, Touch, Put, Evicts, Bump;
  }

  lemma OnCompileDone(sha: Source -> Key, s: State, f: nat, o: Outcome)
    requires Enabled(s, CompileDone(f, o))
    ensures var t := Apply(sha, s, CompileDone(f, o));
            var k := sha(s.flights[f].source);
            && s.flights[f].phase.Compiling? && t.started == s.started
            && (o.Result? ==> (s.flights[f].source, o.value) in t.produced)
            && (if o.Result? && o.value.Compiled? then t.flights[f].phase == Adding(o.value) && t.failed == s.failed
                else t.flights[f].phase == Ready(o) && t.failed == Bump(s.failed, k))
  {
    hide Has, Position, Lookup, Touch, Put, Evicts, Bump;
  }

  lemma OnAdd(sha: Source -> Key, s: State, f: nat)
    requires Enabled(s, AddToCache(f))
    ensures var t := Apply(sha, s, AddToCache(f));
            var k := sha(s.flights[f].source);
            && s.flights[f].phase.Adding? && t.flights[f].phase == Ready(Result(s.flights[f].phase.result))
            && t.cache == Put(s.cache, k, s.flights[f].phase.result) && t.added == Bump(s.added, k)
            && (Evicts(s.cache, k) ==> s.cache != [])
            && t.evicted == (if Evicts(s.cache, k) then Bump(s.evicted, s.cache[|s.cache| - 1].0) else s.evicted)
  {
    hide Has, Position, Lookup, Touch, Put, Bump;
  }

  lemma OnFinish(sha: Source -> Key, s: State, f: nat)
    requires Enabled(s, Finish(f))
    ensures s.flights[f].phase.Ready?
    ensures Apply(sha, s, Finish(f)).flights[f].phase == Finished(s.flights[f].phase.outcome)
  {
  }

  // ---------------------------------------------------- every step, part by part

  lemma MadeGrows(sha: Source -> Key, s: State, t: State, k: Key, r: CompileResult)
    requires Made(sha, s, k, r) && s.produced <= t.produced
    ensures Made(sha, t, k, r)
  {
    var p :| p in s.produced && sha(p.0) == k && p.1 == r;
    assert p in t.produced;
  }

  lemma GrowAll(sha: Source -> Key, s: State, t: State)
    requires s.produced <= t.produced
    ensures forall k, r :: Made(sha, s, k, r) ==> Made(sha, t, k, r)
  {
    forall k, r | Made(sha, s, k, r) ensures Made(sha, t, k, r) { MadeGrows(sha, s, t, k, r); }
  }

  /** A flight moves between two unfinished phases. */
  lemma GroupPhase(sha: Source -> Key, s: State, t: State, f: nat, phase: Phase)
    requires GroupInv(sha, s) && f < |s.flights| && !s.flights[f].phase.Finished? && !phase.Finished?
    requires t.group == s.group && t.flights == s.flights[f := s.flights[f].(phase := phase)]
    ensures GroupInv(sha, t)
  {
  }

  lemma GroupOpen(sha: Source -> Key, s: State, t: State, source: Source)
    requires GroupInv(sha, s) && sha(source) !in s.group
    requires t.group == s.group[sha(source) := |s.flights|] && t.flights == s.flights + [Flight(source, Entered)]
    ensures GroupInv(sha, t)
  {
  }

  lemma GroupClose(sha: Source -> Key, s: State, t: State, f: nat, o: Outcome)
    requires GroupInv(sha, s) && f < |s.flights| && !s.flights[f].phase.Finished?
    requires t.group == s.group - {sha(s.flights[f].source)}
    requires t.flights == s.flights[f := s.flights[f].(phase := Finished(o))]
    ensures GroupInv(sha, t)
  {
  }

  lemma StepGroup(sha: Source -> Key, s: State, step: Step)
    requires GroupInv(sha, s) && Enabled(s, step)
    ensures GroupInv(sha, Apply(sha, s, step))
  {
    hide Has, Position, Lookup, Touch, Put, Evicts, Bump, GroupInv, Apply, Enabled;
    var t := Apply(sha, s, step);
    match step
    case Join(c) =>
      OnJoin(sha, s, c);
      if sha(s.callers[c].source) in s.group {
        SameGroup(sha, s, t);
      } else {
        GroupOpen(sha, s, t, s.callers[c].source);
      }
    case Arrive(source) => OnArrive(sha, s, source); SameGroup(sha, s, t);
    case FastGet(c) => OnCaller(sha, s, step); SameGroup(sha, s, t);
    case Return(c) => OnCaller(sha, s, step); SameGroup(sha, s, t);
    case Finish(f) =>
      OnFlight(sha, s, step);
      OnFinish(sha, s, f);
      GroupClose(sha, s, t, f, s.flights[f].phase.outcome);
    case InnerGet(f) => OnFlight(sha, s, step); GroupPhase(sha, s, t, f, t.flights[f].phase);
    case CompileDone(f, _) => OnFlight(sha, s, step); GroupPhase(sha, s, t, f, t.flights[f].phase);
    case AddToCache(f) => OnFlight(sha, s, step); GroupPhase(sha, s, t, f, t.flights[f].phase);
  }

  lemma SameGroup(sha: Source -> Key, s: State, t: State)
    requires GroupInv(sha, s) && t.group == s.group && t.flights == s.flights
    ensures GroupInv(sha, t)
  {
  }

  /** The cache keeps its entries, and no new flight works on a cached key. */
  lemma CacheKept(sha: Source -> Key, s: State, t: State)
    requires CacheInv(sha, s) && s.produced <= t.produced
    requires DistinctKeys(t.cache) && |t.cache| == |s.cache| && (forall e :: e in t.cache ==> e in s.cache)
    requires forall k: Key :: Has(t.cache, k) <==> Has(s.cache, k)
    requires forall f | 0 <= f < |t.flights| && Working(t.flights[f]) ::
               || !Has(s.cache, sha(t.flights[f].source))
               || (f < |s.flights| && Working(s.flights[f]) && s.flights[f].source == t.flights[f].source)
    ensures CacheInv(sha, t)
  {
    hide Has, DistinctKeys, Made;
    KeepEntries(sha, s, t);
  }

  lemma CacheAdded(sha: Source -> Key, s: State, t: State, f: nat)
    requires GroupInv(sha, s) && CacheInv(sha, s) && FlightInv(sha, s) && f < |s.flights| && s.flights[f].phase.Adding?
    requires s.produced == t.produced && t.cache == Put(s.cache, sha(s.flights[f].source), s.flights[f].phase.result)
    requires |t.flights| == |s.flights| && !Working(t.flights[f])
    requires forall g | 0 <= g < |t.flights| && g != f :: t.flights[g] == s.flights[g]
    ensures CacheInv(sha, t)
  {
    var k := sha(s.flights[f].source);
    var r := s.flights[f].phase.result;
    assert r.Compiled? && Made(sha, s, k, r);
    PutNew(s.cache, k, r);
    MadeGrows(sha, s, t, k, r);
    OneWorker(sha, s, f);
    hide Has, Put, GroupInv, FlightInv, Evicts;
    forall i | 0 <= i < |t.cache| ensures t.cache[i].1.Compiled? && Made(sha, t, t.cache[i].0, t.cache[i].1) {
      if i > 0 { MadeGrows(sha, s, t, s.cache[i - 1].0, s.cache[i - 1].1); }
    }
  }

  /** The only unfinished flight of its key. */
  lemma OneWorker(sha: Source -> Key, s: State, f: nat)
    requires GroupInv(sha, s) && f < |s.flights| && !s.flights[f].phase.Finished?
    ensures forall g | 0 <= g < |s.flights| && g != f && Working(s.flights[g]) ::
              sha(s.flights[g].source) != sha(s.flights[f].source)
  {
  }

  lemma StepCache(sha: Source -> Key, s: State, step: Step)
    requires Inv(sha, s) && Enabled(s, step)
    ensures CacheInv(sha, Apply(sha, s, step))
  {
    hide Has, Position, Lookup, Touch, Put, Evicts, Bump, GroupInv, CacheInv,
      FlightInv, CountInv, CallerInv, DistinctKeys,
      Apply, Enabled;
    var t := Apply(sha, s, step);
    CacheDistinct(sha, s);
    match step
    case FastGet(c) =>
      OnCaller(sha, s, step);
      if Has(s.cache, sha(s.callers[c].source)) { TouchKeeps(s.cache, sha(s.callers[c].source)); }
      CacheKept(sha, s, t);
    case InnerGet(f) =>
      OnFlight(sha, s, step);
      OnInnerGet(sha, s, f);
      if Has(s.cache, sha(s.flights[f].source)) { TouchKeeps(s.cache, sha(s.flights[f].source)); }
      CacheKept(sha, s, t);
    case AddToCache(f) => OnFlight(sha, s, step); OnAdd(sha, s, f); CacheAdded(sha, s, t, f);
    case CompileDone(f, o) => OnFlight(sha, s, step); OnCompileDone(sha, s, f, o); CacheKept(sha, s, t);
    case Finish(f) => OnFlight(sha, s, step); CacheKept(sha, s, t);
    case Join(c) => OnJoin(sha, s, c); CacheKept(sha, s, t);
    case Arrive(source) => OnArrive(sha, s, source); CacheKept(sha, s, t);
    case Return(c) => OnCaller(sha, s, step); CacheKept(sha, s, t);
  }

  lemma CacheDistinct(sha: Source -> Key, s: State)
    requires CacheInv(sha, s)
    ensures DistinctKeys(s.cache)
  {
  }

  lemma KeepEntries(sha: Source -> Key, s: State, t: State)
    requires CacheInv(sha, s) && s.produced <= t.produced && (forall e :: e in t.cache ==> e in s.cache)
    ensures forall i | 0 <= i < |t.cache| :: t.cache[i].1.Compiled? && Made(sha, t, t.cache[i].0, t.cache[i].1)
  {
    forall i | 0 <= i < |t.cache| ensures t.cache[i].1.Compiled? && Made(sha, t, t.cache[i].0, t.cache[i].1) {
      assert t.cache[i] in s.cache;
      MadeGrows(sha, s, t, t.cache[i].0, t.cache[i].1);
    }
  }

  /** What a lookup finds was made for that key. */
  lemma LookupMade(sha: Source -> Key, s: State, k: Key)
    requires CacheInv(sha, s) && Has(s.cache, k)
    ensures Made(sha, s, k, Lookup(s.cache, k))
  {
  }

  ghost predicate PhaseMade(sha: Source -> Key, s: State, k: Key, phase: Phase) {
    match phase
    case Adding(r) => r.Compiled? && Made(sha, s, k, r)
    case Ready(o) => OutcomeMade(sha, s, k, o)
    case Finished(o) => OutcomeMade(sha, s, k, o)
    case _ => true
  }

  lemma FlightChange(sha: Source -> Key, s: State, t: State, f: nat, phase: Phase)
    requires FlightInv(sha, s) && s.produced <= t.produced && f < |s.flights|
    requires t.flights == s.flights[f := s.flights[f].(phase := phase)]
    requires PhaseMade(sha, t, sha(s.flights[f].source), phase)
    ensures FlightInv(sha, t)
  {
    GrowAll(sha, s, t);
    hide Made;
  }

  lemma StepFlights(sha: Source -> Key, s: State, step: Step)
    requires Inv(sha, s) && Enabled(s, step)
    ensures FlightInv(sha, Apply(sha, s, step))
  {
    hide Has, Position, Lookup, Touch, Put, Evicts, Bump, GroupInv, CacheInv,
      CountInv, CallerInv, DistinctKeys, FlightInv,
      Made, Apply, Enabled;
    var t := Apply(sha, s, step);
    match step
    case InnerGet(f) =>
      OnFlight(sha, s, step);
      OnInnerGet(sha, s, f);
      var k := sha(s.flights[f].source);
      if Has(s.cache, k) { LookupMade(sha, s, k); MadeGrows(sha, s, t, k, Lookup(s.cache, k)); }
      FlightChange(sha, s, t, f, t.flights[f].phase);
    case CompileDone(f, o) =>
      OnFlight(sha, s, step);
      OnCompileDone(sha, s, f, o);
      if o.Result? { JustMade(sha, t, s.flights[f].source, o.value); }
      FlightChange(sha, s, t, f, t.flights[f].phase);
    case AddToCache(f) =>
      OnFlight(sha, s, step);
      OnAdd(sha, s, f);
      PhaseWas(sha, s, f);
      MadeGrows(sha, s, t, sha(s.flights[f].source), s.flights[f].phase.result);
      FlightChange(sha, s, t, f, t.flights[f].phase);
    case Finish(f) =>
      OnFlight(sha, s, step);
      OnFinish(sha, s, f);
      PhaseWas(sha, s, f);
      var o := s.flights[f].phase.outcome;
      if o.Result? { MadeGrows(sha, s, t, sha(s.flights[f].source), o.value); }
      FlightChange(sha, s, t, f, Finished(o));
    case Join(c) => OnJoin(sha, s, c); FlightOpened(sha, s, t);
    case Arrive(source) => OnArrive(sha, s, source); FlightOpened(sha, s, t);
    case FastGet(c) => OnCaller(sha, s, step); FlightOpened(sha, s, t);
    case Return(c) => OnCaller(sha, s, step); FlightOpened(sha, s, t);
  }

  lemma JustMade(sha: Source -> Key, s: State, source: Source, r: CompileResult)
    requires (source, r) in s.produced
    ensures Made(sha, s, sha(source), r)
  {
    var p := (source, r);
    assert p in s.produced;
  }

  lemma PhaseWas(sha: Source -> Key, s: State, f: nat)
    requires FlightInv(sha, s) && f < |s.flights|
    ensures PhaseMade(sha, s, sha(s.flights[f].source), s.flights[f].phase)
  {
  }

  lemma FlightOpened(sha: Source -> Key, s: State, t: State)
    requires FlightInv(sha, s) && s.produced <= t.produced && |s.flights| <= |t.flights|
    requires forall f | 0 <= f < |t.flights| ::
               (f < |s.flights| && t.flights[f] == s.flights[f]) || t.flights[f].phase.Entered?
    ensures FlightInv(sha, t)
  {
    GrowAll(sha, s, t);
    hide Made;
  }

  ghost predicate PcFits(sha: Source -> Key, s: State, c: Caller) {
    match c.pc
    case Waiting(f) => f < |s.flights| && sha(s.flights[f].source) == sha(c.source)
    case Returned(o) => OutcomeMade(sha, s, sha(c.source), o)
    case _ => true
  }

  /** Flights keep their sources and history only grows. */
  ghost predicate Grows(s: State, t: State) {
    && s.produced <= t.produced && |s.flights| <= |t.flights|
    && forall f | 0 <= f < |s.flights| :: t.flights[f].source == s.flights[f].source
  }

  lemma CallerChange(sha: Source -> Key, s: State, t: State, c: nat, pc: Pc)
    requires CallerInv(sha, s) && Grows(s, t) && c < |s.callers|
    requires t.callers == s.callers[c := s.callers[c].(pc := pc)] && PcFits(sha, t, t.callers[c])
    ensures CallerInv(sha, t)
  {
    GrowAll(sha, s, t);
    hide Made;
  }

  lemma CallersSame(sha: Source -> Key, s: State, t: State)
    requires CallerInv(sha, s) && Grows(s, t) && |s.callers| <= |t.callers|
    requires forall c | 0 <= c < |t.callers| ::
               (c < |s.callers| && t.callers[c] == s.callers[c]) || t.callers[c].pc.Arrived?
    ensures CallerInv(sha, t)
  {
    GrowAll(sha, s, t);
    hide Made;
  }

  lemma StepCallers(sha: Source -> Key, s: State, step: Step)
    requires Inv(sha, s) && Enabled(s, step)
    ensures CallerInv(sha, Apply(sha, s, step))
  {
    hide Has, Position, Lookup, Touch, Put, Evicts, Bump, GroupInv, CacheInv,
      CountInv, CallerInv, DistinctKeys, FlightInv,
      Made, Apply, Enabled;
    var t := Apply(sha, s, step);
    match step
    case FastGet(c) =>
      OnCaller(sha, s, step);
      var k := sha(s.callers[c].source);
      if Has(s.cache, k) { LookupMade(sha, s, k); MadeGrows(sha, s, t, k, Lookup(s.cache, k)); }
      CallerChange(sha, s, t, c, t.callers[c].pc);
    case Join(c) =>
      OnJoin(sha, s, c);
      GroupHolds(sha, s, sha(s.callers[c].source));
      CallerChange(sha, s, t, c, t.callers[c].pc);
    case Return(c) =>
      OnCaller(sha, s, step);
      var f := s.callers[c].pc.flight;
      CallerWas(sha, s, c);
      PhaseWas(sha, s, f);
      var o := s.flights[f].phase.outcome;
      if o.Result? { MadeGrows(sha, s, t, sha(s.flights[f].source), o.value); }
      CallerChange(sha, s, t, c, Returned(o));
    case Arrive(source) => OnArrive(sha, s, source); CallersSame(sha, s, t);
    case InnerGet(f) => OnFlight(sha, s, step); CallersSame(sha, s, t);
    case CompileDone(f, _) => OnFlight(sha, s, step); CallersSame(sha, s, t);
    case AddToCache(f) => OnFlight(sha, s, step); CallersSame(sha, s, t);
    case Finish(f) => OnFlight(sha, s, step); CallersSame(sha, s, t);
  }

  lemma CallerWas(sha: Source -> Key, s: State, c: nat)
    requires CallerInv(sha, s) && c < |s.callers|
    ensures PcFits(sha, s, s.callers[c])
  {
  }

  lemma GroupHolds(sha: Source -> Key, s: State, k: Key)
    requires GroupInv(sha, s)
    ensures k in s.group ==> s.group[k] < |s.flights| && sha(s.flights[s.group[k]].source) == k
  {
  }

  /** Which flight works on a key after a step. */
  lemma StepWorking(sha: Source -> Key, s: State, step: Step, k: Key)
    requires GroupInv(sha, s) && Enabled(s, step)
    ensures var before, after := WorkingOn(sha, s, k), WorkingOn(sha, Apply(sha, s, step), k);
            match step
            case InnerGet(f) => after == (before || (k == sha(s.flights[f].source) && !Has(s.cache, k)))
            case CompileDone(f, o) =>
              after == (before && !(k == sha(s.flights[f].source) && !(o.Result? && o.value.Compiled?)))
            case AddToCache(f) => after == (before && k != sha(s.flights[f].source))
            case _ => after == before
    ensures match step
            case InnerGet(f) => k == sha(s.flights[f].source) ==> !WorkingOn(sha, s, k)
            case CompileDone(f, _) => k == sha(s.flights[f].source) ==> WorkingOn(sha, s, k)
            case AddToCache(f) => k == sha(s.flights[f].source) ==> WorkingOn(sha, s, k)
            case _ => true
  {
    hide Has, Position, Lookup, Touch, Put, Evicts, Bump, Apply, Enabled;
    match step
    case Join(c) => OnJoin(sha, s, c);
    case Arrive(source) => OnArrive(sha, s, source);
    case FastGet(c) => OnCaller(sha, s, step);
    case Return(c) => OnCaller(sha, s, step);
    case Finish(f) => OnFlight(sha, s, step); OnFinish(sha, s, f); assert s.group[sha(s.flights[f].source)] == f;
    case InnerGet(f) => OnFlight(sha, s, step); OnInnerGet(sha, s, f); assert s.group[sha(s.flights[f].source)] == f;
    case CompileDone(f, o) =>
      OnFlight(sha, s, step);
      OnCompileDone(sha, s, f, o);
      assert s.group[sha(s.flights[f].source)] == f;
    case AddToCache(f) => OnFlight(sha, s, step); OnAdd(sha, s, f); assert s.group[sha(s.flights[f].source)] == f;
  }

  lemma StepCounts(sha: Source -> Key, s: State, step: Step)
    requires Inv(sha, s) && Enabled(s, step)
    ensures CountInv(sha, Apply(sha, s, step))
  {
    var t := Apply(sha, s, step);
    forall k: Key
      ensures Count(t.added, k) == Count(t.evicted, k) + (if Has(t.cache, k) then 1 else 0)
      ensures Count(t.started, k) == Count(t.added, k) + Count(t.failed, k) + (if WorkingOn(sha, t, k) then 1 else 0)
    {
      StepWorking(sha, s, step, k);
      CountKey(sha, s, step, k);
    }
  }

  lemma CountKey(sha: Source -> Key, s: State, step: Step, k: Key)
    requires CacheInv(sha, s) && CountInv(sha, s) && Enabled(s, step)
    ensures var t := Apply(sha, s, step);
            && Count(t.added, k) == Count(t.evicted, k) + (if Has(t.cache, k) then 1 else 0)
            && Count(t.started, k) - Count(t.added, k) - Count(t.failed, k)
            == Count(s.started, k) - Count(s.added, k) - Count(s.failed, k)
               + (if step.InnerGet? && k == sha(s.flights[step.flight].source) && !Has(s.cache, k) then 1 else 0)
               - (if step.CompileDone? && k == sha(s.flights[step.flight].source)
                     && !(step.outcome.Result? && step.outcome.value.Compiled?) then 1 else 0)
               - (if step.AddToCache? && k == sha(s.flights[step.flight].source) then 1 else 0)
  {
    assert Count(s.added, k) == Count(s.evicted, k) + (if Has(s.cache, k) then 1 else 0);
    hide Has, Position, Lookup, Touch, Put, Evicts, CacheInv, CountInv, DistinctKeys, Apply, Enabled;
    CacheDistinct(sha, s);
    match step
    case FastGet(c) =>
      OnCaller(sha, s, step);
      if Has(s.cache, sha(s.callers[c].source)) { TouchKeeps(s.cache, sha(s.callers[c].source)); }
    case InnerGet(f) =>
      OnFlight(sha, s, step);
      OnInnerGet(sha, s, f);
      if Has(s.cache, sha(s.flights[f].source)) { TouchKeeps(s.cache, sha(s.flights[f].source)); }
    case AddToCache(f) => OnFlight(sha, s, step); CountAdd(sha, s, f, k);
    case CompileDone(f, o) => OnFlight(sha, s, step); OnCompileDone(sha, s, f, o);
    case Finish(f) => OnFlight(sha, s, step);
    case Join(c) => OnJoin(sha, s, c);
    case Arrive(source) => OnArrive(sha, s, source);
    case Return(c) => OnCaller(sha, s, step);
  }

  lemma CountAdd(sha: Source -> Key, s: State, f: nat, k: Key)
    requires CacheInv(sha, s) && Enabled(s, AddToCache(f))
    requires Count(s.added, k) == Count(s.evicted, k) + (if Has(s.cache, k) then 1 else 0)
    ensures var t := Apply(sha, s, AddToCache(f));
            && Count(t.added, k) == Count(t.evicted, k) + (if Has(t.cache, k) then 1 else 0)
            && Count(t.added, k) == Count(s.added, k) + (if k == sha(s.flights[f].source) then 1 else 0)
            && t.started == s.started && t.failed == s.failed
  {
    var key := sha(s.flights[f].source);
    OnFlight(sha, s, AddToCache(f));
    OnAdd(sha, s, f);
    hide Apply, Enabled, Has, Put, DistinctKeys, Made, Position;
    assert Working(s.flights[f]);
    assert !Has(s.cache, key) && DistinctKeys(s.cache) && |s.cache| <= CAPACITY;
    hide CacheInv;
    PutNew(s.cache, key, s.flights[f].phase.result);
    LastIsCached(s.cache);
  }

  lemma LastIsCached(c: Cache)
    ensures c != [] ==> Has(c, c[|c| - 1].0)
  {
  }

  lemma StepKeepsInv(sha: Source -> Key, s: State, step: Step)
    requires Inv(sha, s) && Enabled(s, step)
    ensures Inv(sha, Apply(sha, s, step))
  {
    StepGroup(sha, s, step);
    StepCache(sha, s, step);
    StepCounts(sha, s, step);
    StepFlights(sha, s, step);
    StepCallers(sha, s, step);
    hide Apply, GroupInv, CacheInv, CountInv, FlightInv, CallerInv;
  }

  lemma {:induction false} RunKeepsInv(sha: Source -> Key, s: State, steps: seq<Step>)
    requires Inv(sha, s) && IsRun(sha, s, steps)
    ensures Inv(sha, After(sha, s, steps))
    decreases |steps|
  {
    hide Inv, Apply, Enabled;
    if steps != [] {
      StepKeepsInv(sha, s, steps[0]);
      RunKeepsInv(sha, Apply(sha, s, steps[0]), steps[1..]);
    }
  }

  lemma EmptyInv(sha: Source -> Key)
    ensures Inv(sha, EMPTY)
  {
  }

  // --------------------------------------------------------------- theorems

  ghost predicate Injective(sha: Source -> Key) {
    forall a, b :: sha(a) == sha(b) ==> a == b
  }

  /** In every interleaving at most one flight per key is unfinished, let alone compiling;
      the cache never exceeds its capacity and holds only successes, once per key. */
  lemma OneFlightPerKey(sha: Source -> Key, steps: seq<Step>)
    requires IsRun(sha, EMPTY, steps)
    ensures var s := After(sha, EMPTY, steps);
            && (forall f, g | && 0 <= f < g < |s.flights|
                              && !s.flights[f].phase.Finished? && !s.flights[g].phase.Finished? ::
                  sha(s.flights[f].source) != sha(s.flights[g].source))
            && |s.cache| <= CAPACITY && DistinctKeys(s.cache)
            && (forall i | 0 <= i < |s.cache| :: s.cache[i].1.Compiled?)
  {
    EmptyInv(sha);
    RunKeepsInv(sha, EMPTY, steps);
    hide After, IsRun, CountInv, FlightInv, CallerInv;
  }

  /** Conservation: a key's insertions are its evictions plus one if it is cached now, and its
      compilations are its insertions, its failures and the one still running. */
  lemma CacheConservation(sha: Source -> Key, steps: seq<Step>, k: Key)
    requires IsRun(sha, EMPTY, steps)
    ensures var s := After(sha, EMPTY, steps);
            && Count(s.added, k) == Count(s.evicted, k) + (if Has(s.cache, k) then 1 else 0)
            && Count(s.started, k) == Count(s.added, k) + Count(s.failed, k) + (if WorkingOn(sha, s, k) then 1 else 0)
            && (Count(s.evicted, k) == 0 && Count(s.failed, k) == 0 ==> Count(s.started, k) <= 1)
  {
    EmptyInv(sha);
    RunKeepsInv(sha, EMPTY, steps);
    var s := After(sha, EMPTY, steps);
    hide After, IsRun, FlightInv, CallerInv, GroupInv;
    if WorkingOn(sha, s, k) && Has(s.cache, k) { WorkingNotCached(sha, s, k, steps); }
  }

  lemma WorkingNotCached(sha: Source -> Key, s: State, k: Key, steps: seq<Step>)
    requires CacheInv(sha, s) && IsRun(sha, EMPTY, steps) && s == After(sha, EMPTY, steps)
    ensures !(WorkingOn(sha, s, k) && Has(s.cache, k))
  {
    EmptyInv(sha);
    RunKeepsInv(sha, EMPTY, steps);
    hide After, IsRun, CountInv, FlightInv, CallerInv;
  }

  /** Every result a caller returns came from compiling that caller's own source, however
      many callers shared the flight or the cache entry. */
  lemma ReturnsOwnCompilation(sha: Source -> Key, steps: seq<Step>, c: nat)
    requires Injective(sha) && IsRun(sha, EMPTY, steps)
    requires c < |After(sha, EMPTY, steps).callers|
    ensures var s := After(sha, EMPTY, steps);
            s.callers[c].pc.Returned? && s.callers[c].pc.outcome.Result? ==>
              (s.callers[c].source, s.callers[c].pc.outcome.value) in s.produced
  {
    EmptyInv(sha);
    RunKeepsInv(sha, EMPTY, steps);
    var s := After(sha, EMPTY, steps);
    hide After, IsRun, CountInv, FlightInv, GroupInv, CacheInv;
    if s.callers[c].pc.Returned? && s.callers[c].pc.outcome.Result? {
      assert Made(sha, s, sha(s.callers[c].source), s.callers[c].pc.outcome.value);
      var p :| p in s.produced && sha(p.0) == sha(s.callers[c].source) && p.1 == s.callers[c].pc.outcome.value;
      assert p.0 == s.callers[c].source;
    }
  }

  /** A step of the caller itself, or of the flight it waits for. */
  predicate Concerns(s: State, step: Step, c: nat)
    requires c < |s.callers|
  {
    match step
    case Arrive(_) => false
    case FastGet(d) => d == c
    case Join(d) => d == c
    case Return(d) => d == c
    case InnerGet(f) => s.callers[c].pc == Waiting(f)
    case CompileDone(f, _) => s.callers[c].pc == Waiting(f)
    case AddToCache(f) => s.callers[c].pc == Waiting(f)
    case Finish(f) => s.callers[c].pc == Waiting(f)
  }

  /** No caller is ever stuck: while one has not returned, a step of it or of its flight can be taken. */
  lemma NeverStuck(sha: Source -> Key, steps: seq<Step>, c: nat) returns (step: Step)
    requires IsRun(sha, EMPTY, steps) && c < |After(sha, EMPTY, steps).callers|
    requires !After(sha, EMPTY, steps).callers[c].pc.Returned?
    ensures Concerns(After(sha, EMPTY, steps), step, c) && Enabled(After(sha, EMPTY, steps), step)
  {
    EmptyInv(sha);
    RunKeepsInv(sha, EMPTY, steps);
    var s := After(sha, EMPTY, steps);
    hide After, IsRun, CountInv, FlightInv, GroupInv, CacheInv;
    match s.callers[c].pc
    case Arrived => step := FastGet(c);
    case Missed => step := Join(c);
    case Waiting(f) =>
      match s.flights[f].phase {
        case Entered => step := InnerGet(f);
        case Compiling => step := CompileDone(f, Err);
        case Adding(_) => step := AddToCache(f);
        case Ready(_) => step := Finish(f);
        case Finished(_) => step := Return(c);
      }
  }

  function PhaseRank(phase: Phase): nat {
    match phase
    case Entered => 5
    case Compiling => 4
    case Adding(_) => 3
    case Ready(_) => 2
    case Finished(_) => 1
  }

  /** How many more steps that concern it a caller takes at most before it returns. */
  function Remaining(s: State, c: nat): nat
    requires c < |s.callers|
  {
    match s.callers[c].pc
    case Arrived => 7
    case Missed => 6
    case Waiting(f) => if f < |s.flights| then PhaseRank(s.flights[f].phase) else 5
    case Returned(_) => 0
  }

  /** Every step of a flight moves it on. */
  lemma FlightMoves(sha: Source -> Key, s: State, step: Step)
    requires Enabled(s, step) && (step.InnerGet? || step.CompileDone? || step.AddToCache? || step.Finish?)
    ensures var t := Apply(sha, s, step); var f := step.flight;
      f < |s.flights| && f < |t.flights| && PhaseRank(t.flights[f].phase) < PhaseRank(s.flights[f].phase)
  {
    hide Apply, Enabled, Has, Position, Lookup, Touch, Put, Evicts, Bump;
    OnFlight(sha, s, step);
    match step
    case InnerGet(f) => OnInnerGet(sha, s, f);
    case CompileDone(f, o) => OnCompileDone(sha, s, f, o);
    case AddToCache(f) => OnAdd(sha, s, f);
    case Finish(f) => OnFinish(sha, s, f);
  }

  /** A step that concerns a caller brings it nearer to its return, and no other step
      takes it away from there. */
  lemma StepProgress(sha: Source -> Key, s: State, step: Step, c: nat)
    requires CallerInv(sha, s) && Enabled(s, step) && c < |s.callers|
    ensures var t := Apply(sha, s, step);
      c < |t.callers| && Remaining(t, c) <= Remaining(s, c) - if Concerns(s, step, c) then 1 else 0
  {
    if step.InnerGet? || step.CompileDone? || step.AddToCache? || step.Finish? {
      FlightProgress(sha, s, step, c);
    } else {
      CallerProgress(sha, s, step, c);
    }
  }

  lemma FlightProgress(sha: Source -> Key, s: State, step: Step, c: nat)
    requires Enabled(s, step) && (step.InnerGet? || step.CompileDone? || step.AddToCache? || step.Finish?)
    requires c < |s.callers|
    ensures var t := Apply(sha, s, step);
      c < |t.callers| && Remaining(t, c) <= Remaining(s, c) - if Concerns(s, step, c) then 1 else 0
  {
    OnFlight(sha, s, step);
    FlightMoves(sha, s, step);
    hide Apply, Enabled, PhaseRank;
  }

  lemma CallerProgress(sha: Source -> Key, s: State, step: Step, c: nat)
    requires Enabled(s, step) && (step.Arrive? || step.FastGet? || step.Join? || step.Return?)
    requires CallerInv(sha, s) && c < |s.callers|
    ensures var t := Apply(sha, s, step);
      c < |t.callers| && Remaining(t, c) <= Remaining(s, c) - if Concerns(s, step, c) then 1 else 0
  {
    CallerWas(sha, s, c);
    hide Apply, CallerInv, Has, Touch, Lookup;
    if step.Arrive? {
      OnArrive(sha, s, step.source);
    } else if step.Join? {
      OnJoin(sha, s, step.caller);
    } else {
      OnCaller(sha, s, step);
    }
  }

  /** The steps of a run that concern a caller. */
  function ConcernCount(sha: Source -> Key, s: State, steps: seq<Step>, c: nat): nat
    requires IsRun(sha, s, steps) && c < |s.callers|
    decreases |steps|
  {
    if steps == [] then 0
    else
      var t := Apply(sha, s, steps[0]);
      (if Concerns(s, steps[0], c) then 1 else 0) + (if c < |t.callers| then ConcernCount(sha, t, steps[1..], c) else 0)
  }

  lemma {:induction false} ProgressOverRun(sha: Source -> Key, s: State, steps: seq<Step>, c: nat)
    requires Inv(sha, s) && IsRun(sha, s, steps) && c < |s.callers|
    ensures c < |After(sha, s, steps).callers|
    ensures ConcernCount(sha, s, steps, c) + Remaining(After(sha, s, steps), c) <= Remaining(s, c)
    decreases |steps|
  {
    assert CallerInv(sha, s);
    hide Inv, Apply, Enabled, Concerns, Remaining;
    if steps != [] {
      StepProgress(sha, s, steps[0], c);
      StepKeepsInv(sha, s, steps[0]);
      ProgressOverRun(sha, Apply(sha, s, steps[0]), steps[1..], c);
    }
  }

  /** A caller returns within seven steps of its own or of its flight: in any further run at
      most seven concern it, and after seven it has returned. With `NeverStuck` no fair
      schedule keeps a caller waiting. */
  lemma ReturnsWithinSeven(sha: Source -> Key, steps: seq<Step>, more: seq<Step>, c: nat)
    requires IsRun(sha, EMPTY, steps) && c < |After(sha, EMPTY, steps).callers|
    requires IsRun(sha, After(sha, EMPTY, steps), more)
    ensures var s := After(sha, EMPTY, steps); var t := After(sha, s, more);
      && ConcernCount(sha, s, more, c) <= 7 && c < |t.callers|
      && (ConcernCount(sha, s, more, c) == 7 ==> t.callers[c].pc.Returned?)
  {
    EmptyInv(sha);
    RunKeepsInv(sha, EMPTY, steps);
    var s := After(sha, EMPTY, steps);
    hide *;
    ProgressOverRun(sha, s, more, c);
    RemainingRange(s, c);
    RemainingRange(After(sha, s, more), c);
  }

  lemma RemainingRange(s: State, c: nat)
    requires c < |s.callers|
    ensures Remaining(s, c) <= 7 && (Remaining(s, c) == 0 <==> s.callers[c].pc.Returned?)
  {
  }
}
