/** Where the errors of the checker compile cache come from
    (internal/service/checker_compiler.go:72-101). */
module CompileErrors {
  import opened CompileCache

  predicate HasErr(phase: Phase) { phase == Ready(Err) || phase == Finished(Err) }

  /** Every error of a flight is a setup failure that the log `done` records for it. */
  predicate FlightsFailed(s: State, done: seq<Step>) {
    forall f: nat | f < |s.flights| && HasErr(s.flights[f].phase) :: CompileDone(f, Err) in done
  }

  /** A flight of the caller's key failed. */
  ghost predicate FailedFor(sha: Source -> Key, s: State, done: seq<Step>, source: Source) {
    exists f: nat ::
      f < |s.flights| && CompileDone(f, Err) in done && sha(s.flights[f].source) == sha(source)
  }

  ghost predicate CallersFailed(sha: Source -> Key, s: State, done: seq<Step>) {
    forall c: nat | c < |s.callers| && s.callers[c].pc == Returned(Err) :: FailedFor(sha, s, done, s.callers[c].source)
  }

  /** Flights and callers stay, with their sources. */
  lemma SourcesStay(sha: Source -> Key, s: State, step: Step)
    requires Enabled(s, step)
    ensures var t := Apply(sha, s, step);
      && |s.flights| <= |t.flights| && |s.callers| <= |t.callers|
      && (forall f: nat | f < |s.flights| :: t.flights[f].source == s.flights[f].source)
      && (forall c: nat | c < |s.callers| :: t.callers[c].source == s.callers[c].source)
  {
    match step
    case FastGet(c) => OnCaller(sha, s, step);
    case Return(c) => OnCaller(sha, s, step);
    case Join(c) => OnJoin(sha, s, c);
    case Arrive(source) => OnArrive(sha, s, source);
    case InnerGet(f) => OnFlight(sha, s, step);
    case AddToCache(f) => OnFlight(sha, s, step);
    case CompileDone(f, o) => OnFlight(sha, s, step);
    case Finish(f) => OnFlight(sha, s, step);
    hide Apply, Enabled;
  }

  /** A flight comes to an error only by its own failure. */
  lemma FlightErr(sha: Source -> Key, s: State, step: Step, f: nat)
    requires Enabled(s, step) && f < |Apply(sha, s, step).flights|
    requires HasErr(Apply(sha, s, step).flights[f].phase)
    ensures step == CompileDone(f, Err) || (f < |s.flights| && HasErr(s.flights[f].phase))
  {
    match step
    case FastGet(c) => OnCaller(sha, s, step);
    case Return(c) => OnCaller(sha, s, step);
    case Join(c) => OnJoin(sha, s, c);
    case Arrive(source) => OnArrive(sha, s, source);
    case InnerGet(g) => OnFlight(sha, s, step); OnInnerGet(sha, s, g);
    case AddToCache(g) => OnFlight(sha, s, step); OnAdd(sha, s, g);
    case CompileDone(g, o) => OnFlight(sha, s, step); OnCompileDone(sha, s, g, o);
    case Finish(g) => OnFlight(sha, s, step); OnFinish(sha, s, g);
    hide Apply, Enabled;
  }

  /** A caller returns an error only from the flight it waited for. */
  lemma CallerErr(sha: Source -> Key, s: State, step: Step, c: nat)
    requires Enabled(s, step) && c < |Apply(sha, s, step).callers|
    requires Apply(sha, s, step).callers[c].pc == Returned(Err)
    ensures c < |s.callers|
    ensures s.callers[c].pc == Returned(Err) ||
      (&& s.callers[c].pc.Waiting? && s.callers[c].pc.flight < |s.flights|
       && s.flights[s.callers[c].pc.flight].phase == Finished(Err))
  {
    match step
    case FastGet(d) => OnCaller(sha, s, step);
    case Return(d) => OnCaller(sha, s, step);
    case Join(d) => OnJoin(sha, s, d);
    case Arrive(source) => OnArrive(sha, s, source);
    case InnerGet(g) => OnFlight(sha, s, step);
    case AddToCache(g) => OnFlight(sha, s, step);
    case CompileDone(g, o) => OnFlight(sha, s, step);
    case Finish(g) => OnFlight(sha, s, step);
    hide Apply, Enabled;
  }

  lemma WaitsForOwnKey(sha: Source -> Key, s: State, c: nat)
    requires Inv(sha, s) && c < |s.callers| && s.callers[c].pc.Waiting?
    ensures s.callers[c].pc.flight < |s.flights|
    ensures sha(s.flights[s.callers[c].pc.flight].source) == sha(s.callers[c].source)
  {
    assert CallerInv(sha, s);
    hide Inv;
  }

  lemma StepErrors(sha: Source -> Key, s: State, step: Step, done: seq<Step>)
    requires Inv(sha, s) && Enabled(s, step) && FlightsFailed(s, done) && CallersFailed(sha, s, done)
    ensures FlightsFailed(Apply(sha, s, step), done + [step]) && CallersFailed(sha, Apply(sha, s, step), done + [step])
  {
    hide Inv, Apply, Enabled;
    var t, log := Apply(sha, s, step), done + [step];
    SourcesStay(sha, s, step);
    forall f: nat | f < |t.flights| && HasErr(t.flights[f].phase) ensures CompileDone(f, Err) in log {
      FlightErr(sha, s, step, f);
    }
    forall c: nat | c < |t.callers| && t.callers[c].pc == Returned(Err)
      ensures FailedFor(sha, t, log, t.callers[c].source)
    {
      CallerErr(sha, s, step, c);
      if s.callers[c].pc == Returned(Err) {
        FailureStays(sha, s, t, done, step, s.callers[c].source);
      } else {
        WaitsForOwnKey(sha, s, c);
        var f := s.callers[c].pc.flight;
        assert CompileDone(f, Err) in log;
      }
    }
  }

  lemma FailureStays(sha: Source -> Key, s: State, t: State, done: seq<Step>, step: Step, source: Source)
    requires FailedFor(sha, s, done, source) && |s.flights| <= |t.flights|
    requires forall f: nat | f < |s.flights| :: t.flights[f].source == s.flights[f].source
    ensures FailedFor(sha, t, done + [step], source)
  {
    var f: nat :| f < |s.flights| && CompileDone(f, Err) in done && sha(s.flights[f].source) == sha(source);
    assert CompileDone(f, Err) in done + [step];
  }

  lemma {:induction false} RunErrors(sha: Source -> Key, s: State, steps: seq<Step>, done: seq<Step>)
    requires Inv(sha, s) && IsRun(sha, s, steps) && FlightsFailed(s, done) && CallersFailed(sha, s, done)
    ensures CallersFailed(sha, After(sha, s, steps), done + steps)
    decreases |steps|
  {
    hide Inv, Apply, Enabled, FlightsFailed, CallersFailed;
    if steps == [] {
      assert done + steps == done;
    } else {
      StepKeepsInv(sha, s, steps[0]);
      StepErrors(sha, s, steps[0], done);
      RunErrors(sha, Apply(sha, s, steps[0]), steps[1..], done + [steps[0]]);
      assert done + [steps[0]] + steps[1..] == done + steps;
    }
  }

  /** A caller gets an error only when the setup of a compilation of its own key failed in this
      run; a compiler that rejects the source is no error, and is reported as a result. */
  lemma ErrOnlyFromFailure(sha: Source -> Key, steps: seq<Step>, c: nat)
    requires IsRun(sha, EMPTY, steps) && c < |After(sha, EMPTY, steps).callers|
    requires After(sha, EMPTY, steps).callers[c].pc == Returned(Err)
    ensures var s := After(sha, EMPTY, steps);
      exists f: nat ::
        f < |s.flights| && CompileDone(f, Err) in steps && sha(s.flights[f].source) == sha(s.callers[c].source)
  {
    EmptyInv(sha);
    RunErrors(sha, EMPTY, steps, []);
    assert [] + steps == steps;
    hide Inv, After, IsRun;
  }
}
