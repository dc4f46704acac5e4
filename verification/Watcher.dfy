/** The execution watcher and the verdict it leads to
    (internal/sandbox/containerd.go:222-375, verdict.go:11-54, metrics.go:28-52).
    Whatever the environment decides - which channel is ready first, what the
    runtime answers - is an input. */
module Watcher {
  import opened Bytes
  import opened OutputBudget

  datatype Verdict = VerdictOK | VerdictTLE | VerdictMLE | VerdictOLE | VerdictRE

  datatype StopReason = NoReason | StopCPUTime | StopWallTime | StopOutputLimit

  datatype Metrics = Metrics(cpuNanos: nat, peakMemBytes: nat, oomDetected: bool, oomKillDetected: bool)

  function CpuMillis(m: Metrics): nat { m.cpuNanos / 1_000_000 }

  /** What `status.Result()` says. */
  datatype ExitStatus = Code(code: nat) | Unreadable

  /** What the exit channel delivers. */
  datatype Exit = Status(status: ExitStatus) | ChannelClosed

  /** The channel a `select` picks. */
  datatype Ready = ExitReady(exit: Exit) | CpuTick | OutputLimitReady | WallDeadlineReady | ContextDone

  datatype KillReply = Killed | NotFound | KillFailed

  datatype AfterKill = ExitAfterKill(exit: Exit) | StopTimeout

  datatype Call = StartCall | CloseIOCall | MetricsCall | KillCall | CancelIOCall

  // -------------------------------------------------------------- verdict

  function BuildVerdict(exitCode: nat, reason: StopReason, m: Metrics, overflowed: bool, cpuLimitMs: int): Verdict {
    if reason == StopOutputLimit || (reason == NoReason && overflowed) then VerdictOLE
    else if reason == StopCPUTime || reason == StopWallTime then VerdictTLE
    else if m.oomKillDetected || (exitCode != 0 && m.oomDetected) then VerdictMLE
    else if CpuMillis(m) >= cpuLimitMs then VerdictTLE
    else if exitCode == 0 then VerdictOK
    else VerdictRE
  }

  // ------------------------------------------------------- what it decides

  datatype Event = Exited(status: ExitStatus) | Stopped(reason: StopReason, metrics: Option<Metrics>) | Failed | Waiting

  datatype TaskResult = Outcome(exitCode: nat, reason: StopReason, metrics: Metrics) | TaskError | Pending

  datatype ExecResult =
    | Done(verdict: Verdict, exitCode: nat, stdout: seq<Byte>, stderr: seq<Byte>)
    | ExecError
    | StillRunning

  function Reply(replies: seq<Option<Metrics>>, k: nat): Option<Metrics> {
    if k < |replies| then replies[k] else None
  }

  function Repeat(c: Call, n: nat): seq<Call> { seq(n, _ => c) }

  lemma RepeatMore(c: Call, n: nat)
    ensures Repeat(c, n) + [c] == Repeat(c, n + 1)
  {
  }

  predicate Stops(kill: KillReply, after: AfterKill) {
    kill != KillFailed && after.ExitAfterKill? && after.exit.Status? && after.exit.status.Code?
  }

  /** The first event that decides, and how many metric readings were used up. */
  function Decide(events: seq<Ready>, replies: seq<Option<Metrics>>, asked: nat, cpuLimit: int): (Event, nat) {
    if events == [] then (Waiting, asked)
    else
      match events[0]
      case ExitReady(exit) => (if exit.ChannelClosed? then Failed else Exited(exit.status), asked)
      case CpuTick =>
        var m := Reply(replies, asked);
        if m.None? then (Failed, asked + 1)
        else if CpuMillis(m.value) >= cpuLimit then (Stopped(StopCPUTime, m), asked + 1)
        else Decide(events[1..], replies, asked + 1, cpuLimit)
      case OutputLimitReady => (Stopped(StopOutputLimit, None), asked)
      case WallDeadlineReady => (Stopped(StopWallTime, None), asked)
      case ContextDone => (Failed, asked)
  }

  function Conclude(d: (Event, nat), replies: seq<Option<Metrics>>, kill: KillReply, after: AfterKill): TaskResult {
    match d.0
    case Waiting => Pending
    case Exited(Unreadable) => TaskError
    case Exited(Code(code)) =>
      var m := Reply(replies, d.1);
      if m.None? then TaskError else Outcome(code, NoReason, m.value)
    case Failed => TaskError
    case Stopped(reason, metrics) =>
      var m := if reason == StopCPUTime then metrics else Reply(replies, d.1);
      if m.None? || !Stops(kill, after) then TaskError else Outcome(0, reason, m.value)
  }

  /** Everything the environment decides about one execution. Writer 0 is stdout, writer 1 is stderr. */
  datatype Scenario = Scenario(
    startOk: bool, events: seq<Ready>, replies: seq<Option<Metrics>>,
    kill: KillReply, after: AfterKill, drained: bool, output: State)

  predicate Overflowed(s: State)
    requires |s.writers| == 2
  {
    s.writers[0].overflowed || s.writers[1].overflowed
  }

  function Watch(x: Scenario, cpuLimit: int): ExecResult
    requires |x.output.writers| == 2
  {
    if !x.startOk then ExecError
    else
      match Conclude(Decide(x.events, x.replies, 0, cpuLimit), x.replies, x.kill, x.after)
      case Pending => StillRunning
      case TaskError => ExecError
      case Outcome(code, reason, m) =>
        if !x.drained then ExecError
        else Done(BuildVerdict(code, reason, m, Overflowed(x.output), cpuLimit), code,
                  x.output.writers[0].buf, x.output.writers[1].buf)
  }

  /** A decision other than waiting comes from the events given. */
  lemma {:induction false} DecideSource(events: seq<Ready>, replies: seq<Option<Metrics>>, asked: nat, cpuLimit: int)
    ensures var e := Decide(events, replies, asked, cpuLimit).0;
            && (e.Exited? ==> ExitReady(Status(e.status)) in events)
            && (e.Stopped? && e.reason == StopOutputLimit ==> OutputLimitReady in events)
            && (e.Stopped? && e.reason == StopWallTime ==> WallDeadlineReady in events)
            && (e.Stopped? ==> e.reason != NoReason)
            && (e.Stopped? && e.reason == StopCPUTime ==>
                  CpuTick in events && e.metrics.Some? && CpuMillis(e.metrics.value) >= cpuLimit)
  {
    if events != [] && events[0].CpuTick? {
      DecideSource(events[1..], replies, asked + 1, cpuLimit);
    }
  }

  // ---------------------------------------------------- the containerd task

  /** A task whose answers are given in advance and whose calls are recorded. */
  class Task {
    const startOk: bool
    const replies: seq<Option<Metrics>>
    const killReply: KillReply
    const afterKill: AfterKill
    const drains: bool
    var calls: seq<Call>
    var asked: nat

    constructor (startOk: bool, replies: seq<Option<Metrics>>, killReply: KillReply, afterKill: AfterKill, drains: bool)
      ensures this.startOk == startOk && this.replies == replies && this.killReply == killReply
      ensures this.afterKill == afterKill && this.drains == drains && calls == [] && asked == 0
    {
      this.startOk, this.replies, this.killReply, this.afterKill, this.drains :=
        startOk, replies, killReply, afterKill, drains;
      calls, asked := [], 0;
    }

    method CollectMetrics() returns (m: Option<Metrics>)
      modifies this
      ensures calls == old(calls) + [MetricsCall] && asked == old(asked) + 1
      ensures m == Reply(replies, old(asked))
    {
      calls := calls + [MetricsCall];
      m := Reply(replies, asked);
      asked := asked + 1;
    }

    method Call(c: Call)
      modifies this`calls
      ensures calls == old(calls) + [c]
    {
      calls := calls + [c];
    }

    /** `stopTask`: kill, then wait for the exit; true when both succeed. */
    method StopTask() returns (ok: bool)
      modifies this`calls
      ensures calls == old(calls) + [KillCall]
      ensures ok == Stops(killReply, afterKill)
    {
      Call(KillCall);
      if killReply == KillFailed { return false; }
      match afterKill {
        case ExitAfterKill(ChannelClosed) => ok := false;
        case ExitAfterKill(Status(status)) => ok := status.Code?;
        case StopTimeout => ok := false;
      }
    }

    /** The select loop; `Waiting` when the given events do not decide. */
    method WaitForExecutionEvent(events: seq<Ready>, cpuTimeLimitMs: int) returns (event: Event)
      modifies this
      ensures (event, asked) == Decide(events, replies, old(asked), cpuTimeLimitMs)
      ensures asked >= old(asked) && calls == old(calls) + Repeat(MetricsCall, asked - old(asked))
    {
      var i := 0;
      while i < |events|
        invariant i <= |events| && asked >= old(asked)
        invariant Decide(events, replies, old(asked), cpuTimeLimitMs)
               == Decide(events[i..], replies, asked, cpuTimeLimitMs)
        invariant calls == old(calls) + Repeat(MetricsCall, asked - old(asked))
      {
        assert events[i..][0] == events[i] && events[i..][1..] == events[i + 1..];
        match events[i] {
          case ExitReady(exit) =>
            return if exit.ChannelClosed? then Failed else Exited(exit.status);
          case CpuTick =>
            ghost var n := asked - old(asked);
            var metrics := CollectMetrics();
            RepeatMore(MetricsCall, n);
            if metrics.None? { return Failed; }
            if CpuMillis(metrics.value) >= cpuTimeLimitMs { return Stopped(StopCPUTime, metrics); }
          case OutputLimitReady => return Stopped(StopOutputLimit, None);
          case WallDeadlineReady => return Stopped(StopWallTime, None);
          case ContextDone => return Failed;
        }
        i := i + 1;
      }
      event := Waiting;
    }

    /** Every way out but a natural exit attempts a kill first. */
    method WaitForTask(events: seq<Ready>, cpuTimeLimitMs: int) returns (r: TaskResult)
      modifies this
      ensures r == Conclude(Decide(events, replies, old(asked), cpuTimeLimitMs), replies, killReply, afterKill)
      ensures old(calls) <= calls
      ensures var event := Decide(events, replies, old(asked), cpuTimeLimitMs).0;
              && (event.Stopped? || event.Failed? ==> calls != [] && calls[|calls| - 1] == KillCall)
              && (event.Exited? || event.Waiting? ==> KillCall !in calls[|old(calls)|..])
    {
      ghost var start := asked;
      DecideSource(events, replies, asked, cpuTimeLimitMs);
      var event := WaitForExecutionEvent(events, cpuTimeLimitMs);
      assert calls[|old(calls)|..] == Repeat(MetricsCall, asked - start);
      if event.Waiting? { return Pending; }
      if event.Exited? {
        if event.status.Unreadable? { return TaskError; }
        var metrics := CollectMetrics();
        assert calls[|old(calls)|..] == Repeat(MetricsCall, asked - 1 - start) + [MetricsCall];
        if metrics.None? { return TaskError; }
        return Outcome(event.status.code, NoReason, metrics.value);
      }
      var metrics := if event.Stopped? then event.metrics else None;
      var failed := event.Failed?;
      if event.Stopped? && event.reason != StopCPUTime {
        metrics := CollectMetrics();
        failed := metrics.None?;
      }
      var stopped := StopTask();
      if failed || !stopped { return TaskError; }
      return Outcome(0, event.reason, metrics.value);
    }

    /** `waitForOutput`: the copiers get time to drain; after that they are cancelled and joined. */
    method WaitForOutput() returns (ok: bool)
      modifies this`calls
      ensures ok == drains
      ensures calls == if ok then old(calls) else old(calls) + [CancelIOCall]
    {
      if drains { return true; }
      Call(CancelIOCall);
      return false;
    }

    /** `watchExecution`, with the output writers' final state as an input. */
    method WatchExecution(events: seq<Ready>, output: State, cpuTimeLimitMs: int) returns (r: ExecResult)
      requires calls == [] && asked == 0 && |output.writers| == 2
      modifies this
      ensures r == Watch(Scenario(startOk, events, replies, killReply, afterKill, drains, output), cpuTimeLimitMs)
      ensures startOk ==> var event := Decide(events, replies, 0, cpuTimeLimitMs).0;
                (KillCall in calls <==> event.Stopped? || event.Failed?)
    {
      Call(StartCall);
      if !startOk { return ExecError; }
      Call(CloseIOCall);
      var outcome := WaitForTask(events, cpuTimeLimitMs);
      if outcome.Pending? { return StillRunning; }
      if outcome.TaskError? { return ExecError; }
      var drained := WaitForOutput();
      if !drained { return ExecError; }
      var overflowed := output.writers[0].overflowed || output.writers[1].overflowed;
      var verdict := BuildVerdict(outcome.exitCode, outcome.reason, outcome.metrics, overflowed, cpuTimeLimitMs);
      return Done(verdict, outcome.exitCode, output.writers[0].buf, output.writers[1].buf);
    }
  }

  // -------------------------------------------------------------- safety

  /** The output state is what some interleaving of the two writers leads to, no call is in
      progress once the copiers are drained, and the limit channel is only ready after it fired. */
  ghost predicate Consistent(x: Scenario, limit: int, steps: seq<Step>) {
    && IsRun(Initial(limit, 2), steps) && x.output == After(Initial(limit, 2), steps)
    && |x.output.writers| == 2
    && (x.drained ==> Quiescent(x.output))
    && (OutputLimitReady in x.events ==> x.output.fired)
  }

  /** The verdict is OK exactly when the program exited by itself with code 0 before anything
      stopped it, its CPU time was under the limit, nothing was killed for memory, no output
      was cut, and every runtime operation succeeded. */
  lemma OkExactly(x: Scenario, cpuLimit: int)
    requires |x.output.writers| == 2
    ensures var d := Decide(x.events, x.replies, 0, cpuLimit);
            Watch(x, cpuLimit).Done? && Watch(x, cpuLimit).verdict == VerdictOK <==>
            && x.startOk && x.drained && d.0 == Exited(Code(0))
            && Reply(x.replies, d.1).Some?
            && CpuMillis(Reply(x.replies, d.1).value) < cpuLimit
            && !Reply(x.replies, d.1).value.oomKillDetected
            && !Overflowed(x.output)
  {
    DecideSource(x.events, x.replies, 0, cpuLimit);
  }

  /** A tick asks for metrics and goes on exactly while they can be read and show less CPU time
      than the limit; the first other event decides. */
  lemma FirstEventDecides(events: seq<Ready>, replies: seq<Option<Metrics>>, cpuLimit: int, k: nat)
    requires k <= |events| && QuietUntil(events, replies, 0, cpuLimit, k)
    ensures var d := Decide(events, replies, 0, cpuLimit);
      && (k == |events| ==> d == (Waiting, k))
      && (k < |events| ==>
            match events[k]
            case ExitReady(Status(status)) => d == (Exited(status), k)
            case ExitReady(ChannelClosed) => d == (Failed, k)
            case OutputLimitReady => d == (Stopped(StopOutputLimit, None), k)
            case WallDeadlineReady => d == (Stopped(StopWallTime, None), k)
            case ContextDone => d == (Failed, k)
            case CpuTick =>
              && (k >= |replies| || replies[k] == None ==> d == (Failed, k + 1))
              && (k < |replies| && replies[k].Some? && replies[k].value.cpuNanos >= cpuLimit * 1_000_000 ==>
                    d == (Stopped(StopCPUTime, replies[k]), k + 1)))
  {
    DecideAfterQuiet(events, replies, 0, cpuLimit, k);
    if k < |events| { assert events[k..][0] == events[k]; }
  }

  /** The program was killed for memory, or ran into the memory limit and failed. */
  predicate MemoryBlamed(code: nat, m: Metrics) { m.oomKillDetected || (code != 0 && m.oomDetected) }

  /** The five verdicts of a program that exited by itself: output first, then memory, then CPU
      time, then the exit code. Without metrics or without all its output there is no verdict. */
  lemma ExitVerdict(x: Scenario, cpuLimit: int, k: nat, code: nat)
    requires |x.output.writers| == 2 && x.startOk && k < |x.events| && x.events[k] == ExitReady(Status(Code(code)))
    requires QuietUntil(x.events, x.replies, 0, cpuLimit, k)
    ensures var r := Watch(x, cpuLimit); var read := k < |x.replies| && x.replies[k].Some?;
      && (if read && x.drained then r.Done? && r.exitCode == code else r == ExecError)
      && (r.Done? ==> (r.stdout, r.stderr) == (x.output.writers[0].buf, x.output.writers[1].buf))
      && (r.Done? ==>
            var m := x.replies[k].value; var out := Overflowed(x.output);
            && (r.verdict == VerdictOLE <==> out)
            && (r.verdict == VerdictMLE <==> !out && MemoryBlamed(code, m))
            && (r.verdict == VerdictTLE <==> !out && !MemoryBlamed(code, m) && m.cpuNanos >= cpuLimit * 1_000_000)
            && (r.verdict == VerdictOK <==>
                  !out && !MemoryBlamed(code, m) && m.cpuNanos < cpuLimit * 1_000_000 && code == 0)
            && (r.verdict == VerdictRE <==>
                  !out && !MemoryBlamed(code, m) && m.cpuNanos < cpuLimit * 1_000_000 && code != 0))
  {
    FirstEventDecides(x.events, x.replies, cpuLimit, k);
    hide Decide, QuietUntil;
  }

  /** A stopped program gets a verdict exactly when its metrics were read, the kill found it or
      found it gone, its exit followed and could be read, and all its output arrived. The
      verdict is that of the limit; the exit code of the kill is not reported. */
  lemma StopVerdict(x: Scenario, cpuLimit: int, k: nat)
    requires |x.output.writers| == 2 && x.startOk && k < |x.events|
    requires QuietUntil(x.events, x.replies, 0, cpuLimit, k) && !QuietAt(x.events, x.replies, 0, cpuLimit, k)
    requires x.events[k] in {CpuTick, OutputLimitReady, WallDeadlineReady}
    ensures var r := Watch(x, cpuLimit); var read := k < |x.replies| && x.replies[k].Some?;
      && (if && read && x.drained && x.kill in {Killed, NotFound}
             && (exists code: nat :: x.after == ExitAfterKill(Status(Code(code)))) then r.Done? else r == ExecError)
      && (r.Done? ==>
            && r.exitCode == 0 && (r.stdout, r.stderr) == (x.output.writers[0].buf, x.output.writers[1].buf)
            && r.verdict == if x.events[k] == OutputLimitReady then VerdictOLE else VerdictTLE)
  {
    FirstEventDecides(x.events, x.replies, cpuLimit, k);
    hide Decide, QuietUntil;
    if Stops(x.kill, x.after) { assert x.after == ExitAfterKill(Status(Code(x.after.exit.status.code))); }
  }

  /** Every other run is still going on or ends without a verdict. */
  lemma NoVerdict(x: Scenario, cpuLimit: int, k: nat)
    requires |x.output.writers| == 2 && k <= |x.events| && QuietUntil(x.events, x.replies, 0, cpuLimit, k)
    ensures !x.startOk ==> Watch(x, cpuLimit) == ExecError
    ensures x.startOk && k == |x.events| ==> Watch(x, cpuLimit) == StillRunning
    ensures var fatal := {ContextDone, ExitReady(ChannelClosed), ExitReady(Status(Unreadable))};
      (x.startOk && k < |x.events| && x.events[k] in fatal ==> Watch(x, cpuLimit) == ExecError)
  {
    FirstEventDecides(x.events, x.replies, cpuLimit, k);
    hide Decide, QuietUntil;
  }

  /** MLE exactly when the program exited, nothing overflowed, and a memory kill was seen or
      the code is not 0 with memory pressure seen. */
  lemma MleExactly(x: Scenario, cpuLimit: int)
    requires |x.output.writers| == 2
    ensures var d := Decide(x.events, x.replies, 0, cpuLimit); var m := Reply(x.replies, d.1);
      Watch(x, cpuLimit).Done? && Watch(x, cpuLimit).verdict == VerdictMLE <==>
        && x.startOk && x.drained && d.0.Exited? && d.0.status.Code? && m.Some? && !Overflowed(x.output)
        && (m.value.oomKillDetected || (d.0.status.code != 0 && m.value.oomDetected))
  {
    DecideSource(x.events, x.replies, 0, cpuLimit);
    hide Decide;
  }

  /** TLE exactly for a completed stop for time, or an exit at or over the CPU limit without an
      overflow and without blame on memory. */
  lemma TleExactly(x: Scenario, cpuLimit: int)
    requires |x.output.writers| == 2
    ensures var d := Decide(x.events, x.replies, 0, cpuLimit); var m := Reply(x.replies, d.1);
      Watch(x, cpuLimit).Done? && Watch(x, cpuLimit).verdict == VerdictTLE <==>
        && x.startOk && x.drained
        && (|| (&& d.0.Stopped? && Stops(x.kill, x.after)
                && (d.0.reason == StopCPUTime || (d.0.reason == StopWallTime && m.Some?)))
            || (&& d.0.Exited? && d.0.status.Code? && m.Some? && !Overflowed(x.output)
                && m.value.cpuNanos >= cpuLimit * 1_000_000
                && !m.value.oomKillDetected && (d.0.status.code == 0 || !m.value.oomDetected)))
  {
    DecideSource(x.events, x.replies, 0, cpuLimit);
    hide Decide;
  }

  /** RE exactly for every other nonzero exit code. */
  lemma ReExactly(x: Scenario, cpuLimit: int)
    requires |x.output.writers| == 2
    ensures var d := Decide(x.events, x.replies, 0, cpuLimit); var m := Reply(x.replies, d.1);
      Watch(x, cpuLimit).Done? && Watch(x, cpuLimit).verdict == VerdictRE <==>
        && x.startOk && x.drained && d.0.Exited? && d.0.status.Code? && d.0.status.code != 0 && m.Some?
        && !Overflowed(x.output) && m.value.cpuNanos < cpuLimit * 1_000_000
        && !m.value.oomKillDetected && !m.value.oomDetected
  {
    DecideSource(x.events, x.replies, 0, cpuLimit);
    hide Decide;
  }

  /** An OK verdict reports exactly the bytes the program wrote, to either stream, whatever
      the interleaving; they fit the limit, and the process had exited with code 0. */
  lemma OkMeansComplete(x: Scenario, cpuLimit: int, limit: int, steps: seq<Step>)
    requires Consistent(x, limit, steps)
    requires Watch(x, cpuLimit).Done? && Watch(x, cpuLimit).verdict == VerdictOK
    ensures Watch(x, cpuLimit).stdout == x.output.writers[0].seen
    ensures Watch(x, cpuLimit).stderr == x.output.writers[1].seen
    ensures SumSeen(x.output.writers) <= Capacity(x.output)
    ensures ExitReady(Status(Code(0))) in x.events
  {
    hide BuildVerdict, Decide, Conclude, Initial;
    OkExactly(x, cpuLimit);
    DecideSource(x.events, x.replies, 0, cpuLimit);
    BudgetExact(limit, 2, steps);
    assert HasOverflowed(x.output.writers) <==> Overflowed(x.output);
  }

  /** Event `j` is a tick that reads a CPU time under the limit. */
  predicate QuietAt(events: seq<Ready>, replies: seq<Option<Metrics>>, asked: nat, cpuLimit: int, j: nat)
    requires j < |events|
  {
    var m := Reply(replies, asked + j);
    events[j].CpuTick? && m.Some? && m.value.cpuNanos < cpuLimit * 1_000_000
  }

  /** The ticks before index `k` all read a CPU time under the limit. */
  predicate QuietUntil(events: seq<Ready>, replies: seq<Option<Metrics>>, asked: nat, cpuLimit: int, k: nat)
    requires k <= |events|
  {
    forall j: nat | j < k :: QuietAt(events, replies, asked, cpuLimit, j)
  }

  lemma {:induction false} DecideAfterQuiet(
      events: seq<Ready>, replies: seq<Option<Metrics>>, asked: nat, cpuLimit: int, k: nat)
    requires k <= |events| && QuietUntil(events, replies, asked, cpuLimit, k)
    ensures Decide(events, replies, asked, cpuLimit) == Decide(events[k..], replies, asked + k, cpuLimit)
    decreases k
  {
    if k == 0 {
      assert events[0..] == events;
    } else {
      assert QuietAt(events, replies, asked, cpuLimit, 0);
      var tail, next := events[1..], asked + 1;
      forall j: nat | j < k - 1 ensures QuietAt(tail, replies, next, cpuLimit, j) {
        assert QuietAt(events, replies, asked, cpuLimit, j + 1);
        assert tail[j] == events[j + 1];
      }
      DecideAfterQuiet(tail, replies, next, cpuLimit, k - 1);
      assert events[1..][k - 1..] == events[k..];
      assert asked + 1 + (k - 1) == asked + k;
    }
  }

  /** After an overflow the race between the exit and the output limit does not matter:
      whichever the select picks first, the verdict is OLE. */
  lemma RaceIsOle(x: Scenario, cpuLimit: int, k: nat)
    requires |x.output.writers| == 2 && Overflowed(x.output) && x.startOk && x.drained
    requires k < |x.events| && QuietUntil(x.events, x.replies, 0, cpuLimit, k) && Reply(x.replies, k).Some?
    requires x.events[k] == OutputLimitReady || (exists code: nat :: x.events[k] == ExitReady(Status(Code(code))))
    requires Stops(x.kill, x.after)
    ensures Watch(x, cpuLimit).Done? && Watch(x, cpuLimit).verdict == VerdictOLE
  {
    DecideAfterQuiet(x.events, x.replies, 0, cpuLimit, k);
    assert x.events[k..][0] == x.events[k];
  }

  /** No run is accepted, nor blamed for memory or a crash, once it had to be stopped: a stop
      for time is TLE and a stop for output is OLE, whatever the metrics say. */
  lemma StopDecides(x: Scenario, cpuLimit: int)
    requires |x.output.writers| == 2 && Watch(x, cpuLimit).Done?
    ensures var e := Decide(x.events, x.replies, 0, cpuLimit).0;
            var v := Watch(x, cpuLimit).verdict;
            && (e.Exited? || e.Stopped?)
            && (e.Stopped? ==> v == if e.reason == StopOutputLimit then VerdictOLE else VerdictTLE)
            && (v == VerdictOLE <==> (e.Stopped? && e.reason == StopOutputLimit) || (e.Exited? && Overflowed(x.output)))
            && (v == VerdictRE ==> e.Exited? && e.status.Code? && e.status.code != 0 && !Overflowed(x.output))
            && (v == VerdictMLE ==> e.Exited? && !Overflowed(x.output))
  {
    DecideSource(x.events, x.replies, 0, cpuLimit);
  }

  /** An OLE verdict is never a false alarm: more was written than the limit allows. */
  lemma OleMeansTooMuch(x: Scenario, cpuLimit: int, limit: int, steps: seq<Step>)
    requires Consistent(x, limit, steps)
    requires Watch(x, cpuLimit).Done? && Watch(x, cpuLimit).verdict == VerdictOLE
    ensures SumSeen(x.output.writers) > Capacity(x.output)
    ensures SumBuf(x.output.writers) == Capacity(x.output)
  {
    hide BuildVerdict, Decide, Conclude, Initial;
    StopDecides(x, cpuLimit);
    DecideSource(x.events, x.replies, 0, cpuLimit);
    BudgetExact(limit, 2, steps);
    assert HasOverflowed(x.output.writers) <==> Overflowed(x.output);
  }
}
