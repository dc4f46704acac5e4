/** The byte budget shared by several output writers, as atomic steps that may
    interleave in any order (internal/sandbox/output_limiter.go:9-81). */
module OutputBudget {
  import opened Bytes

  /** How many of the requested bytes the pool still gives. */
  function Grant(limit: int, used: int, requested: nat): (granted: nat)
    ensures granted <= requested
  {
    var remaining := limit - used;
    if remaining <= 0 then 0 else if requested < remaining then requested else remaining
  }

  // ----------------------------------------------------- the objects themselves

  class OutputLimiter {
    const limit: int
    var used: int
    /** The channel is closed. */
    var fired: bool

    constructor (maxBytes: int)
      ensures limit == maxBytes && used == 0 && !fired
    {
      limit := maxBytes;
      used := 0;
      fired := false;
    }

    method Signal()
      modifies this`fired
      ensures fired
    {
      fired := true;
    }

    /** The whole body runs under the limiter's mutex. */
    method Reserve(requested: nat) returns (granted: nat)
      modifies this`used
      ensures granted == Grant(limit, old(used), requested)
      ensures used == old(used) + granted
      ensures old(used) <= limit ==> used <= limit
    {
      var remaining := limit - used;
      if remaining <= 0 { return 0; }
      granted := if requested < remaining then requested else remaining;
      used := used + granted;
    }
  }

  class LimitedWriter {
    var buf: seq<Byte>
    var overflowed: bool
    const limiter: OutputLimiter

    constructor (limiter: OutputLimiter)
      ensures buf == [] && !overflowed && this.limiter == limiter
    {
      buf := [];
      overflowed := false;
      this.limiter := limiter;
    }

    /** One uninterrupted call is the chain of its atomic steps. */
    method Write(p: seq<Byte>) returns (n: nat)
      modifies this, limiter
      ensures n == |p|
      ensures var w := Writer(old(buf), old(overflowed), Idle, []);
              var s := WholeWrite(State(limiter.limit, old(limiter.used), old(limiter.fired), [w]), 0, p);
              && limiter.used == s.used && limiter.fired == s.fired
              && buf == s.writers[0].buf && overflowed == s.writers[0].overflowed
    {
      n := |p|;
      if overflowed { return; }
      var allowed := limiter.Reserve(|p|);
      if allowed > 0 { buf := buf + p[..allowed]; }
      if allowed < n {
        overflowed := true;
        limiter.Signal();
      }
    }
  }

  // ------------------------------------------------------------ interleavings

  /** Where a writer's current call stands; its mutex admits one call at a time. */
  datatype Pc = Idle | Started(p: seq<Byte>) | Granted(p: seq<Byte>, n: nat) | Marking | Signalling

  /** `seen` is everything ever passed to the writer's calls, in lock order. */
  datatype Writer = Writer(buf: seq<Byte>, overflowed: bool, pc: Pc, seen: seq<Byte>)

  datatype State = State(limit: int, used: int, fired: bool, writers: seq<Writer>)

  datatype Step = Begin(w: nat, p: seq<Byte>) | Reserve(w: nat) | Append(w: nat) | Mark(w: nat) | Signal(w: nat)

  predicate Enabled(s: State, step: Step) {
    && step.w < |s.writers|
    && var pc := s.writers[step.w].pc;
       match step
       case Begin(_, _) => pc.Idle?
       case Reserve(_) => pc.Started?
       case Append(_) => pc.Granted? && pc.n <= |pc.p|
       case Mark(_) => pc.Marking?
       case Signal(_) => pc.Signalling?
  }

  function Apply(s: State, step: Step): State
    requires Enabled(s, step)
  {
    var w := s.writers[step.w];
    match step
    case Begin(i, p) =>
      s.(writers := s.writers[i := w.(seen := w.seen + p, pc := if w.overflowed then Idle else Started(p))])
    case Reserve(i) =>
      var granted := Grant(s.limit, s.used, |w.pc.p|);
      s.(used := s.used + granted, writers := s.writers[i := w.(pc := Granted(w.pc.p, granted))])
    case Append(i) =>
      s.(writers := s.writers[i := w.(buf := w.buf + w.pc.p[..w.pc.n],
                                      pc := if w.pc.n < |w.pc.p| then Marking else Idle)])
    case Mark(i) => s.(writers := s.writers[i := w.(overflowed := true, pc := Signalling)])
    case Signal(i) => s.(fired := true, writers := s.writers[i := w.(pc := Idle)])
  }

  /** A run: any sequence of steps of any writers, each enabled where it happens. */
  predicate IsRun(s: State, steps: seq<Step>)
    decreases |steps|
  {
    steps == [] || (Enabled(s, steps[0]) && IsRun(Apply(s, steps[0]), steps[1..]))
  }

  function After(s: State, steps: seq<Step>): State
    requires IsRun(s, steps)
    decreases |steps|
  {
    if steps == [] then s else After(Apply(s, steps[0]), steps[1..])
  }

  function Initial(limit: int, n: nat): State {
    State(limit, 0, false, seq(n, _ => Writer([], false, Idle, [])))
  }

  function WholeWrite(s: State, i: nat, p: seq<Byte>): State
    requires i < |s.writers| && s.writers[i].pc.Idle?
  {
    var s1 := Apply(s, Begin(i, p));
    if s.writers[i].overflowed then s1
    else
      var s2 := Apply(s1, Reserve(i));
      var s3 := Apply(s2, Append(i));
      if s3.writers[i].pc.Idle? then s3 else Apply(Apply(s3, Mark(i)), Signal(i))
  }

  // -------------------------------------------------------------- invariant

  function Capacity(s: State): nat { if s.limit < 0 then 0 else s.limit }

  function InFlight(w: Writer): nat { if w.pc.Granted? then w.pc.n else 0 }

  function Held(w: Writer): nat { |w.buf| + InFlight(w) }

  function SumHeld(ws: seq<Writer>): nat {
    if ws == [] then 0 else Held(ws[0]) + SumHeld(ws[1..])
  }

  function SumBuf(ws: seq<Writer>): nat {
    if ws == [] then 0 else |ws[0].buf| + SumBuf(ws[1..])
  }

  function SumSeen(ws: seq<Writer>): nat {
    if ws == [] then 0 else |ws[0].seen| + SumSeen(ws[1..])
  }

  predicate StrictPrefix(a: seq<Byte>, b: seq<Byte>) { a <= b && |a| < |b| }

  /** What a writer's fields say about its input, given whether the pool is used up. */
  predicate WriterInv(w: Writer, exhausted: bool, fired: bool) {
    match w.pc
    case Idle => if w.overflowed then StrictPrefix(w.buf, w.seen) && exhausted && fired else w.buf == w.seen
    case Started(p) => !w.overflowed && w.seen == w.buf + p
    case Granted(p, n) => !w.overflowed && w.seen == w.buf + p && n <= |p| && (n < |p| ==> exhausted)
    case Marking => !w.overflowed && StrictPrefix(w.buf, w.seen) && exhausted
    case Signalling => w.overflowed && StrictPrefix(w.buf, w.seen) && exhausted
  }

  predicate HasOverflowed(ws: seq<Writer>) {
    exists i | 0 <= i < |ws| :: ws[i].overflowed
  }

  /** Bytes held plus grants in flight are exactly what was taken from the pool. */
  ghost predicate Inv(s: State) {
    && s.used == SumHeld(s.writers) && s.used <= Capacity(s)
    && (forall i | 0 <= i < |s.writers| :: WriterInv(s.writers[i], s.used == Capacity(s), s.fired))
    && (s.fired ==> HasOverflowed(s.writers))
  }

  lemma {:induction false} SumUpdate(ws: seq<Writer>, i: nat, w: Writer)
    requires i < |ws|
    ensures SumHeld(ws[i := w]) == SumHeld(ws) - Held(ws[i]) + Held(w)
  {
    if i == 0 {
      assert ws[0 := w][1..] == ws[1..];
    } else {
      assert ws[i := w][1..] == ws[1..][i - 1 := w];
      SumUpdate(ws[1..], i - 1, w);
    }
  }

  /** Every atomic step of every writer keeps the invariant. */
  lemma StepKeepsInv(s: State, step: Step)
    requires Inv(s) && Enabled(s, step)
    ensures Inv(Apply(s, step))
  {
    var i := step.w;
    var t := Apply(s, step);
    var w, v := s.writers[i], t.writers[i];
    SumUpdate(s.writers, i, v);
    assert t.writers == s.writers[i := v];
    WriterStep(s, step);
    hide Apply, Enabled;
    if s.fired {
      var k :| 0 <= k < |s.writers| && s.writers[k].overflowed;
      assert t.writers[k].overflowed;
    } else if t.fired {
      assert t.writers[i].overflowed;
    }
    assert s.used == Capacity(s) ==> t.used == Capacity(t);
    forall k | 0 <= k < |t.writers| ensures WriterInv(t.writers[k], t.used == Capacity(t), t.fired) {
      if k != i { assert t.writers[k] == s.writers[k]; }
    }
  }

  lemma WriterStep(s: State, step: Step)
    requires Inv(s) && Enabled(s, step)
    ensures var t := Apply(s, step);
            var w, v := s.writers[step.w], t.writers[step.w];
            && t.limit == s.limit && |t.writers| == |s.writers|
            && t.used == s.used - Held(w) + Held(v) && t.used <= Capacity(t) && s.used <= t.used
            && WriterInv(v, t.used == Capacity(t), t.fired)
            && (w.overflowed ==> v.overflowed) && (t.fired && !s.fired ==> v.overflowed) && (s.fired ==> t.fired)
  {
    var w := s.writers[step.w];
    assert WriterInv(w, s.used == Capacity(s), s.fired);
    match step
    case Begin(i, p) =>
    case Reserve(i) =>
    case Append(i) => assert w.pc.p == w.pc.p[..w.pc.n] + w.pc.p[w.pc.n..];
    case Mark(i) =>
    case Signal(i) =>
  }

  lemma {:induction false} RunKeepsInv(s: State, steps: seq<Step>)
    requires Inv(s) && IsRun(s, steps)
    ensures Inv(After(s, steps))
    ensures After(s, steps).limit == s.limit && |After(s, steps).writers| == |s.writers|
    decreases |steps|
  {
    if steps != [] {
      StepKeepsInv(s, steps[0]);
      RunKeepsInv(Apply(s, steps[0]), steps[1..]);
    }
  }

  lemma {:induction false} InitialSum(ws: seq<Writer>)
    requires forall i | 0 <= i < |ws| :: Held(ws[i]) == 0
    ensures SumHeld(ws) == 0
  {
    if ws != [] { InitialSum(ws[1..]); }
  }

  /** Budget safety: in every interleaving of any number of writers the pool is never
      overdrawn, every buffer is a prefix of its own input, and bytes stored plus grants in
      flight equal the bytes taken. */
  lemma BudgetSafety(limit: int, n: nat, steps: seq<Step>)
    requires IsRun(Initial(limit, n), steps)
    ensures var s := After(Initial(limit, n), steps);
            && |s.writers| == n && s.used == SumHeld(s.writers) <= Capacity(s) && s.limit == limit
            && (forall i | 0 <= i < n :: s.writers[i].buf <= s.writers[i].seen)
            && Inv(s)
  {
    var s0 := Initial(limit, n);
    InitialSum(s0.writers);
    RunKeepsInv(s0, steps);
    var s := After(s0, steps);
    hide After, IsRun;
    forall i | 0 <= i < n ensures s.writers[i].buf <= s.writers[i].seen {
      assert WriterInv(s.writers[i], s.used == Capacity(s), s.fired);
    }
  }

  // ------------------------------------------------------------- quiescence

  predicate Quiescent(s: State) { forall i | 0 <= i < |s.writers| :: s.writers[i].pc.Idle? }

  lemma {:induction false} QuiescentSums(ws: seq<Writer>, exhausted: bool, fired: bool)
    requires forall i | 0 <= i < |ws| :: ws[i].pc.Idle? && WriterInv(ws[i], exhausted, fired)
    ensures SumHeld(ws) == SumBuf(ws) <= SumSeen(ws)
    ensures SumBuf(ws) == SumSeen(ws) <==> !HasOverflowed(ws)
    ensures HasOverflowed(ws) ==> exhausted && fired
  {
    if ws != [] {
      QuiescentSums(ws[1..], exhausted, fired);
      assert WriterInv(ws[0], exhausted, fired);
      if HasOverflowed(ws) && !ws[0].overflowed {
        var i :| 0 <= i < |ws| && ws[i].overflowed;
        assert ws[1..][i - 1].overflowed;
      }
      if HasOverflowed(ws[1..]) {
        var i :| 0 <= i < |ws[1..]| && ws[1..][i].overflowed;
        assert ws[i + 1].overflowed;
      }
    }
  }

  /** Once no call is in progress, exactly the first min(limit, total) bytes are stored, and
      "some writer overflowed", "the signal fired" and "more was written than the limit" are
      the same thing; a writer that did not overflow holds its whole input. */
  lemma BudgetExact(limit: int, n: nat, steps: seq<Step>)
    requires IsRun(Initial(limit, n), steps) && Quiescent(After(Initial(limit, n), steps))
    ensures var s := After(Initial(limit, n), steps);
            var total := SumSeen(s.writers);
            && |s.writers| == n
            && SumBuf(s.writers) == (if total <= Capacity(s) then total else Capacity(s))
            && (HasOverflowed(s.writers) <==> total > Capacity(s))
            && (s.fired <==> total > Capacity(s))
            && (forall i | 0 <= i < n :: !s.writers[i].overflowed ==> s.writers[i].buf == s.writers[i].seen)
  {
    BudgetSafety(limit, n, steps);
    var s := After(Initial(limit, n), steps);
    hide After, IsRun, Initial;
    QuiescentSums(s.writers, s.used == Capacity(s), s.fired);
    forall i | 0 <= i < n && !s.writers[i].overflowed ensures s.writers[i].buf == s.writers[i].seen {
      assert WriterInv(s.writers[i], s.used == Capacity(s), s.fired);
    }
  }
}
