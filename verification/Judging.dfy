/** What a checker's exit code means for the submission
    (internal/service/checker.go:201-208), from the three files to the outcome. */
module Judging {
  import opened Bytes
  import opened Decimal
  import opened TokenText
  import opened InputStreams
  import opened TokenCheckers
  import opened LineText
  import opened DefaultChecker
  import opened DefaultReference
  import HugeIntegers
  import PatternParser
  import Watcher

  datatype Outcome = Accepted | Rejected | CheckerFailed

  function CheckOutcome(verdict: Watcher.Verdict, exitCode: nat): Outcome {
    if verdict == Watcher.VerdictOK && exitCode == 0 then Accepted
    else if verdict == Watcher.VerdictRE && (exitCode == 1 || exitCode == 2) then Rejected
    else CheckerFailed
  }

  /** The outcome of one watched run of the checker; None when the run itself failed. */
  function Judge(run: Watcher.Scenario, cpuLimit: int): Option<Outcome>
    requires |run.output.writers| == 2
  {
    match Watcher.Watch(run, cpuLimit)
    case Done(verdict, exitCode, _, _) => Some(CheckOutcome(verdict, exitCode))
    case _ => None
  }

  /** The checker ended by itself with this code, within its limits, and every operation of
      the runtime succeeded. */
  predicate EndsWith(run: Watcher.Scenario, cpuLimit: int, code: nat)
    requires |run.output.writers| == 2
  {
    var d := Watcher.Decide(run.events, run.replies, 0, cpuLimit);
    var m := Watcher.Reply(run.replies, d.1);
    && run.startOk && run.drained && d.0 == Watcher.Exited(Watcher.Code(code)) && m.Some?
    && Watcher.CpuMillis(m.value) < cpuLimit
    && !m.value.oomKillDetected && !(code != 0 && m.value.oomDetected)
    && !Watcher.Overflowed(run.output)
  }

  /** A submission is accepted or rejected only by a checker that ended by itself within its
      limits, with code 0 or with 1 or 2. A stopped, killed or truncated checker run decides
      nothing. */
  lemma OutcomeExactly(run: Watcher.Scenario, cpuLimit: int)
    requires |run.output.writers| == 2
    ensures Judge(run, cpuLimit) == Some(Accepted) <==> EndsWith(run, cpuLimit, 0)
    ensures Judge(run, cpuLimit) == Some(Rejected) <==> EndsWith(run, cpuLimit, 1) || EndsWith(run, cpuLimit, 2)
  {
    Watcher.OkExactly(run, cpuLimit);
    if Watcher.Watch(run, cpuLimit).Done? { Watcher.StopDecides(run, cpuLimit); }
  }

  lemma EndedOutcome(run: Watcher.Scenario, cpuLimit: int, code: nat)
    requires |run.output.writers| == 2 && EndsWith(run, cpuLimit, code)
    ensures Judge(run, cpuLimit) == Some(if code == 0 then Accepted else if code <= 2 then Rejected else CheckerFailed)
  {
  }

  // ------------------------------------------------------- from files to outcome

  /** A file too large to be opened decides before anything is read. */
  function SizeOutcome(input: seq<Byte>, output: seq<Byte>, answer: seq<Byte>): Option<Outcome> {
    if |input| > MAX_FILE_SIZE then Some(CheckerFailed)
    else if |output| > MAX_FILE_SIZE then Some(Rejected)
    else if |answer| > MAX_FILE_SIZE then Some(CheckerFailed)
    else None
  }

  /** The run of a checker on three files ended with the code of its program, which is `code`
      once the files are open. */
  predicate Ran(
      run: Watcher.Scenario, cpuLimit: int, input: seq<Byte>, output: seq<Byte>, answer: seq<Byte>, code: nat)
    requires |run.output.writers| == 2
  {
    EndsWith(run, cpuLimit, ExitWith(input, output, answer, code))
  }

  lemma FilesOutcome(
      run: Watcher.Scenario, cpuLimit: int, input: seq<Byte>, output: seq<Byte>, answer: seq<Byte>, code: nat)
    requires |run.output.writers| == 2 && Ran(run, cpuLimit, input, output, answer, code)
    ensures Judge(run, cpuLimit) ==
      if SizeOutcome(input, output, answer).Some? then SizeOutcome(input, output, answer)
      else Some(if code == 0 then Accepted else if code <= 2 then Rejected else CheckerFailed)
  {
    RegisterBlames(input, output, answer);
    EndedOutcome(run, cpuLimit, ExitWith(input, output, answer, code));
    hide EndsWith, Judge, RegisterFault;
  }

  /** wcmp: accepted exactly for equal sequences of readable tokens; the checker has failed
      exactly when, before any difference, an answer token is too long; rejected otherwise. */
  lemma WcmpJudges(
      input: seq<Byte>, output: seq<Byte>, answer: seq<Byte>, run: Watcher.Scenario, cpuLimit: int)
    requires |run.output.writers| == 2
    requires Ran(run, cpuLimit, input, output, answer, WcmpCode(Tokens(answer), Tokens(StripBom(output))))
    ensures SizeOutcome(input, output, answer).Some? ==> Judge(run, cpuLimit) == SizeOutcome(input, output, answer)
    ensures SizeOutcome(input, output, answer).None? ==>
      var ans, ouf := Tokens(answer), Tokens(StripBom(output));
      && (Judge(run, cpuLimit) == Some(Accepted) <==> ans == ouf && forall i | 0 <= i < |ans| :: Short(ans[i]))
      && (Judge(run, cpuLimit) == Some(CheckerFailed) <==> exists i: nat :: AnswerBlamed(ans, ouf, i))
      && Judge(run, cpuLimit).Some?
  {
    var ans, ouf := Tokens(answer), Tokens(StripBom(output));
    FilesOutcome(run, cpuLimit, input, output, answer, WcmpCode(ans, ouf));
    WcmpAccepts(ans, ouf);
    WcmpBlamesAnswer(ans, ouf);
    WcmpRange(ans, ouf);
    hide Ran, Judge, AnswerBlamed, Tokens, StripBom, WcmpCode, SizeOutcome;
  }

  lemma {:induction false} WcmpRange(ans: seq<Token>, ouf: seq<Token>)
    ensures WcmpCode(ans, ouf) <= 3
    decreases |ans|
  {
    if ans != [] && ouf != [] { WcmpRange(ans[1..], ouf[1..]); }
  }

  /** ncmp: accepted exactly for equal sequences of int64 tokens; the checker has failed
      exactly when the first fault in reading order is in the answer file; rejected otherwise. */
  lemma NcmpJudges(
      input: seq<Byte>, output: seq<Byte>, answer: seq<Byte>, run: Watcher.Scenario, cpuLimit: int)
    requires |run.output.writers| == 2
    requires Ran(run, cpuLimit, input, output, answer, NcmpCode(Tokens(answer), Tokens(StripBom(output))))
    ensures SizeOutcome(input, output, answer).Some? ==> Judge(run, cpuLimit) == SizeOutcome(input, output, answer)
    ensures SizeOutcome(input, output, answer).None? ==>
      var ans, ouf := Tokens(answer), Tokens(StripBom(output));
      && (Judge(run, cpuLimit) == Some(Accepted) <==>
            ans == ouf && forall i | 0 <= i < |ans| :: Int64Of(ans[i]).Some?)
      && (Judge(run, cpuLimit) == Some(CheckerFailed) <==> exists i: nat :: FirstFaultInAnswer(ans, ouf, i))
      && Judge(run, cpuLimit).Some?
  {
    var ans, ouf := Tokens(answer), Tokens(StripBom(output));
    FilesOutcome(run, cpuLimit, input, output, answer, NcmpCode(ans, ouf));
    NcmpAccepts(ans, ouf);
    NcmpFirstFault(ans, ouf);
    hide Ran, Judge, FirstFaultInAnswer, FirstFaultInOutput, Tokens, StripBom, SizeOutcome, NcmpCode;
  }

  /** The answer file has no readable first word, or, with a readable first output word,
      something else than one canonical integer. */
  predicate HcmpAnswerBad(ans: seq<Token>, ouf: seq<Token>) {
    || ans == [] || !Short(ans[0])
    || (ouf != [] && Short(ouf[0]) && (|ans| > 1 || !Canonical(ans[0])))
  }

  /** hcmp: accepted exactly when both files hold one canonical integer of the same value;
      the checker has failed exactly when the answer file is bad; rejected otherwise. */
  lemma HcmpJudges(
      input: seq<Byte>, output: seq<Byte>, answer: seq<Byte>, run: Watcher.Scenario, cpuLimit: int)
    requires |run.output.writers| == 2
    requires Ran(run, cpuLimit, input, output, answer, HcmpCode(Tokens(answer), Tokens(StripBom(output))))
    ensures SizeOutcome(input, output, answer).Some? ==> Judge(run, cpuLimit) == SizeOutcome(input, output, answer)
    ensures SizeOutcome(input, output, answer).None? ==>
      var ans, ouf := Tokens(answer), Tokens(StripBom(output));
      && (Judge(run, cpuLimit) == Some(Accepted) <==>
            && |ans| == 1 && |ouf| == 1 && Short(ans[0]) && Short(ouf[0])
            && Canonical(ans[0]) && Canonical(ouf[0]) && IntValue(ans[0]) == IntValue(ouf[0]))
      && (Judge(run, cpuLimit) == Some(CheckerFailed) <==> HcmpAnswerBad(ans, ouf))
      && Judge(run, cpuLimit).Some?
  {
    var ans, ouf := Tokens(answer), Tokens(StripBom(output));
    FilesOutcome(run, cpuLimit, input, output, answer, HcmpCode(ans, ouf));
    HcmpAccepts(ans, ouf);
    HcmpFails(ans, ouf);
    hide Ran, Judge, Canonical, HcmpCode, HcmpAnswerBad, Tokens, StripBom, SizeOutcome, Short;
  }

  lemma ShortFits(w: Token)
    requires Short(w)
    ensures |w| <= INT_MAX
  {
  }

  lemma HcmpFails(ans: seq<Token>, ouf: seq<Token>)
    ensures HcmpCode(ans, ouf) == 3 <==> HcmpAnswerBad(ans, ouf)
    ensures HcmpCode(ans, ouf) <= 3
  {
    hide Canonical, HugeIntegers.IsNumeric, Short, PatternParser.Parse, HugeIntegers.PNUM_TEXT;
    if ans != [] && Short(ans[0]) {
      ShortFits(ans[0]);
      HugeIntegers.NumericIffCanonical(ans[0]);
    }
  }

  /** The default checker: accepted exactly when the lines read agree one by one up to
      invisible bytes at the end, rejected otherwise. On clean files these are the lines
      between the line feeds. */
  lemma DefaultJudges(
      input: seq<Byte>, output: seq<Byte>, answer: seq<Byte>, run: Watcher.Scenario, cpuLimit: int)
    requires |run.output.writers| == 2
    requires Ran(run, cpuLimit, input, output, answer, DefaultCode(answer, output))
    ensures SizeOutcome(input, output, answer).Some? ==> Judge(run, cpuLimit) == SizeOutcome(input, output, answer)
    ensures SizeOutcome(input, output, answer).None? ==>
      Judge(run, cpuLimit) == Some(
        if SameLines(LinesRead(answer), LinesRead(Unmarked(output))) then Accepted else Rejected)
    ensures SizeOutcome(input, output, answer).None? && CleanLines(answer) && CleanLines(Unmarked(output)) ==>
      Judge(run, cpuLimit) == Some(
        if SameLines(Pieces(answer), Pieces(Unmarked(output))) then Accepted else Rejected)
  {
    FilesOutcome(run, cpuLimit, input, output, answer, DefaultCode(answer, output));
    AcceptsLinesRead(answer, output);
    if CleanLines(answer) && CleanLines(Unmarked(output)) { AcceptsClean(answer, output); }
    hide *;
  }
}
