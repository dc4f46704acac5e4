/** The token checkers as programs over three files, and the relation on texts
    each of them computes (support/checkers/wcmp.cpp, ncmp.cpp, hcmp.cpp;
    support/testlib.h:3278-3303, 4843-4912). */
module TokenCheckers {
  import opened Bytes
  import opened Decimal
  import opened TokenText
  import opened PushbackStream
  import opened InputStreams
  import PatternTree
  import PatternParser
  import PatternCompiler
  import opened HugeIntegers

  type Token = seq<Byte>

  predicate Short(w: Token) { |w| <= MAX_TOKEN_LENGTH }

  /** The exit code when a file is too large to be opened at all: input, output, answer, in this order. */
  function RegisterFault(input: seq<Byte>, output: seq<Byte>, answer: seq<Byte>): Option<nat> {
    if |input| > MAX_FILE_SIZE then Some(QuitCode(InputMode, Pe, true))
    else if |output| > MAX_FILE_SIZE then Some(QuitCode(OutputMode, Pe, true))
    else if |answer| > MAX_FILE_SIZE then Some(QuitCode(AnswerMode, Pe, true))
    else None
  }

  /** Files open unless one is too large; then the first of input, output and answer decides
      whom the code blames. */
  lemma RegisterBlames(input: seq<Byte>, output: seq<Byte>, answer: seq<Byte>)
    ensures RegisterFault(input, output, answer) ==
      if |input| > 134_217_728 then Some(3)
      else if |output| > 134_217_728 then Some(2)
      else if |answer| > 134_217_728 then Some(3)
      else None
  {
  }

  /** The exit code of a checker that would end with `code` once its files are open. */
  function ExitWith(input: seq<Byte>, output: seq<Byte>, answer: seq<Byte>, code: nat): nat {
    var fault := RegisterFault(input, output, answer);
    if fault.Some? then fault.value else code
  }

  /** `quit(_ok)` looks for unread output first. */
  method QuitOk(ouf: InStream) returns (code: nat)
    requires ouf.Valid()
    modifies ouf.reader, ouf.reader.buffer, ouf.reader.isEof
    ensures code == QuitCode(OutputMode, Ok, Tokens(old(ouf.Text())) == [])
  {
    hide InStream.Valid, InStream.Text, Tokens;
    var atEnd := ouf.SeekEof();
    code := QuitCode(OutputMode, Ok, atEnd);
  }

  // --------------------------------------------- an answer and an output stream

  ghost function Footprint(s: InStream): set<object> { {s.reader, s.reader.buffer, s.reader.isEof} }

  /** Both streams are usable and share nothing. */
  ghost predicate Ready(ans: InStream, ouf: InStream)
    reads ans.reader, ans.reader.buffer, ans.reader.isEof, ouf.reader, ouf.reader.buffer, ouf.reader.isEof
  {
    && ans.Valid() && ouf.Valid() && ans.mode == AnswerMode && ouf.mode == OutputMode
    && ans.reader.depth <= 2 && ouf.reader.depth <= 2
    && ans.reader != ouf.reader && ans.reader.buffer != ouf.reader.buffer && ans.reader.isEof != ouf.reader.isEof
  }

  ghost function AnsTokens(ans: InStream): seq<Token>
    requires ans.Valid()
    reads ans.reader, ans.reader.buffer, ans.reader.isEof
  {
    Tokens(ans.Text())
  }

  /** `registerTestlibCmd`: opens the output without its byte order mark, and the answer as it is. */
  method Register(output: seq<Byte>, answer: seq<Byte>) returns (ans: InStream, ouf: InStream)
    ensures Ready(ans, ouf) && fresh(Footprint(ans)) && fresh(Footprint(ouf))
    ensures AnsTokens(ans) == Tokens(answer) && AnsTokens(ouf) == Tokens(StripBom(output))
  {
    hide InStream.Valid, InStream.Text, Tokens, StripBom;
    ouf := new InStream(output, OutputMode);
    ouf.SkipBom();
    ans := new InStream(answer, AnswerMode);
  }

  /** `!ans.seekEof() && !ouf.seekEof()` */
  method BothLeft(ans: InStream, ouf: InStream) returns (more: bool)
    requires Ready(ans, ouf)
    modifies Footprint(ans), Footprint(ouf)
    ensures Ready(ans, ouf)
    ensures AnsTokens(ans) == old(AnsTokens(ans)) && AnsTokens(ouf) == old(AnsTokens(ouf))
    ensures more <==> AnsTokens(ans) != [] && AnsTokens(ouf) != []
  {
    hide InStream.Valid, InStream.Text, Tokens;
    var atEnd := ans.SeekEof();
    if !atEnd { atEnd := ouf.SeekEof(); }
    more := !atEnd;
  }

  /** One word of each stream, the answer first. */
  method WordPair(ans: InStream, ouf: InStream) returns (r: Read<(Token, Token)>)
    requires Ready(ans, ouf) && AnsTokens(ans) != [] && AnsTokens(ouf) != []
    modifies Footprint(ans), Footprint(ouf)
    ensures var a, b := old(AnsTokens(ans)), old(AnsTokens(ouf));
            if !Short(a[0]) then r == Quit(3)
            else if !Short(b[0]) then r == Quit(2)
            else r == Got((a[0], b[0])) && Ready(ans, ouf) && AnsTokens(ans) == a[1..] && AnsTokens(ouf) == b[1..]
  {
    hide InStream.Valid, InStream.Text, Tokens;
    var j := ans.ReadWordTo();
    if j.Quit? { return Quit(j.code); }
    var p := ouf.ReadWordTo();
    if p.Quit? { return Quit(p.code); }
    r := Got((j.value, p.value));
  }

  // ------------------------------------------------------------------- wcmp

  function WcmpCode(ans: seq<Token>, ouf: seq<Token>): nat
    decreases |ans|
  {
    if ans == [] || ouf == [] then (if ans == ouf then 0 else 1)
    else if !Short(ans[0]) then 3
    else if !Short(ouf[0]) then 2
    else if ans[0] != ouf[0] then 1
    else WcmpCode(ans[1..], ouf[1..])
  }

  method WcmpLoop(ans: InStream, ouf: InStream) returns (code: nat)
    requires Ready(ans, ouf)
    modifies Footprint(ans), Footprint(ouf)
    ensures code == WcmpCode(old(AnsTokens(ans)), old(AnsTokens(ouf)))
  {
    hide Ready, AnsTokens, InStream.Valid;
    ReadyValid(ans, ouf);
    ghost var result := WcmpCode(AnsTokens(ans), AnsTokens(ouf));
    var more := BothLeft(ans, ouf);
    ReadyValid(ans, ouf);
    while more
      invariant Ready(ans, ouf) && ans.Valid() && ouf.Valid()
      invariant more <==> AnsTokens(ans) != [] && AnsTokens(ouf) != []
      invariant result == WcmpCode(AnsTokens(ans), AnsTokens(ouf))
      decreases |AnsTokens(ans)|
    {
      var pair := WordPair(ans, ouf);
      if pair.Quit? { return pair.code; }
      if pair.value.0 != pair.value.1 { return QuitCode(OutputMode, Wa, true); }
      ReadyValid(ans, ouf);
      more := BothLeft(ans, ouf);
      ReadyValid(ans, ouf);
    }
    code := WcmpEnd(ans, ouf);
  }

  lemma ReadyValid(ans: InStream, ouf: InStream)
    requires Ready(ans, ouf)
    ensures ans.Valid() && ouf.Valid()
  {
  }

  /** The test after the loop: accepted only when both streams are at their end. */
  method WcmpEnd(ans: InStream, ouf: InStream) returns (code: nat)
    requires Ready(ans, ouf)
    modifies Footprint(ans), Footprint(ouf)
    ensures code == if old(AnsTokens(ans)) == [] && old(AnsTokens(ouf)) == [] then 0 else 1
  {
    hide InStream.Valid, InStream.Text, Tokens;
    var ansEof := ans.SeekEof();
    if ansEof {
      var oufEof := ouf.SeekEof();
      if oufEof {
        code := QuitOk(ouf);
        return;
      }
    }
    code := QuitCode(OutputMode, Wa, true);
  }

  method Wcmp(input: seq<Byte>, output: seq<Byte>, answer: seq<Byte>) returns (code: nat)
    ensures code == ExitWith(input, output, answer, WcmpCode(Tokens(answer), Tokens(StripBom(output))))
  {
    if RegisterFault(input, output, answer).Some? { return RegisterFault(input, output, answer).value; }
    hide Tokens, StripBom, WcmpCode, Ready, AnsTokens;
    var ans, ouf := Register(output, answer);
    code := WcmpLoop(ans, ouf);
  }

  /** wcmp accepts exactly equal token sequences (of readable tokens). */
  lemma {:induction false} WcmpAccepts(ans: seq<Token>, ouf: seq<Token>)
    ensures WcmpCode(ans, ouf) == 0 <==> ans == ouf && forall i | 0 <= i < |ans| :: Short(ans[i])
    decreases |ans|
  {
    if ans != [] && ouf != [] {
      WcmpAccepts(ans[1..], ouf[1..]);
      assert ans == [ans[0]] + ans[1..] && ouf == [ouf[0]] + ouf[1..];
      if forall i | 0 <= i < |ans[1..]| :: Short(ans[1..][i]) {
        forall i | 0 < i < |ans| ensures Short(ans[i]) { assert ans[i] == ans[1..][i - 1]; }
      }
    }
  }

  /** Equal readable tokens before `i`, then an answer token too long to read. */
  ghost predicate AnswerBlamed(ans: seq<Token>, ouf: seq<Token>, i: nat) {
    && i < |ans| && i < |ouf| && !Short(ans[i])
    && forall k | 0 <= k < i :: Short(ans[k]) && ans[k] == ouf[k]
  }

  lemma BlameShift(ans: seq<Token>, ouf: seq<Token>, i: nat)
    requires ans != [] && ouf != [] && i > 0
    ensures AnswerBlamed(ans, ouf, i) <==> Short(ans[0]) && ans[0] == ouf[0] && AnswerBlamed(ans[1..], ouf[1..], i - 1)
  {
    hide Short;
    if Short(ans[0]) && ans[0] == ouf[0] && AnswerBlamed(ans[1..], ouf[1..], i - 1) {
      forall k | 0 <= k < i ensures Short(ans[k]) && ans[k] == ouf[k] {
        if k > 0 { assert ans[k] == ans[1..][k - 1] && ouf[k] == ouf[1..][k - 1]; }
      }
    }
    if AnswerBlamed(ans, ouf, i) {
      forall k | 0 <= k < i - 1 ensures Short(ans[1..][k]) && ans[1..][k] == ouf[1..][k] {
        assert ans[1..][k] == ans[k + 1];
      }
    }
  }

  /** It fails the judge exactly when, before any difference, an answer token is too long. */
  lemma {:induction false} WcmpBlamesAnswer(ans: seq<Token>, ouf: seq<Token>)
    ensures WcmpCode(ans, ouf) == 3 <==> exists i: nat :: AnswerBlamed(ans, ouf, i)
    decreases |ans|
  {
    if ans != [] && ouf != [] {
      WcmpBlamesAnswer(ans[1..], ouf[1..]);
      hide AnswerBlamed;
      assert AnswerBlamed(ans, ouf, 0) <==> !Short(ans[0]) by { BlameAtOnce(ans, ouf); }
      if WcmpCode(ans, ouf) == 3 && Short(ans[0]) {
        var i: nat :| AnswerBlamed(ans[1..], ouf[1..], i);
        BlameShift(ans, ouf, i + 1);
      }
      if i: nat :| AnswerBlamed(ans, ouf, i) {
        if i > 0 { BlameShift(ans, ouf, i); }
      }
    }
  }

  lemma BlameAtOnce(ans: seq<Token>, ouf: seq<Token>)
    requires ans != [] && ouf != []
    ensures AnswerBlamed(ans, ouf, 0) <==> !Short(ans[0])
  {
  }

  /** Equal tokens of at most 2^25 bytes before `i`. */
  ghost predicate EqualBefore(ans: seq<Token>, ouf: seq<Token>, i: nat) {
    && i <= |ans| && i <= |ouf|
    && forall k | 0 <= k < i :: ans[k] == ouf[k] && |ans[k]| <= 33_554_432
  }

  /** Behind equal tokens, a readable answer token and then an output token too long to read. */
  ghost predicate OutputBlamed(ans: seq<Token>, ouf: seq<Token>, i: nat) {
    && EqualBefore(ans, ouf, i) && i < |ans| && i < |ouf|
    && |ans[i]| <= 33_554_432 < |ouf[i]|
  }

  /** Behind equal tokens, two readable tokens that differ, or the end of one file only. */
  ghost predicate Differs(ans: seq<Token>, ouf: seq<Token>, i: nat) {
    && EqualBefore(ans, ouf, i)
    && (if i < |ans| && i < |ouf| then |ans[i]| <= 33_554_432 && |ouf[i]| <= 33_554_432 && ans[i] != ouf[i]
        else i < |ans| || i < |ouf|)
  }

  /** Equal tokens are passed. */
  lemma {:induction false} WcmpSkips(ans: seq<Token>, ouf: seq<Token>, i: nat)
    requires EqualBefore(ans, ouf, i)
    ensures WcmpCode(ans, ouf) == WcmpCode(ans[i..], ouf[i..])
    decreases i
  {
    if i == 0 {
      assert ans[0..] == ans && ouf[0..] == ouf;
    } else {
      assert Short(ans[0]);
      assert ans[1..][i - 1..] == ans[i..] && ouf[1..][i - 1..] == ouf[i..];
      WcmpSkips(ans[1..], ouf[1..], i - 1);
    }
  }

  /** The comparison always comes to a place where it is decided. */
  lemma {:induction false} WcmpStops(ans: seq<Token>, ouf: seq<Token>) returns (i: nat)
    ensures EqualBefore(ans, ouf, i)
    ensures i == |ans| || i == |ouf| || |ans[i]| > 33_554_432 || ans[i] != ouf[i]
    decreases |ans|
  {
    i := 0;
    if ans != [] && ouf != [] && |ans[0]| <= 33_554_432 && ans[0] == ouf[0] {
      var j := WcmpStops(ans[1..], ouf[1..]);
      i := j + 1;
      forall k | 0 <= k < i ensures ans[k] == ouf[k] && |ans[k]| <= 33_554_432 {
        if k > 0 { assert ans[k] == ans[1..][k - 1] && ouf[k] == ouf[1..][k - 1]; }
      }
    }
  }

  /** The other two codes: 2 exactly when the first trouble is an output token too long to
      read, 1 exactly when it is a difference. */
  lemma WcmpFirstTrouble(ans: seq<Token>, ouf: seq<Token>)
    ensures WcmpCode(ans, ouf) == 2 <==> exists i: nat :: OutputBlamed(ans, ouf, i)
    ensures WcmpCode(ans, ouf) == 1 <==> exists i: nat :: Differs(ans, ouf, i)
    ensures WcmpCode(ans, ouf) <= 3
  {
    var at := WcmpStops(ans, ouf);
    WcmpDecided(ans, ouf, at);
    forall i: nat | OutputBlamed(ans, ouf, i) || Differs(ans, ouf, i)
      ensures WcmpCode(ans, ouf) == if OutputBlamed(ans, ouf, i) then 2 else 1
    {
      WcmpDecided(ans, ouf, i);
    }
    hide WcmpCode;
    if WcmpCode(ans, ouf) == 2 { assert OutputBlamed(ans, ouf, at); }
    if WcmpCode(ans, ouf) == 1 { assert Differs(ans, ouf, at); }
  }

  lemma WcmpDecided(ans: seq<Token>, ouf: seq<Token>, i: nat)
    requires EqualBefore(ans, ouf, i)
    requires i == |ans| || i == |ouf| || |ans[i]| > 33_554_432 || ans[i] != ouf[i]
    ensures WcmpCode(ans, ouf) ==
      if i == |ans| || i == |ouf| then (if |ans| == |ouf| then 0 else 1)
      else if |ans[i]| > 33_554_432 then 3
      else if |ouf[i]| > 33_554_432 then 2
      else 1
  {
    WcmpSkips(ans, ouf, i);
  }

  // ------------------------------------------------------------------- ncmp

  predicate Good(w: Token) { LongOf(w).Some? }

  predicate AllGood(ws: seq<Token>) { forall i | 0 <= i < |ws| :: Good(ws[i]) }

  /** What the two drain loops and the final tests decide. */
  function DrainCode(ans: seq<Token>, ouf: seq<Token>): nat {
    if !AllGood(ans) then 3
    else if !AllGood(ouf) then 2
    else if ans != [] || ouf != [] then 1
    else 0
  }

  function NcmpCode(ans: seq<Token>, ouf: seq<Token>): nat
    decreases |ans|
  {
    if ans == [] || ouf == [] then DrainCode(ans, ouf)
    else if !Good(ans[0]) then 3
    else if !Good(ouf[0]) then 2
    else if LongOf(ans[0]) != LongOf(ouf[0]) then 1
    else NcmpCode(ans[1..], ouf[1..])
  }

  /** Reads integers to the end of the stream, counting them. */
  method Drain(s: InStream) returns (r: Read<nat>)
    requires s.Valid() && s.reader.depth <= 2
    modifies s.reader, s.reader.buffer, s.reader.isEof
    ensures s.Valid()
    ensures AllGood(Tokens(old(s.Text()))) ==> r == Got(|Tokens(old(s.Text()))|) && Tokens(s.Text()) == []
    ensures !AllGood(Tokens(old(s.Text()))) ==> r == Quit(QuitCode(s.mode, Pe, true))
  {
    hide Tokens, InStream.Valid, InStream.Text, QuitCode, LongOf;
    var count := 0;
    var atEnd := s.SeekEof();
    while !atEnd
      invariant s.Valid() && s.reader.depth <= 2
      invariant atEnd <==> Tokens(s.Text()) == []
      invariant |Tokens(old(s.Text()))| == count + |Tokens(s.Text())|
      invariant AllGood(Tokens(old(s.Text()))) <==> AllGood(Tokens(s.Text()))
      decreases |Tokens(s.Text())|
    {
      AllGoodTail(Tokens(s.Text()));
      var v := s.ReadLong();
      if v.Quit? { return v; }
      count := count + 1;
      atEnd := s.SeekEof();
    }
    r := Got(count);
  }

  lemma AllGoodTail(ws: seq<Token>)
    requires ws != []
    ensures AllGood(ws) <==> Good(ws[0]) && AllGood(ws[1..])
  {
    hide Good;
    if Good(ws[0]) && AllGood(ws[1..]) {
      forall i | 0 <= i < |ws| ensures Good(ws[i]) { if i > 0 { assert ws[i] == ws[1..][i - 1]; } }
    }
  }

  /** One integer of each stream, the answer first. */
  method LongPair(ans: InStream, ouf: InStream) returns (r: Read<(int, int)>)
    requires Ready(ans, ouf) && AnsTokens(ans) != [] && AnsTokens(ouf) != []
    modifies Footprint(ans), Footprint(ouf)
    ensures var a, b := old(AnsTokens(ans)), old(AnsTokens(ouf));
            if !Good(a[0]) then r == Quit(3)
            else if !Good(b[0]) then r == Quit(2)
            else r == Got((LongOf(a[0]).value, LongOf(b[0]).value)) && Ready(ans, ouf)
                 && AnsTokens(ans) == a[1..] && AnsTokens(ouf) == b[1..]
  {
    hide InStream.Valid, InStream.Text, Tokens, LongOf;
    var j := ans.ReadLong();
    if j.Quit? { return Quit(j.code); }
    var p := ouf.ReadLong();
    if p.Quit? { return Quit(p.code); }
    r := Got((j.value, p.value));
  }

  method NcmpLoop(ans: InStream, ouf: InStream) returns (code: nat)
    requires Ready(ans, ouf)
    modifies Footprint(ans), Footprint(ouf)
    ensures code == NcmpCode(old(AnsTokens(ans)), old(AnsTokens(ouf)))
  {
    hide Ready, AnsTokens, InStream.Valid, LongOf;
    ReadyValid(ans, ouf);
    ghost var result := NcmpCode(AnsTokens(ans), AnsTokens(ouf));
    var n := 0;
    var more := BothLeft(ans, ouf);
    ReadyValid(ans, ouf);
    while more
      invariant Ready(ans, ouf) && ans.Valid() && ouf.Valid()
      invariant more <==> AnsTokens(ans) != [] && AnsTokens(ouf) != []
      invariant result == NcmpCode(AnsTokens(ans), AnsTokens(ouf))
      decreases |AnsTokens(ans)|
    {
      n := n + 1;
      var pair := LongPair(ans, ouf);
      if pair.Quit? { return pair.code; }
      if pair.value.0 != pair.value.1 { return QuitCode(OutputMode, Wa, true); }
      ReadyValid(ans, ouf);
      more := BothLeft(ans, ouf);
      ReadyValid(ans, ouf);
    }
    code := NcmpEnd(ans, ouf);
  }

  /** The two drain loops, the answer's first, and the verdict on what they counted. */
  method NcmpEnd(ans: InStream, ouf: InStream) returns (code: nat)
    requires Ready(ans, ouf)
    modifies Footprint(ans), Footprint(ouf)
    ensures code == DrainCode(old(AnsTokens(ans)), old(AnsTokens(ouf)))
  {
    hide InStream.Valid, InStream.Text, Tokens, AllGood;
    var extraInAns := Drain(ans);
    if extraInAns.Quit? { return extraInAns.code; }
    var extraInOuf := Drain(ouf);
    if extraInOuf.Quit? { return extraInOuf.code; }
    if extraInAns.value > 0 { return QuitCode(OutputMode, Wa, true); }
    if extraInOuf.value > 0 { return QuitCode(OutputMode, Wa, true); }
    code := QuitOk(ouf);
  }

  method Ncmp(input: seq<Byte>, output: seq<Byte>, answer: seq<Byte>) returns (code: nat)
    ensures code == ExitWith(input, output, answer, NcmpCode(Tokens(answer), Tokens(StripBom(output))))
  {
    if RegisterFault(input, output, answer).Some? { return RegisterFault(input, output, answer).value; }
    hide Tokens, StripBom, NcmpCode, Ready, AnsTokens;
    var ans, ouf := Register(output, answer);
    code := NcmpLoop(ans, ouf);
  }

  /** ncmp accepts exactly equal sequences of canonical int64 values. */
  lemma {:induction false} NcmpAccepts(ans: seq<Token>, ouf: seq<Token>)
    ensures NcmpCode(ans, ouf) == 0 <==>
            |ans| == |ouf| && forall i | 0 <= i < |ans| ::
              Int64Of(ans[i]).Some? && Int64Of(ouf[i]) == Int64Of(ans[i]) && ouf[i] == ans[i]
    decreases |ans|
  {
    if ans != [] && ouf != [] {
      NcmpAccepts(ans[1..], ouf[1..]);
      GoodIffInt64(ans[0]);
      GoodIffInt64(ouf[0]);
      if Good(ans[0]) && Good(ouf[0]) { SameLong(ans[0], ouf[0]); }
      hide Int64Of, LongOf;
      assert forall i | 0 < i < |ans| :: ans[i] == ans[1..][i - 1];
      assert forall i | 0 < i < |ouf| :: ouf[i] == ouf[1..][i - 1];
      assert forall i | 0 <= i < |ans[1..]| :: ans[1..][i] == ans[i + 1];
      assert forall i | 0 <= i < |ouf[1..]| :: ouf[1..][i] == ouf[i + 1];
    }
  }

  lemma GoodIffInt64(w: Token)
    ensures Good(w) <==> Int64Of(w).Some?
    ensures Good(w) ==> LongOf(w) == Int64Of(w)
  {
    if Int64Of(w).Some? { Int64TextLength(w); }
  }

  lemma SameLong(v: Token, w: Token)
    requires Good(v) && Good(w)
    ensures LongOf(v) == LongOf(w) <==> v == w
  {
    CanonicalInjective(v, w);
  }

  /** No fault before position `i`: pairs agree, lone tokens are integers. */
  ghost predicate CleanBefore(ans: seq<Token>, ouf: seq<Token>, i: nat) {
    forall k | 0 <= k < i ::
      && (k < |ans| ==> Good(ans[k]))
      && (k < |ouf| ==> Good(ouf[k]))
      && (k < |ans| && k < |ouf| ==> LongOf(ans[k]) == LongOf(ouf[k]))
  }

  /** Exit code 3: the first fault in reading order is a bad answer token. While both
      files have tokens they are read in pairs; then the answer is read to its end. */
  ghost predicate FirstFaultInAnswer(ans: seq<Token>, ouf: seq<Token>, i: nat) {
    && i < |ans| && !Good(ans[i])
    && CleanBefore(ans, ouf, if i < |ouf| then i else |ouf|)
    && forall k | 0 <= k < i :: Good(ans[k])
  }

  /** Exit code 2: the first fault in reading order is a bad output token. */
  ghost predicate FirstFaultInOutput(ans: seq<Token>, ouf: seq<Token>, i: nat) {
    && i < |ouf| && !Good(ouf[i]) && CleanBefore(ans, ouf, i) && (i < |ans| ==> Good(ans[i]))
  }

  lemma CleanShift(ans: seq<Token>, ouf: seq<Token>, i: nat)
    requires ans != [] && ouf != [] && i > 0
    ensures CleanBefore(ans, ouf, i) <==>
            Good(ans[0]) && Good(ouf[0]) && LongOf(ans[0]) == LongOf(ouf[0]) && CleanBefore(ans[1..], ouf[1..], i - 1)
  {
    hide Good, LongOf;
    if CleanBefore(ans, ouf, i) {
      forall k | 0 <= k < i - 1
        ensures (k < |ans[1..]| ==> Good(ans[1..][k])) && (k < |ouf[1..]| ==> Good(ouf[1..][k]))
        ensures k < |ans[1..]| && k < |ouf[1..]| ==> LongOf(ans[1..][k]) == LongOf(ouf[1..][k])
      {
        assert k + 1 < i;
      }
    }
    if Good(ans[0]) && Good(ouf[0]) && LongOf(ans[0]) == LongOf(ouf[0]) && CleanBefore(ans[1..], ouf[1..], i - 1) {
      forall k | 0 <= k < i
        ensures (k < |ans| ==> Good(ans[k])) && (k < |ouf| ==> Good(ouf[k]))
        ensures k < |ans| && k < |ouf| ==> LongOf(ans[k]) == LongOf(ouf[k])
      {
        if k > 0 {
          assert k < |ans| ==> ans[k] == ans[1..][k - 1];
          assert k < |ouf| ==> ouf[k] == ouf[1..][k - 1];
        }
      }
    }
  }

  lemma {:induction false} NcmpFaultFound(ans: seq<Token>, ouf: seq<Token>)
    ensures NcmpCode(ans, ouf) == 3 ==> exists i: nat :: FirstFaultInAnswer(ans, ouf, i)
    ensures NcmpCode(ans, ouf) == 2 ==> exists i: nat :: FirstFaultInOutput(ans, ouf, i)
    decreases |ans|
  {
    hide LongOf;
    if ans == [] || ouf == [] {
      if !AllGood(ans) {
        var i := FirstBad(ans);
        assert FirstFaultInAnswer(ans, ouf, i);
      } else if !AllGood(ouf) {
        var i := FirstBad(ouf);
        assert FirstFaultInOutput(ans, ouf, i);
      }
    } else if !Good(ans[0]) {
      assert FirstFaultInAnswer(ans, ouf, 0);
    } else if !Good(ouf[0]) {
      assert FirstFaultInOutput(ans, ouf, 0);
    } else if LongOf(ans[0]) == LongOf(ouf[0]) {
      NcmpFaultFound(ans[1..], ouf[1..]);
      if NcmpCode(ans, ouf) == 3 {
        var i: nat :| FirstFaultInAnswer(ans[1..], ouf[1..], i);
        CleanShift(ans, ouf, if i + 1 < |ouf| then i + 1 else |ouf|);
        forall k | 0 <= k < i + 1 ensures Good(ans[k]) { if k > 0 { assert ans[k] == ans[1..][k - 1]; } }
        assert FirstFaultInAnswer(ans, ouf, i + 1);
      }
      if NcmpCode(ans, ouf) == 2 {
        var i: nat :| FirstFaultInOutput(ans[1..], ouf[1..], i);
        CleanShift(ans, ouf, i + 1);
        assert FirstFaultInOutput(ans, ouf, i + 1);
      }
    }
  }

  lemma {:induction false} FirstBad(ws: seq<Token>) returns (i: nat)
    requires !AllGood(ws)
    ensures i < |ws| && !Good(ws[i]) && forall k | 0 <= k < i :: Good(ws[k])
  {
    hide Good;
    if !Good(ws[0]) {
      i := 0;
    } else {
      AllGoodTail(ws);
      var j := FirstBad(ws[1..]);
      i := j + 1;
      forall k | 0 <= k < i ensures Good(ws[k]) { if k > 0 { assert ws[k] == ws[1..][k - 1]; } }
    }
  }

  /** Conversely a first fault of either kind determines the code. */
  lemma {:induction false} NcmpFaultDecides(ans: seq<Token>, ouf: seq<Token>, i: nat)
    ensures FirstFaultInAnswer(ans, ouf, i) ==> NcmpCode(ans, ouf) == 3
    ensures FirstFaultInOutput(ans, ouf, i) ==> NcmpCode(ans, ouf) == 2
    decreases |ans|
  {
    hide LongOf;
    if ans != [] && ouf != [] && i > 0 {
      NcmpFaultDecides(ans[1..], ouf[1..], i - 1);
      CleanShift(ans, ouf, if i < |ouf| then i else |ouf|);
      CleanShift(ans, ouf, i);
      CleanShift(ans, ouf, |ans|);
      assert FirstFaultInAnswer(ans, ouf, i) ==> FirstFaultInAnswer(ans[1..], ouf[1..], i - 1) by {
        assert forall k | 0 <= k < i - 1 :: k + 1 < |ans| ==> ans[1..][k] == ans[k + 1];
      }
    } else if ans == [] || ouf == [] {
      if FirstFaultInOutput(ans, ouf, i) && ans == [] { assert AllGood(ans); }
    }
  }

  /** The first fault in reading order fixes the exit code: 3 for a bad answer token,
      2 for a bad output token, 1 for any other difference. */
  lemma NcmpFirstFault(ans: seq<Token>, ouf: seq<Token>)
    ensures NcmpCode(ans, ouf) == 3 <==> exists i: nat :: FirstFaultInAnswer(ans, ouf, i)
    ensures NcmpCode(ans, ouf) == 2 <==> exists i: nat :: FirstFaultInOutput(ans, ouf, i)
    ensures NcmpCode(ans, ouf) <= 3
  {
    hide FirstFaultInAnswer, FirstFaultInOutput;
    NcmpFaultFound(ans, ouf);
    forall i: nat
      ensures FirstFaultInAnswer(ans, ouf, i) ==> NcmpCode(ans, ouf) == 3
      ensures FirstFaultInOutput(ans, ouf, i) ==> NcmpCode(ans, ouf) == 2
    {
      NcmpFaultDecides(ans, ouf, i);
    }
    NcmpRange(ans, ouf);
  }

  lemma {:induction false} NcmpRange(ans: seq<Token>, ouf: seq<Token>)
    ensures NcmpCode(ans, ouf) <= 3
    decreases |ans|
  {
    if ans != [] && ouf != [] { NcmpRange(ans[1..], ouf[1..]); }
  }

  // ------------------------------------------------------------------- hcmp

  function HcmpCode(ans: seq<Token>, ouf: seq<Token>): nat {
    if ans == [] || !Short(ans[0]) then 3
    else if ouf == [] || !Short(ouf[0]) then 2
    else if !IsNumeric(ans[0]) then 3
    else if |ans| > 1 then 3
    else if !IsNumeric(ouf[0]) then 2
    else if ans[0] != ouf[0] then 1
    else if |ouf| > 1 then 2
    else 0
  }

  method HcmpBody(pnum: PatternTree.Pattern, ans: InStream, ouf: InStream) returns (code: nat)
    requires Ready(ans, ouf) && PatternParser.Parse(PNUM_TEXT) == Some(pnum)
    modifies Footprint(ans), Footprint(ouf)
    ensures code == HcmpCode(old(AnsTokens(ans)), old(AnsTokens(ouf)))
  {
    hide InStream.Valid, InStream.Text, Tokens, PatternTree.Matches, PatternParser.Parse, PNUM_TEXT;
    ghost var a, b := AnsTokens(ans), AnsTokens(ouf);
    var ja := ans.ReadWordTo();
    if ja.Quit? { return ja.code; }
    assert AnsTokens(ans) == a[1..];
    var pa := ouf.ReadWordTo();
    if pa.Quit? { return pa.code; }
    assert AnsTokens(ouf) == b[1..];
    if !PatternTree.Matches(pnum, ja.value) { return QuitCode(OutputMode, Fail, true); }
    var ansEof := ans.SeekEof();
    if !ansEof { return QuitCode(OutputMode, Fail, true); }
    if !PatternTree.Matches(pnum, pa.value) { return QuitCode(OutputMode, Pe, true); }
    if ja.value != pa.value { return QuitCode(OutputMode, Wa, true); }
    code := QuitOk(ouf);
  }

  method Hcmp(input: seq<Byte>, output: seq<Byte>, answer: seq<Byte>) returns (code: nat)
    ensures code == ExitWith(input, output, answer, HcmpCode(Tokens(answer), Tokens(StripBom(output))))
  {
    hide PatternParser.Parse, PNUM_TEXT, PatternTree.WellFormed;
    PnumCompiles();
    var pnum := PatternCompiler.Compile(PNUM_TEXT);
    if RegisterFault(input, output, answer).Some? { return RegisterFault(input, output, answer).value; }
    hide Tokens, StripBom, HcmpCode, Ready, AnsTokens;
    var ans, ouf := Register(output, answer);
    code := HcmpBody(pnum.value, ans, ouf);
  }

  /** hcmp accepts exactly when each file holds one canonical integer and the values agree. */
  lemma HcmpAccepts(ans: seq<Token>, ouf: seq<Token>)
    ensures HcmpCode(ans, ouf) == 0 <==>
            && |ans| == 1 && |ouf| == 1 && Short(ans[0]) && Short(ouf[0])
            && Canonical(ans[0]) && Canonical(ouf[0]) && IntValue(ans[0]) == IntValue(ouf[0])
  {
    if ans != [] && ouf != [] && Short(ans[0]) && Short(ouf[0]) {
      NumericIffCanonical(ans[0]);
      NumericIffCanonical(ouf[0]);
      if Canonical(ans[0]) && Canonical(ouf[0]) { CanonicalInjective(ans[0], ouf[0]); }
    }
  }

  /** The codes against the participant: 2 exactly for an output without a readable first
      word, or, against a good answer file, for one that is no canonical integer or has
      more behind an equal one; 1 exactly for two canonical integers of different value. */
  lemma HcmpBlamesOutput(ans: seq<Token>, ouf: seq<Token>)
    ensures HcmpCode(ans, ouf) == 2 <==>
      && ans != [] && Short(ans[0])
      && (|| ouf == [] || !Short(ouf[0])
          || (&& |ans| == 1 && Canonical(ans[0])
              && (!Canonical(ouf[0]) || (IntValue(ans[0]) == IntValue(ouf[0]) && |ouf| > 1))))
    ensures HcmpCode(ans, ouf) == 1 <==>
      && |ans| == 1 && ouf != [] && Short(ans[0]) && Short(ouf[0])
      && Canonical(ans[0]) && Canonical(ouf[0]) && IntValue(ans[0]) != IntValue(ouf[0])
  {
    if ans != [] && ouf != [] && Short(ans[0]) && Short(ouf[0]) {
      NumericIffCanonical(ans[0]);
      NumericIffCanonical(ouf[0]);
      hide Canonical, IntValue, IsNumeric;
      if Canonical(ans[0]) && Canonical(ouf[0]) { CanonicalInjective(ans[0], ouf[0]); }
    }
  }
}
