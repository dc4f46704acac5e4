/** The default checker: equal lines up to trailing blanks
    (support/checkers/default.cpp:8-75; support/testlib.h:4168-4214, 4264-4292). */
module DefaultChecker {
  import opened Bytes
  import opened TokenText
  import opened LineText
  import opened PushbackStream
  import opened InputStreams
  import opened TokenCheckers

  // ------------------------------------------------------------ line reading

  predicate AtLineEnd(t: seq<Byte>) {
    t == [] || t[0] == LF || (|t| >= 2 && t[0] == CR && t[1] == LF)
  }

  /** `eoln`: passes a line end, or pushes back what it looked at. */
  method Eoln(s: InStream) returns (b: bool)
    requires s.Valid() && s.reader.depth <= 2
    modifies s.reader, s.reader.buffer, s.reader.isEof
    ensures s.Valid() && b == AtLineEnd(old(s.Text()))
    ensures s.Text() == if b then AfterLine(old(s.Text())) else old(s.Text())
    ensures b ==> s.reader.depth <= old(s.reader.depth)
    ensures b && old(s.Text()) != [] && old(s.reader.depth) > 0 ==> s.reader.depth < old(s.reader.depth)
  {
    hide InStream.Valid, InStream.Text;
    var c := s.NextSymbol();
    if c == EOFC { return true; }
    if c == CR as int {
      c := s.NextSymbol();
      if c != LF as int {
        s.UnreadSymbol(c);
        s.UnreadSymbol(CR as int);
        return false;
      } else {
        return true;
      }
    }
    if c == LF as int { return true; }
    s.UnreadSymbol(c);
    return false;
  }

  /** The program's `char(c)` of a symbol: the end-of-file mark 255 becomes byte -1. */
  function AsChar(c: int): Byte
    requires IsSymbol(c)
  {
    if c == EOFC then -1 else c as Byte
  }

  lemma LineEnds(t: seq<Byte>)
    requires AtLineEnd(t)
    ensures LineOf(t) == []
  {
  }

  /** One round of the loop of `readStringTo`: None at the end of the line. */
  method LineChar(s: InStream) returns (c: Option<Byte>)
    requires s.Valid() && s.reader.depth <= 2
    modifies s.reader, s.reader.buffer, s.reader.isEof
    ensures s.Valid() && AfterLine(s.Text()) == AfterLine(old(s.Text()))
    ensures c.None? ==> AtLineEnd(s.Text()) && LineOf(old(s.Text())) == []
    ensures c.None? ==> s.reader.depth <= old(s.reader.depth) || (s.reader.depth == 1 && s.Text() != [])
    ensures c.Some? ==> LineOf(old(s.Text())) == [c.value] + LineOf(s.Text())
    ensures c.Some? ==> s.reader.depth <= old(s.reader.depth) && |s.Text()| < |old(s.Text())|
  {
    hide InStream.Valid, InStream.Text, AfterLine, LineOf;
    ghost var t := s.Text();
    var cur := s.CurSymbol();
    if cur == LF as int || cur == EOFC {
      LineEnds(t);
      return None;
    }
    if cur == CR as int {
      cur := s.NextSymbol();
      var ahead := s.CurSymbol();
      if ahead == LF as int {
        s.UnreadSymbol(cur);
        assert s.Text() == t;
        LineEnds(t);
        return None;
      }
    }
    cur := s.NextSymbol();
    LineMoves(t, s.Text(), AsChar(cur));
    return Some(AsChar(cur));
  }

  /** `readLine` */
  method ReadLine(s: InStream) returns (line: seq<Byte>)
    requires s.Valid() && s.reader.depth <= 2
    modifies s.reader, s.reader.buffer, s.reader.isEof
    ensures s.Valid() && s.reader.depth <= old(s.reader.depth)
    ensures line == LineOf(old(s.Text())) && s.Text() == AfterLine(old(s.Text()))
  {
    hide InStream.Valid, InStream.Text, AfterLine, LineOf;
    line := [];
    var c := LineChar(s);
    while c.Some?
      invariant s.Valid() && AfterLine(old(s.Text())) == AfterLine(s.Text())
      invariant s.reader.depth <= old(s.reader.depth) || (c.None? && s.reader.depth == 1 && s.Text() != [])
      invariant c.Some? ==> LineOf(old(s.Text())) == line + ([c.value] + LineOf(s.Text()))
      invariant c.None? ==> LineOf(old(s.Text())) == line && AtLineEnd(s.Text())
      decreases c.Some?, |s.Text()|
    {
      line := line + [c.value];
      ghost var left := LineOf(s.Text());
      assert LineOf(old(s.Text())) == line + left;
      c := LineChar(s);
    }
    var b := Eoln(s);
  }

  /** One character of a line is taken. */
  lemma LineMoves(t: seq<Byte>, u: seq<Byte>, c: Byte)
    requires t != [] && t[0] != LF
    requires if t[0] != CR then u == t[1..] && c == t[0]
             else if |t| == 1 then u == [] && c == -1
             else t[1] != LF && u == t[2..] && c == t[1]
    ensures LineOf(t) == [c] + LineOf(u) && AfterLine(t) == AfterLine(u)
  {
    assert LineOf([]) == [];
  }

  /** `normalizeLine` */
  method NormalizeLine(line: seq<Byte>, isFirstLine: bool) returns (r: seq<Byte>)
    ensures r == Normalized(line, isFirstLine)
  {
    r := line;
    if isFirstLine && |r| >= 3 && r[0] == BOM[0] && r[1] == BOM[1] && r[2] == BOM[2] {
      r := r[3..];
    }
    assert r == if isFirstLine then StripBom(line) else line;
    while r != []
      invariant TrimRight(r) == Normalized(line, isFirstLine)
      decreases |r|
    {
      var ch := r[|r| - 1];
      if ch == SPACE || ch == TAB || ch == CR || ch == FF || ch == VT {
        r := r[..|r| - 1];
      } else {
        break;
      }
    }
  }

  lemma NormalizeSnoc(raw: seq<seq<Byte>>, x: seq<Byte>)
    ensures NormalizeAll(raw + [x]) == NormalizeAll(raw) + [Normalized(x, raw == [])]
  {
  }

  lemma DropSnoc(lines: seq<seq<Byte>>)
    ensures DropEmptyTail(lines + [[]]) == DropEmptyTail(lines)
  {
    assert (lines + [[]])[..|lines|] == lines;
  }

  /** The first loop of `readNormalizedLines`. */
  method CollectLines(s: InStream) returns (lines: seq<seq<Byte>>)
    requires s.Valid() && s.reader.depth <= 2
    modifies s.reader, s.reader.buffer, s.reader.isEof
    ensures s.Valid() && s.Text() == [] && s.reader.depth <= 2
    ensures DropEmptyTail(lines) == NormalLines(old(s.Text()))
  {
    hide InStream.Valid, InStream.Text, NormalizeAll, Normalized, DropEmptyTail, LineOf, AfterLine;
    lines := [];
    ghost var raw: seq<seq<Byte>> := [];
    ghost var all := LinesRead(s.Text());
    var atEnd := s.Eof();
    while !atEnd
      invariant s.Valid() && s.reader.depth <= 2 && (atEnd <==> s.Text() == [])
      invariant raw + LinesRead(s.Text()) == all
      invariant lines == NormalizeAll(raw) && |lines| == |raw|
      decreases |s.Text()|
    {
      ghost var t := s.Text();
      var line := ReadLine(s);
      assert LinesRead(t) == [line] + LinesRead(s.Text());
      assert raw + LinesRead(t) == (raw + [line]) + LinesRead(s.Text());
      NormalizeSnoc(raw, line);
      atEnd := s.Eof();
      if line == [] && atEnd {
        EmptyNormal(raw == []);
        DropSnoc(lines);
        assert LinesRead(s.Text()) == [];
        assert all == raw + [line];
        assert NormalizeAll(all) == lines + [line];
        return;
      }
      var normal := NormalizeLine(line, lines == []);
      lines := lines + [normal];
      raw := raw + [line];
    }
    assert LinesRead(s.Text()) == [];
    assert all == raw;
  }

  lemma EmptyNormal(first: bool)
    ensures Normalized([], first) == []
  {
  }

  /** `readNormalizedLines` */
  method ReadNormalizedLines(s: InStream) returns (lines: seq<seq<Byte>>)
    requires s.Valid() && s.reader.depth <= 2
    modifies s.reader, s.reader.buffer, s.reader.isEof
    ensures s.Valid() && s.Text() == [] && s.reader.depth <= 2
    ensures lines == NormalLines(old(s.Text()))
  {
    hide InStream.Valid, InStream.Text, NormalLines;
    lines := CollectLines(s);
    while lines != [] && lines[|lines| - 1] == []
      invariant DropEmptyTail(lines) == NormalLines(old(s.Text()))
      decreases |lines|
    {
      lines := lines[..|lines| - 1];
    }
  }

  // ----------------------------------------------------------------- checker

  /** The comparison of `main`: line by line, then the numbers of lines. */
  method CompareLines(expected: seq<seq<Byte>>, found: seq<seq<Byte>>) returns (equal: bool)
    ensures equal <==> expected == found
  {
    var common := if |expected| <= |found| then |expected| else |found|;
    for i := 0 to common
      invariant forall k | 0 <= k < i :: expected[k] == found[k]
    {
      if expected[i] != found[i] { return false; }
    }
    return |expected| == |found|;
  }

  function DefaultCode(answer: seq<Byte>, output: seq<Byte>): nat {
    if NormalLines(answer) == NormalLines(StripBom(output)) then 0 else 1
  }

  /** The exit code of the whole program on three files. */
  method Default(input: seq<Byte>, output: seq<Byte>, answer: seq<Byte>) returns (code: nat)
    ensures code == ExitWith(input, output, answer, DefaultCode(answer, output))
  {
    if RegisterFault(input, output, answer).Some? { return RegisterFault(input, output, answer).value; }
    hide InStream.Valid, InStream.Text, NormalLines, StripBom, Ready;
    var ans, ouf := Open(output, answer);
    code := CheckStreams(ans, ouf);
  }

  method Open(output: seq<Byte>, answer: seq<Byte>) returns (ans: InStream, ouf: InStream)
    ensures Ready(ans, ouf) && fresh(Footprint(ans)) && fresh(Footprint(ouf))
    ensures ans.Text() == answer && ouf.Text() == StripBom(output)
  {
    hide InStream.Valid, InStream.Text, StripBom;
    ouf := new InStream(output, OutputMode);
    ouf.SkipBom();
    ans := new InStream(answer, AnswerMode);
  }

  /** `main` on the opened files: the answer is read first. */
  method CheckStreams(ans: InStream, ouf: InStream) returns (code: nat)
    requires Ready(ans, ouf)
    modifies Footprint(ans), Footprint(ouf)
    ensures code == if NormalLines(old(ans.Text())) == NormalLines(old(ouf.Text())) then 0 else 1
  {
    hide InStream.Valid, InStream.Text, NormalLines, Tokens;
    var expected := ReadNormalizedLines(ans);
    var found := ReadNormalizedLines(ouf);
    var equal := CompareLines(expected, found);
    if !equal { return QuitCode(OutputMode, Wa, true); }
    NoTokens();
    code := QuitOk(ouf);
  }

  lemma NoTokens()
    ensures Tokens([]) == []
  {
  }

  /** On clean files the checker accepts exactly equal texts up to trailing blanks of the
      lines, empty lines at the end, line ending style and byte order marks. */
  lemma DefaultAccepts(output: seq<Byte>, answer: seq<Byte>)
    requires CleanText(answer) && CleanText(StripBom(output))
    ensures NormalLines(answer) == NormalLines(StripBom(output)) <==>
            ReferenceLines(answer) == ReferenceLines(StripBom(output))
  {
    NormalLinesExact(answer);
    NormalLinesExact(StripBom(output));
  }

  /** A lone carriage return inside a line is lost: "a", CR, "b" is accepted for "ab". */
  lemma LoneReturnLost()
    ensures var t := Ascii("a") + [CR] + Ascii("b");
      NormalLines(t) == NormalLines(Ascii("ab")) && ReferenceLines(t) != ReferenceLines(Ascii("ab"))
  {
    var t: seq<Byte> := [97, 13, 98];
    var u: seq<Byte> := [97, 98];
    assert t == Ascii("a") + [CR] + Ascii("b") && u == Ascii("ab");
    assert t[1..] == [13, 98] && t[1..][1..] == [98] && t[1..][2..] == [] && u[1..] == [98] && u[1..][1..] == [];
    assert LineOf(t) == u && AfterLine(t) == [] && LinesRead([]) == [];
    assert LineOf(u) == u && AfterLine(u) == [];
    assert LinesRead(t) == LinesRead(u);
    LoneReturnPieces(t, u);
  }

  lemma LoneReturnPieces(t: seq<Byte>, u: seq<Byte>)
    requires t == [97, 13, 98] && u == [97, 98]
    ensures ReferenceLines(t) != ReferenceLines(u)
  {
    assert t[1..] == [13, 98] && t[1..][1..] == [98] && t[1..][1..][1..] == [] && u[1..] == [98] && u[1..][1..] == [];
    assert FirstPiece(t) == t && FirstPiece(u) == u;
    assert Pieces(t) == [t] && Pieces(u) == [u];
    assert NormalizeAll([t])[0] == t && NormalizeAll([u])[0] == u;
  }
}
