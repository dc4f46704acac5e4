/** Token reading over the buffered reader, and the exit code of `quit`
    (support/testlib.h:2874-2897, 3053-3191, 3323-3417, 3859-3866, 4161-4180). */
module InputStreams {
  import opened Bytes
  import opened Decimal
  import opened PushbackStream
  import opened BufferedReader
  import opened TokenText

  datatype Mode = InputMode | OutputMode | AnswerMode

  datatype TResult = Ok | Wa | Pe | Fail | Dirt | UnexpectedEof

  const MAX_FILE_SIZE: nat := 128 * 1024 * 1024
  const MAX_TOKEN_LENGTH: nat := 32 * 1024 * 1024

  function ResultExitCode(r: TResult): nat {
    match r
    case Ok => 0
    case Wa => 1
    case Pe => 2
    case Fail => 3
    case Dirt => 4
    case UnexpectedEof => 2
  }

  /** The exit code `quit` ends with. Only the participant's stream may blame the participant;
      an accepted run is turned into a format error by unread output. */
  function QuitCode(mode: Mode, result: TResult, oufAtEnd: bool): nat {
    var result := if result == UnexpectedEof then Pe else result;
    if mode != OutputMode && result != Fail then ResultExitCode(Fail)
    else if result == Ok && !oufAtEnd then ResultExitCode(Pe)
    else if result == Dirt then ResultExitCode(Pe)
    else ResultExitCode(result)
  }

  /** Only the output stream can accept or blame the participant; every other stream, and
      every failure, blames the judge. */
  lemma QuitBlames(mode: Mode, result: TResult, oufAtEnd: bool)
    ensures QuitCode(mode, result, oufAtEnd) == 0 <==> mode == OutputMode && result == Ok && oufAtEnd
    ensures QuitCode(mode, result, oufAtEnd) == 3 <==> mode != OutputMode || result == Fail
    ensures QuitCode(mode, result, oufAtEnd) == 1 <==> mode == OutputMode && result == Wa
    ensures QuitCode(mode, result, oufAtEnd) == 2 <==>
      mode == OutputMode && (result in {Pe, Dirt, UnexpectedEof} || (result == Ok && !oufAtEnd))
  {
  }

  /** A read either yields a value or ends the program. */
  datatype Read<T> = Got(value: T) | Quit(code: nat)

  // --------------------------------------------------------- visible text

  predicate AllSymbols(p: seq<int>) { forall i | 0 <= i < |p| :: IsSymbol(p[i]) }

  /** What can still be read: the bytes before the first end-of-file mark. */
  function Visible(p: seq<int>): seq<Byte>
    requires AllSymbols(p)
  {
    if p == [] || p[0] == EOFC then [] else [p[0] as Byte] + Visible(p[1..])
  }

  lemma {:induction false} VisibleFile(t: seq<Byte>)
    ensures AllSymbols(FileSymbols(t)) && Visible(FileSymbols(t)) == t
  {
    if t != [] { VisibleFile(t[1..]); }
  }

  class InStream {
    const reader: Reader
    const mode: Mode

    ghost predicate Valid()
      reads reader, reader.buffer, reader.isEof
    {
      reader.Valid() && AllSymbols(reader.Abstract().pending) && reader.depth <= 3
    }

    /** The text not yet read. */
    ghost function Text(): seq<Byte>
      requires Valid()
      reads reader, reader.buffer, reader.isEof
    {
      Visible(reader.Abstract().pending)
    }

    constructor (content: seq<Byte>, mode: Mode)
      ensures Valid() && fresh(reader) && fresh(reader.buffer) && fresh(reader.isEof)
      ensures Text() == content && this.mode == mode && reader.depth == 0
    {
      reader := new Reader(content);
      this.mode := mode;
      new;
      VisibleFile(content);
    }

    method NextSymbol() returns (c: int)
      requires Valid()
      modifies reader, reader.buffer, reader.isEof
      ensures Valid() && IsSymbol(c) && (c == EOFC <==> old(Text()) == [])
      ensures c == EOFC ==> Text() == [] && reader.depth == old(reader.depth)
      ensures c != EOFC ==> old(Text()) == [c as Byte] + Text()
      ensures c != EOFC ==> reader.depth == if old(reader.depth) > 0 then old(reader.depth) - 1 else 0
    {
      c := reader.NextChar();
    }

    /** A look at the next symbol; a byte seen is in the window. */
    method CurSymbol() returns (c: int)
      requires Valid()
      modifies reader, reader.buffer, reader.isEof
      ensures Valid() && IsSymbol(c) && Text() == old(Text()) && reader.depth == old(reader.depth)
      ensures if Text() == [] then c == EOFC else c == Text()[0] as int
      ensures c != EOFC ==> reader.Primed()
    {
      c := reader.CurChar();
    }

    method SkipSymbol()
      requires Valid() && reader.Primed() && Text() != []
      modifies reader, reader.buffer, reader.isEof
      ensures Valid() && Text() == old(Text())[1..]
      ensures reader.depth == if old(reader.depth) > 0 then old(reader.depth) - 1 else 0
    {
      reader.SkipChar();
    }

    method UnreadSymbol(c: int)
      requires Valid() && IsSymbol(c) && reader.depth <= 2
      modifies reader, reader.buffer, reader.isEof
      ensures Valid() && reader.depth == old(reader.depth) + 1
      ensures Text() == if c == EOFC then [] else [c as Byte] + old(Text())
    {
      ghost var p := reader.Abstract().pending;
      var ok := reader.UnreadChar(c);
      assert ([c] + p)[1..] == p;
    }

    method SkipBlanks()
      requires Valid()
      modifies reader, reader.buffer, reader.isEof
      ensures Valid() && Text() == DropBlanks(old(Text())) && reader.depth <= old(reader.depth)
    {
      hide InStream.Valid, InStream.Text, Reader.Primed;
      var c := CurSymbol();
      while IsBlank(c)
        invariant Valid() && (c != EOFC ==> reader.Primed())
        invariant if Text() == [] then c == EOFC else c == Text()[0] as int
        invariant DropBlanks(Text()) == DropBlanks(old(Text())) && reader.depth <= old(reader.depth)
        decreases |Text()|
      {
        SkipSymbol();
        c := CurSymbol();
      }
    }

    method Eof() returns (b: bool)
      requires Valid()
      modifies reader, reader.buffer, reader.isEof
      ensures Valid() && Text() == old(Text()) && reader.depth == old(reader.depth)
      ensures b <==> Text() == []
    {
      b := reader.Eof();
    }

    /** At the end of the tokens? */
    method SeekEof() returns (b: bool)
      requires Valid()
      modifies reader, reader.buffer, reader.isEof
      ensures Valid() && Text() == DropBlanks(old(Text())) && reader.depth <= old(reader.depth)
      ensures b <==> Tokens(old(Text())) == []
      ensures Tokens(Text()) == Tokens(old(Text()))
    {
      SkipBlanks();
      DropTwice(old(Text()));
      b := Eof();
    }

    /** The rest of a word whose first byte has been taken; None when it grows too long. */
    method FinishWord(first: Byte) returns (r: Option<seq<Byte>>)
      requires Valid() && reader.depth <= 1 && !Blank(first)
      modifies reader, reader.buffer, reader.isEof
      ensures Valid() && reader.depth <= 3
      ensures var word := Word([first] + old(Text()));
              if |word| > MAX_TOKEN_LENGTH then r.None?
              else r == Some(word) && [first] + old(Text()) == word + Text() && reader.depth <= 2
    {
      hide InStream.Valid, InStream.Text, Word;
      ghost var text := [first] + Text();
      var cur := first as int;
      var word: seq<Byte> := [];
      while !(IsBlank(cur) || cur == EOFC)
        invariant Valid() && IsSymbol(cur) && reader.depth <= 1 && |word| <= MAX_TOKEN_LENGTH
        invariant cur == EOFC ==> Text() == [] && word == Word(text) == text
        invariant cur != EOFC ==> word + ([cur as Byte] + Text()) == text
        invariant cur != EOFC ==> Word(text) == word + Word([cur as Byte] + Text())
        invariant word == [] ==> cur == first as int
        decreases cur != EOFC, |Text()|
      {
        ghost var later := Text();
        ghost var before := word;
        ghost var c := cur as Byte;
        WordHead(c, later);
        word := word + [cur as Byte];
        assert before + ([c] + later) == word + later;
        assert before + ([c] + Word(later)) == word + Word(later);
        if |word| > MAX_TOKEN_LENGTH { return None; }
        cur := NextSymbol();
        EmptyWord();
        assert later == [] ==> word + later == word;
      }
      if cur != EOFC {
        WordStops(cur as Byte, Text());
        assert Word(text) == word;
      }
      ghost var left := if cur == EOFC then [] else [cur as Byte] + Text();
      assert text == word + left;
      UnreadSymbol(cur);
      r := Some(word);
    }

    /** Reads the next token and leaves exactly the later ones. */
    method ReadWordTo() returns (r: Read<seq<Byte>>)
      requires Valid() && reader.depth <= 2
      modifies reader, reader.buffer, reader.isEof
      ensures Valid() && (r.Got? ==> reader.depth <= 2)
      ensures Tokens(old(Text())) == [] ==> r == Quit(QuitCode(mode, UnexpectedEof, true))
      ensures Tokens(old(Text())) != [] ==>
                var word := Tokens(old(Text()))[0];
                if |word| > MAX_TOKEN_LENGTH then r == Quit(QuitCode(mode, Pe, true))
                else r == Got(word) && Tokens(Text()) == Tokens(old(Text()))[1..]
    {
      hide InStream.Valid, InStream.Text, QuitCode;
      SkipBlanks();
      DropTwice(old(Text()));
      ghost var text := Text();
      if text != [] { TokensStep(old(Text())); }
      hide DropBlanks, Tokens, Word;
      var cur := NextSymbol();
      if cur == EOFC { return Quit(QuitCode(mode, UnexpectedEof, true)); }
      if IsBlank(cur) { return Quit(QuitCode(mode, Pe, true)); }
      var word := FinishWord(cur as Byte);
      if word.None? { return Quit(QuitCode(mode, Pe, true)); }
      SplitText(old(Text()), text, word.value, Text());
      r := Got(word.value);
    }

    /** Drops a UTF-8 byte order mark; anything shorter is pushed back unchanged. */
    method SkipBom()
      requires Valid() && reader.depth == 0
      modifies reader, reader.buffer, reader.isEof
      ensures Valid() && reader.depth <= 2
      ensures Text() == StripBom(old(Text()))
    {
      hide InStream.Valid, InStream.Text, Reader.Primed, StripBom;
      var index := 0;
      var c := CurSymbol();
      while index < |BOM| && c == BOM[index] as int
        invariant 0 <= index <= 3 && Valid() && reader.depth == 0
        invariant if Text() == [] then c == EOFC else c == Text()[0] as int
        invariant c != EOFC ==> reader.Primed()
        invariant old(Text()) == BOM[..index] + Text()
      {
        ghost var was := Text();
        SkipSymbol();
        BomShift(index, was, Text());
        index := index + 1;
        c := CurSymbol();
      }
      BomSplit(old(Text()), index, Text());
      if index < |BOM| {
        while index != 0
          invariant 0 <= index <= 2 && Valid() && reader.depth + index <= 2
          invariant old(Text()) == BOM[..index] + Text()
        {
          ghost var was := Text();
          UnreadSymbol(BOM[index - 1] as int);
          index := index - 1;
          BomShift(index, Text(), was);
        }
        assert BOM[..0] + Text() == Text();
      }
    }

    /** A canonical signed 64-bit integer, or the end of the program. */
    method ReadLong() returns (r: Read<int>)
      requires Valid() && reader.depth <= 2
      modifies reader, reader.buffer, reader.isEof
      ensures Valid() && (r.Got? ==> reader.depth <= 2)
      ensures Tokens(old(Text())) == [] ==> r == Quit(QuitCode(mode, UnexpectedEof, true))
      ensures Tokens(old(Text())) != [] ==>
                var v := LongOf(Tokens(old(Text()))[0]);
                if v.None? then r == Quit(QuitCode(mode, Pe, true))
                else r == Got(v.value) && Tokens(Text()) == Tokens(old(Text()))[1..]
    {
      var atEnd := SeekEof();
      if atEnd { return Quit(QuitCode(mode, UnexpectedEof, true)); }
      var word := ReadWordTo();
      if word.Quit? { return Quit(word.code); }
      var v := StringToLongLong(word.value);
      if v.None? { return Quit(QuitCode(mode, Pe, true)); }
      r := Got(v.value);
    }
  }

  /** A token that is short enough to be read and denotes an int64. */
  function LongOf(word: seq<Byte>): Option<int> {
    if |word| > MAX_TOKEN_LENGTH then None else Int64Of(word)
  }

  lemma DropTwice(t: seq<Byte>)
    ensures Tokens(DropBlanks(t)) == Tokens(t)
    ensures DropBlanks(t) == [] <==> Tokens(t) == []
  {
    assert DropBlanks(DropBlanks(t)) == DropBlanks(t);
  }

  lemma EmptyWord()
    ensures Word([]) == []
  {
  }

  lemma WordHead(c: Byte, t: seq<Byte>)
    requires !Blank(c)
    ensures Word([c] + t) == [c] + Word(t)
  {
    assert ([c] + t)[1..] == t;
  }

  lemma WordStops(c: Byte, t: seq<Byte>)
    requires Blank(c)
    ensures Word([c] + t) == []
  {
  }

  lemma SplitText(all: seq<Byte>, text: seq<Byte>, word: seq<Byte>, left: seq<Byte>)
    requires text == DropBlanks(all) && text != [] && word == Word(text) && text == word + left
    ensures Tokens(all) == [word] + Tokens(left)
  {
    assert text[|word|..] == left;
  }

  /** Moving one byte of the mark between what was passed and what is left. */
  lemma BomShift(index: nat, longer: seq<Byte>, shorter: seq<Byte>)
    requires index < 3 && longer != [] && longer[0] == BOM[index] && shorter == longer[1..]
    ensures BOM[..index] + longer == BOM[..index + 1] + shorter
  {
    assert longer == [BOM[index]] + shorter;
    assert BOM[..index + 1] == BOM[..index] + [BOM[index]];
  }

  lemma BomSplit(all: seq<Byte>, index: nat, left: seq<Byte>)
    requires index <= 3 && all == BOM[..index] + left
    requires index < 3 ==> left == [] || left[0] != BOM[index]
    ensures index == 3 ==> StripBom(all) == left
    ensures index < 3 ==> StripBom(all) == all
  {
    if index == 3 {
      assert BOM[..3] == BOM;
      assert all[..3] == BOM && all[3..] == left;
    } else if |all| >= 3 {
      assert all[..3][index] == left[0];
    }
  }
}
