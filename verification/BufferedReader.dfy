/** The windowed file reader with a pushback area (support/testlib.h:1876-1998). */
module BufferedReader {
  import opened Bytes
  import opened PushbackStream

  const BUFFER_SIZE: nat := 2_000_000
  const MAX_UNREAD_COUNT: nat := BUFFER_SIZE / 2

  /** What a stretch of the buffer reads as. */
  function Symbols(bytes: seq<Byte>, marks: seq<bool>): (r: seq<int>)
    requires |bytes| == |marks|
    ensures |r| == |bytes|
    ensures forall i | 0 <= i < |r| :: r[i] == if marks[i] then EOFC else bytes[i] as int
  {
    if bytes == [] then [] else [if marks[0] then EOFC else bytes[0] as int] + Symbols(bytes[1..], marks[1..])
  }

  function FileSymbols(bytes: seq<Byte>): (r: seq<int>)
    ensures |r| == |bytes|
    ensures forall i | 0 <= i < |r| :: r[i] == bytes[i] as int
  {
    if bytes == [] then [] else [bytes[0] as int] + FileSymbols(bytes[1..])
  }

  /** A fresh block of unmarked bytes followed by the rest of the file. */
  lemma JoinBlock(bytes: seq<Byte>, marks: seq<bool>, rest: seq<Byte>, n: nat)
    requires |bytes| == |marks| == n <= |rest| && bytes == rest[..n]
    requires forall i | 0 <= i < n :: !marks[i]
    ensures Symbols(bytes, marks) + FileSymbols(rest[n..]) == FileSymbols(rest)
  {
  }

  lemma SymbolsCons(b: Byte, bytes: seq<Byte>, m: bool, marks: seq<bool>)
    requires |bytes| == |marks|
    ensures Symbols([b] + bytes, [m] + marks) == [if m then EOFC else b as int] + Symbols(bytes, marks)
  {
  }

  lemma EmptySymbols()
    ensures Symbols([], []) == []
  {
  }

  class Reader {
    /** The file's content; `filePos` is how much `fread` has delivered. */
    const file: seq<Byte>
    var filePos: nat
    var line: int
    const buffer: array<Byte>
    const isEof: array<bool>
    var bufferPos: int
    var bufferSize: nat
    ghost var depth: nat

    ghost predicate Valid()
      reads this, buffer, isEof
    {
      && buffer.Length == BUFFER_SIZE && isEof.Length == BUFFER_SIZE
      && MAX_UNREAD_COUNT <= bufferSize <= BUFFER_SIZE
      && 0 <= bufferPos <= bufferSize
      && filePos <= |file|
      && depth <= bufferSize - bufferPos
      && MAX_UNREAD_COUNT <= bufferPos + depth
    }

    ghost function Window(): seq<int>
      requires Valid()
      reads this, buffer, isEof
    {
      Symbols(buffer[bufferPos..bufferSize], isEof[bufferPos..bufferSize])
    }

    /** The stream this reader stands for. */
    ghost function Abstract(): Stream
      requires Valid()
      reads this, buffer, isEof
    {
      Stream(Window() + FileSymbols(file[filePos..]), line, depth)
    }

    /** A symbol is in the window, as it is right after a look that saw one. */
    predicate Primed()
      reads this
    {
      bufferPos < bufferSize
    }

    constructor (content: seq<Byte>)
      ensures Valid() && fresh(buffer) && fresh(isEof) && file == content
      ensures Abstract() == Stream(FileSymbols(content), 1, 0)
    {
      file := content;
      filePos := 0;
      line := 1;
      buffer := new Byte[BUFFER_SIZE];
      isEof := new bool[BUFFER_SIZE];
      bufferSize := MAX_UNREAD_COUNT;
      bufferPos := MAX_UNREAD_COUNT;
      depth := 0;
      new;
      hide Symbols, FileSymbols;
      assert file[0..] == content;
      EmptySymbols();
      assert [] + FileSymbols(content) == FileSymbols(content);
    }

    /** `fread` of one block into the part above the pushback area. */
    method LoadBlock(readSize: nat)
      requires buffer.Length == BUFFER_SIZE && isEof.Length == BUFFER_SIZE
      requires filePos + readSize <= |file| && readSize <= BUFFER_SIZE - MAX_UNREAD_COUNT
      modifies this`filePos, this`bufferPos, this`bufferSize, buffer, isEof
      ensures filePos == old(filePos) + readSize
      ensures bufferPos == MAX_UNREAD_COUNT && bufferSize == MAX_UNREAD_COUNT + readSize
      ensures buffer[bufferPos..bufferSize] == file[old(filePos)..filePos]
      ensures forall i | bufferPos <= i < bufferSize :: !isEof[i]
    {
      forall k | 0 <= k < readSize { buffer[MAX_UNREAD_COUNT + k] := file[filePos + k]; }
      forall k | 0 <= k < readSize { isEof[MAX_UNREAD_COUNT + k] := false; }
      filePos := filePos + readSize;
      bufferSize := MAX_UNREAD_COUNT + readSize;
      bufferPos := MAX_UNREAD_COUNT;
    }

    /** Reads the next block once the window is used up; nothing observable changes. */
    method Refill() returns (more: bool)
      requires Valid()
      modifies this`filePos, this`bufferPos, this`bufferSize, buffer, isEof
      ensures Valid() && Abstract() == old(Abstract())
      ensures more == Primed() && more == (Abstract().pending != [])
    {
      hide Symbols, FileSymbols;
      if bufferPos >= bufferSize {
        ghost var rest := file[filePos..];
        EmptySymbols();
        assert [] + FileSymbols(rest) == FileSymbols(rest);
        var left := |file| - filePos;
        var readSize := if left < BUFFER_SIZE - MAX_UNREAD_COUNT then left else BUFFER_SIZE - MAX_UNREAD_COUNT;
        LoadBlock(readSize);
        assert file[filePos..] == rest[readSize..];
        JoinBlock(buffer[bufferPos..bufferSize], isEof[bufferPos..bufferSize], rest, readSize);
        more := readSize > 0;
      } else {
        more := true;
      }
    }

    /** Takes the first symbol of a primed window. */
    method Increment() returns (c: Byte)
      requires Valid() && Primed()
      modifies this`line, this`bufferPos, this`depth
      ensures Valid()
      ensures old(isEof[bufferPos]) || Abstract() == Consume(old(Abstract()))
      ensures Abstract().pending == old(Abstract()).pending[1..]
      ensures c == old(buffer[bufferPos])
    {
      ghost var was := Window();
      ghost var tail := FileSymbols(file[filePos..]);
      c := buffer[bufferPos];
      bufferPos := bufferPos + 1;
      if c == LF { line := line + 1; }
      depth := if depth > 0 then depth - 1 else 0;
      assert Window() == was[1..];
      assert (was + tail)[1..] == was[1..] + tail;
    }

    method CurChar() returns (c: int)
      requires Valid()
      modifies this`filePos, this`bufferPos, this`bufferSize, buffer, isEof
      ensures Valid() && Abstract() == old(Abstract())
      ensures c == Cur(Abstract())
      ensures c != EOFC ==> Primed()
    {
      var more := Refill();
      if !more { return EOFC; }
      c := if isEof[bufferPos] then EOFC else buffer[bufferPos] as int;
    }

    method NextChar() returns (c: int)
      requires Valid()
      modifies this, buffer, isEof
      ensures Valid()
      ensures c == Cur(old(Abstract())) && Abstract() == AfterNext(old(Abstract()))
    {
      var more := Refill();
      if !more { return EOFC; }
      if isEof[bufferPos] { return EOFC; }
      assert Window()[0] == buffer[bufferPos] as int;
      var b := Increment();
      c := b as int;
    }

    /** Does not refill, so the current character must have been seen. */
    method SkipChar()
      requires Valid() && Primed() && Cur(Abstract()) != EOFC
      modifies this`line, this`bufferPos, this`depth
      ensures Valid() && Abstract() == Consume(old(Abstract()))
    {
      var c := Increment();
    }

    /** Writes one symbol just before the window. */
    method PushFront(c: int)
      requires Valid() && IsSymbol(c) && bufferPos > 0
      modifies this`bufferPos, buffer, isEof
      ensures bufferPos == old(bufferPos) - 1
      ensures isEof[bufferPos] == (c == EOFC) && (c != EOFC ==> buffer[bufferPos] as int == c)
      ensures buffer[bufferPos..bufferSize] == [buffer[bufferPos]] + old(buffer[bufferPos..bufferSize])
      ensures isEof[bufferPos..bufferSize] == [isEof[bufferPos]] + old(isEof[bufferPos..bufferSize])
    {
      bufferPos := bufferPos - 1;
      isEof[bufferPos] := c == EOFC;
      buffer[bufferPos] := (if c == EOFC then -1 else c) as Byte;
    }

    /** False stands for the fatal error when the pushback area is full. */
    method UnreadChar(c: int) returns (ok: bool)
      requires Valid() && IsSymbol(c)
      modifies this`line, this`bufferPos, this`depth, buffer, isEof
      ensures ok == (old(bufferPos) > 0)
      ensures old(depth) < MAX_UNREAD_COUNT ==> ok
      ensures ok ==> Valid() && Primed() && Abstract() == AfterUnread(old(Abstract()), c)
    {
      hide Symbols, FileSymbols;
      if bufferPos - 1 < 0 { return false; }
      ghost var bytes, marks := buffer[bufferPos..bufferSize], isEof[bufferPos..bufferSize];
      ghost var tail := FileSymbols(file[filePos..]);
      PushFront(c);
      if c == LF as int { line := line - 1; }
      depth := depth + 1;
      SymbolsCons(buffer[bufferPos], bytes, isEof[bufferPos], marks);
      assert ([c] + Symbols(bytes, marks)) + tail == [c] + (Symbols(bytes, marks) + tail);
      ok := true;
    }

    method Eof() returns (b: bool)
      requires Valid()
      modifies this`filePos, this`bufferPos, this`bufferSize, buffer, isEof
      ensures Valid() && Abstract() == old(Abstract())
      ensures b <==> Cur(Abstract()) == EOFC
      ensures !b ==> Primed()
    {
      var more := Refill();
      if !more { return true; }
      var c := CurChar();
      b := c == EOFC;
    }

    /** Any legal script of operations, across any number of refills, shows exactly what
        the plain stream shows. */
    method RunScript(ops: seq<Op>) returns (out: seq<int>)
      requires Valid() && LegalRun(Abstract(), Primed(), ops, MAX_UNREAD_COUNT)
      modifies this, buffer, isEof
      ensures Valid()
      ensures out == Outputs(old(Abstract()), ops)
      ensures Abstract() == Final(old(Abstract()), ops)
    {
      out := [];
      ghost var seen := Primed();
      for i := 0 to |ops|
        invariant Valid() && (seen ==> Primed())
        invariant LegalRun(Abstract(), seen, ops[i..], MAX_UNREAD_COUNT)
        invariant out + Outputs(Abstract(), ops[i..]) == Outputs(old(Abstract()), ops)
        invariant Final(Abstract(), ops[i..]) == Final(old(Abstract()), ops)
      {
        ghost var s := Abstract();
        assert ops[i..][1..] == ops[i + 1..];
        var o := RunOp(ops[i]);
        ghost var later := Outputs(Step(s, ops[i]), ops[i + 1..]);
        assert out + ([o] + later) == (out + [o]) + later;
        seen := Seen(s, seen, ops[i]);
        out := out + [o];
      }
    }

    method RunOp(op: Op) returns (o: int)
      requires Valid() && Legal(Abstract(), Primed(), op, MAX_UNREAD_COUNT)
      modifies this, buffer, isEof
      ensures Valid() && o == Output(old(Abstract()), op) && Abstract() == Step(old(Abstract()), op)
      ensures Seen(old(Abstract()), old(Primed()), op) ==> Primed()
    {
      match op {
        case CurOp => o := CurChar();
        case NextOp => o := NextChar();
        case SkipOp => SkipChar(); o := 0;
        case UnreadOp(c) => var ok := UnreadChar(c); o := 0;
        case EofOp => var b := Eof(); o := if b then 1 else 0;
      }
    }
  }
}
