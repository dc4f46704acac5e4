/** The plain pushback stream a buffered reader has to behave like. */
module PushbackStream {
  import opened Bytes

  /** A symbol is a byte or the end-of-file mark. */
  predicate IsSymbol(c: int) { -128 <= c < 128 || c == EOFC }

  /** `pending` is everything still to come, `depth` the pushed-back symbols among it. */
  datatype Stream = Stream(pending: seq<int>, line: int, depth: nat)

  function Cur(s: Stream): int {
    if s.pending == [] then EOFC else s.pending[0]
  }

  function IsLF(c: int): int { if c == LF as int then 1 else 0 }

  function Consume(s: Stream): Stream
    requires s.pending != []
  {
    Stream(s.pending[1..], s.line + IsLF(s.pending[0]), if s.depth > 0 then s.depth - 1 else 0)
  }

  /** `nextChar` stops at an end-of-file mark without passing it. */
  function AfterNext(s: Stream): Stream {
    if Cur(s) == EOFC then s else Consume(s)
  }

  function AfterUnread(s: Stream, c: int): Stream {
    Stream([c] + s.pending, s.line - IsLF(c), s.depth + 1)
  }

  // ------------------------------------------------------------------- laws

  function CountLF(p: seq<int>): nat {
    if p == [] then 0 else CountLF(p[1..]) + IsLF(p[0])
  }

  datatype Op = CurOp | NextOp | SkipOp | UnreadOp(c: int) | EofOp

  /** `skipChar` may only follow a look that saw a character; pushback has limited room. */
  predicate Legal(s: Stream, seen: bool, op: Op, room: nat) {
    match op
    case SkipOp => seen && Cur(s) != EOFC
    case UnreadOp(c) => IsSymbol(c) && s.depth < room
    case _ => true
  }

  function Output(s: Stream, op: Op): int {
    match op
    case EofOp => if Cur(s) == EOFC then 1 else 0
    case UnreadOp(_) => 0
    case SkipOp => 0
    case _ => Cur(s)
  }

  function Step(s: Stream, op: Op): Stream {
    match op
    case NextOp => AfterNext(s)
    case SkipOp => if s.pending == [] then s else Consume(s)
    case UnreadOp(c) => AfterUnread(s, c)
    case _ => s
  }

  /** After which operations a character is known to be in the window. */
  function Seen(s: Stream, seen: bool, op: Op): bool {
    match op
    case CurOp => Cur(s) != EOFC
    case EofOp => Cur(s) != EOFC
    case UnreadOp(_) => true
    case _ => false
  }

  predicate LegalRun(s: Stream, seen: bool, ops: seq<Op>, room: nat)
    decreases |ops|
  {
    ops == [] || (Legal(s, seen, ops[0], room) && LegalRun(Step(s, ops[0]), Seen(s, seen, ops[0]), ops[1..], room))
  }

  function Outputs(s: Stream, ops: seq<Op>): seq<int>
    decreases |ops|
  {
    if ops == [] then [] else [Output(s, ops[0])] + Outputs(Step(s, ops[0]), ops[1..])
  }

  function Final(s: Stream, ops: seq<Op>): Stream
    decreases |ops|
  {
    if ops == [] then s else Final(Step(s, ops[0]), ops[1..])
  }

  /** The line counter and the line feeds still to come always add up to the same
      number, whatever is read, skipped or pushed back in whatever order. */
  lemma {:induction false} LineConserved(s: Stream, ops: seq<Op>)
    ensures Final(s, ops).line + CountLF(Final(s, ops).pending) == s.line + CountLF(s.pending)
    decreases |ops|
  {
    if ops != [] {
      var t := Step(s, ops[0]);
      assert t.line + CountLF(t.pending) == s.line + CountLF(s.pending) by {
        if ops[0].UnreadOp? { assert ([ops[0].c] + s.pending)[1..] == s.pending; }
      }
      LineConserved(t, ops[1..]);
    }
  }

  lemma {:induction false} CountLFConcat(a: seq<int>, b: seq<int>)
    ensures CountLF(a + b) == CountLF(a) + CountLF(b)
  {
    if a == [] {
      assert a + b == b;
    } else {
      assert (a + b)[1..] == a[1..] + b;
      CountLFConcat(a[1..], b);
    }
  }

  /** The symbols 10 are the line feeds. */
  lemma {:induction false} CountsTens(p: seq<int>)
    ensures CountLF(p) == multiset(p)[10]
  {
    if p != [] {
      CountsTens(p[1..]);
      assert p == [p[0]] + p[1..];
    }
  }

  /** When what is left is a suffix of the file, the line is 1 plus the line feeds passed. */
  lemma LineOfPosition(file: seq<int>, ops: seq<Op>, at: nat)
    requires at <= |file| && Final(Stream(file, 1, 0), ops).pending == file[at..]
    ensures Final(Stream(file, 1, 0), ops).line == 1 + multiset(file[..at])[10]
  {
    CountsTens(file[..at]);
    LineConserved(Stream(file, 1, 0), ops);
    CountLFConcat(file[..at], file[at..]);
    assert file[..at] + file[at..] == file;
  }

  /** Reading after pushing back returns the symbol and restores the stream; pushing back
      after reading undoes the read, unless an end-of-file was seen. */
  lemma UnreadInverse(s: Stream, c: int)
    requires c != EOFC
    ensures Cur(AfterUnread(s, c)) == c && AfterNext(AfterUnread(s, c)) == s
    ensures Cur(s) != EOFC ==> AfterUnread(AfterNext(s), Cur(s)).pending == s.pending
    ensures Cur(s) != EOFC ==> AfterUnread(AfterNext(s), Cur(s)).line == s.line
  {
    assert ([c] + s.pending)[1..] == s.pending;
    if s.pending != [] { assert [s.pending[0]] + s.pending[1..] == s.pending; }
  }

  /** An end-of-file mark pushed back is never passed: the stream stays at its end. */
  lemma MarkSticks(s: Stream)
    ensures AfterNext(AfterUnread(s, EOFC)) == AfterUnread(s, EOFC)
    ensures Cur(AfterUnread(s, EOFC)) == EOFC
  {
  }
}
