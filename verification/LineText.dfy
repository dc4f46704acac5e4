/** Lines of a text: as `readLine` returns them, and as cut at line feeds
    (support/testlib.h:4182-4208, 4264-4292; support/checkers/default.cpp:8-44). */
module LineText {
  import opened Bytes
  import opened TokenText

  // -------------------------------------------------------- what is read

  /** The next line as `readStringTo` collects it. A carriage return ends the line only
      together with a line feed; any other one is dropped and the symbol behind it kept
      whatever it is, with -1 for the end of the file. */
  function LineOf(t: seq<Byte>): seq<Byte>
    decreases |t|
  {
    if t == [] || t[0] == LF then []
    else if t[0] != CR then [t[0]] + LineOf(t[1..])
    else if |t| == 1 then [-1]
    else if t[1] == LF then []
    else [t[1]] + LineOf(t[2..])
  }

  /** What is left behind that line and its end. */
  function AfterLine(t: seq<Byte>): (r: seq<Byte>)
    ensures |r| <= |t| && (t != [] ==> |r| < |t|)
    decreases |t|
  {
    if t == [] then []
    else if t[0] == LF then t[1..]
    else if t[0] != CR then AfterLine(t[1..])
    else if |t| == 1 then []
    else if t[1] == LF then t[2..]
    else AfterLine(t[2..])
  }

  function LinesRead(t: seq<Byte>): seq<seq<Byte>>
    decreases |t|
  {
    if t == [] then [] else [LineOf(t)] + LinesRead(AfterLine(t))
  }

  // ----------------------------------------------------------- normal form

  const FF: Byte := 12
  const VT: Byte := 11

  /** The bytes removed from the end of a line. */
  predicate Trims(c: Byte) { c == SPACE || c == TAB || c == CR || c == FF || c == VT }

  function TrimRight(s: seq<Byte>): (r: seq<Byte>)
    ensures r <= s && (r != [] ==> !Trims(r[|r| - 1]))
    ensures forall i | |r| <= i < |s| :: Trims(s[i])
  {
    if s != [] && Trims(s[|s| - 1]) then TrimRight(s[..|s| - 1]) else s
  }

  function Normalized(line: seq<Byte>, first: bool): seq<Byte> {
    TrimRight(if first then StripBom(line) else line)
  }

  function NormalizeAll(lines: seq<seq<Byte>>): (r: seq<seq<Byte>>)
    ensures |r| == |lines| && forall i | 0 <= i < |r| :: r[i] == Normalized(lines[i], i == 0)
  {
    seq(|lines|, i requires 0 <= i < |lines| => Normalized(lines[i], i == 0))
  }

  function DropEmptyTail(lines: seq<seq<Byte>>): (r: seq<seq<Byte>>)
    ensures r <= lines && (r != [] ==> r[|r| - 1] != [])
    ensures forall i | |r| <= i < |lines| :: lines[i] == []
  {
    if lines != [] && lines[|lines| - 1] == [] then DropEmptyTail(lines[..|lines| - 1]) else lines
  }

  /** What the default checker compares. */
  function NormalLines(t: seq<Byte>): seq<seq<Byte>> { DropEmptyTail(NormalizeAll(LinesRead(t))) }

  // ------------------------------------------------------------- reference

  /** The bytes before the first line feed. */
  function FirstPiece(t: seq<Byte>): (r: seq<Byte>)
    ensures r <= t && LF !in r && (|r| < |t| ==> t[|r|] == LF)
  {
    if t == [] || t[0] == LF then [] else [t[0]] + FirstPiece(t[1..])
  }

  predicate OneLine(t: seq<Byte>) { |FirstPiece(t)| == |t| }

  /** The text cut at every line feed. */
  function Pieces(t: seq<Byte>): (r: seq<seq<Byte>>)
    ensures r != []
    decreases |t|
  {
    if OneLine(t) then [t] else [FirstPiece(t)] + Pieces(t[|FirstPiece(t)| + 1..])
  }

  /** Right-trimmed lines without the byte order mark and without empty lines at the end. */
  function ReferenceLines(t: seq<Byte>): seq<seq<Byte>> { DropEmptyTail(NormalizeAll(Pieces(t))) }

  /** The number of carriage returns at the end is odd. */
  predicate OddTail(p: seq<Byte>) {
    p != [] && p[|p| - 1] == CR && !OddTail(p[..|p| - 1])
  }

  /** Carriage returns only behind the last visible byte, and, without a line feed to follow
      them, evenly many at the very end. */
  predicate CleanPiece(p: seq<Byte>, ended: bool) {
    CR !in TrimRight(p) && (!ended ==> !OddTail(p))
  }

  predicate CleanText(t: seq<Byte>) {
    forall i | 0 <= i < |Pieces(t)| :: CleanPiece(Pieces(t)[i], i < |Pieces(t)| - 1)
  }

  // ---------------------------------------------------------- one line read

  /** A piece as it is read, with its line feed (`ended`) or at the end of the file. */
  function AsRead(p: seq<Byte>, ended: bool): seq<Byte>
    decreases |p|
  {
    if p == [] then []
    else if p[0] != CR then [p[0]] + AsRead(p[1..], ended)
    else if |p| == 1 then (if ended then [] else [-1])
    else [p[1]] + AsRead(p[2..], ended)
  }

  lemma PieceCons(x: Byte, t: seq<Byte>)
    requires x != LF
    ensures FirstPiece([x] + t) == [x] + FirstPiece(t) && OneLine([x] + t) == OneLine(t)
    ensures [x] + t != [] && ([x] + t)[|FirstPiece(t)| + 1..] == t[|FirstPiece(t)|..]
  {
    assert ([x] + t)[1..] == t;
  }

  /** The rest behind the first piece and its line feed. */
  function AfterPiece(t: seq<Byte>): seq<Byte> {
    if OneLine(t) then [] else t[|FirstPiece(t)| + 1..]
  }

  lemma AfterPieceCons(x: Byte, t: seq<Byte>)
    requires x != LF
    ensures AfterPiece([x] + t) == AfterPiece(t)
  {
    PieceCons(x, t);
    hide FirstPiece;
  }

  lemma AsReadCons(x: Byte, b: seq<Byte>, ended: bool)
    requires x != CR
    ensures AsRead([x] + b, ended) == [x] + AsRead(b, ended)
  {
    assert ([x] + b)[1..] == b;
  }

  predicate LineIsPiece(t: seq<Byte>) {
    LineOf(t) == AsRead(FirstPiece(t), !OneLine(t)) && AfterLine(t) == AfterPiece(t)
  }

  lemma LineStep(x: Byte, u: seq<Byte>)
    requires x != LF && x != CR && LineIsPiece(u)
    ensures LineIsPiece([x] + u)
  {
    var t := [x] + u;
    assert t[1..] == u;
    PieceCons(x, u);
    AfterPieceCons(x, u);
    AsReadCons(x, FirstPiece(u), !OneLine(u));
    hide FirstPiece, OneLine, AfterPiece, AsRead;
  }

  lemma LinePair(x: Byte, u: seq<Byte>)
    requires x != LF && LineIsPiece(u)
    ensures LineIsPiece([CR, x] + u)
  {
    var t := [CR, x] + u;
    assert t[2..] == u && t == [CR] + ([x] + u);
    PieceCons(x, u);
    PieceCons(CR, [x] + u);
    AfterPieceCons(x, u);
    AfterPieceCons(CR, [x] + u);
    hide FirstPiece, OneLine, AfterPiece;
    assert FirstPiece(t) == [CR, x] + FirstPiece(u);
    assert FirstPiece(t)[2..] == FirstPiece(u);
  }

  lemma {:induction false} LineOfPiece(t: seq<Byte>)
    ensures LineIsPiece(t)
    decreases |t|
  {
    if t == [] || t[0] == LF {
    } else if t[0] != CR {
      LineOfPiece(t[1..]);
      hide LineIsPiece;
      LineStep(t[0], t[1..]);
      assert t == [t[0]] + t[1..];
    } else if |t| > 1 && t[1] != LF {
      LineOfPiece(t[2..]);
      hide LineIsPiece;
      LinePair(t[1], t[2..]);
      assert t == [CR, t[1]] + t[2..];
    } else {
      assert |t| > 1 ==> FirstPiece(t[1..]) == [];
    }
  }

  // ------------------------------------------------- counting visible bytes

  function Shown(c: Byte): seq<Byte> { if Trims(c) then [] else [c] }

  /** The bytes that trimming never removes, in order. */
  function VisibleBytes(s: seq<Byte>): seq<Byte> {
    if s == [] then [] else Shown(s[0]) + VisibleBytes(s[1..])
  }

  function VisibleCount(s: seq<Byte>): nat { |VisibleBytes(s)| }

  lemma VisibleCons(x: Byte, s: seq<Byte>)
    ensures VisibleBytes([x] + s) == Shown(x) + VisibleBytes(s)
  {
    assert ([x] + s)[1..] == s;
    hide Shown;
  }

  lemma {:induction false} VisibleSum(a: seq<Byte>, b: seq<Byte>)
    ensures VisibleBytes(a + b) == VisibleBytes(a) + VisibleBytes(b)
  {
    if a == [] {
      assert a + b == b;
    } else {
      var x, t := a[0], a[1..];
      VisibleSum(t, b);
      VisibleCons(x, t + b);
      VisibleCons(x, t);
      hide *;
      assert a == [x] + t;
      assert [x] + (t + b) == a + b;
      JoinThree(Shown(x), VisibleBytes(t), VisibleBytes(b));
    }
  }

  lemma JoinThree(a: seq<Byte>, b: seq<Byte>, c: seq<Byte>)
    ensures a + (b + c) == (a + b) + c
  {
  }

  lemma {:induction false} TrimKeepsVisible(s: seq<Byte>)
    ensures VisibleBytes(TrimRight(s)) == VisibleBytes(s)
  {
    if s != [] && Trims(s[|s| - 1]) {
      TrimKeepsVisible(s[..|s| - 1]);
      VisibleSum(s[..|s| - 1], [s[|s| - 1]]);
      assert s == s[..|s| - 1] + [s[|s| - 1]];
    }
  }

  lemma {:induction false} NoneVisible(s: seq<Byte>)
    ensures VisibleCount(s) == 0 <==> TrimRight(s) == []
  {
    TrimKeepsVisible(s);
    var r := TrimRight(s);
    if r != [] {
      VisibleSum(r[..|r| - 1], [r[|r| - 1]]);
      assert r == r[..|r| - 1] + [r[|r| - 1]];
    }
  }

  /** Trimming seen from the front. */
  lemma TrimCons(x: Byte, s: seq<Byte>)
    ensures TrimRight([x] + s) == if Trims(x) && VisibleCount(s) == 0 then [] else [x] + TrimRight(s)
  {
    TrimPrefix([x], s);
    NoneVisible(s);
  }

  lemma {:induction false} TrimPrefix(a: seq<Byte>, s: seq<Byte>)
    ensures TrimRight(a + s) == if TrimRight(s) == [] then TrimRight(a) else a + TrimRight(s)
  {
    if s == [] {
      assert a + s == a;
    } else {
      var n := |s| - 1;
      assert (a + s)[|a + s| - 1] == s[n];
      if Trims(s[n]) {
        assert (a + s)[..|a + s| - 1] == a + s[..n];
        TrimPrefix(a, s[..n]);
      }
    }
  }

  lemma {:induction false} OddTailFront(x: Byte, s: seq<Byte>)
    requires x != CR
    ensures OddTail([x] + s) == OddTail(s)
  {
    if s != [] {
      OddTailFront(x, s[..|s| - 1]);
      assert ([x] + s)[..|s|] == [x] + s[..|s| - 1];
    }
  }

  lemma {:induction false} OddTailPair(x: Byte, s: seq<Byte>)
    ensures OddTail([CR, x] + s) == OddTail(s)
  {
    if s != [] {
      OddTailPair(x, s[..|s| - 1]);
      assert ([CR, x] + s)[..|s| + 1] == [CR, x] + s[..|s| - 1];
    } else {
      assert [CR, x] + s == [CR, x];
      assert [CR, x][..1] == [CR];
      assert [CR][..0] == [];
    }
  }

  /** The visible bytes are kept in order, and -1 is added exactly behind a dangling carriage return. */
  predicate KeepsVisible(p: seq<Byte>, ended: bool) {
    VisibleBytes(AsRead(p, ended)) == VisibleBytes(p) + if !ended && OddTail(p) then [-1] else []
  }

  lemma KeepsVisibleCons(x: Byte, q: seq<Byte>, ended: bool)
    requires x != CR && KeepsVisible(q, ended)
    ensures KeepsVisible([x] + q, ended)
  {
    OddTailFront(x, q);
    AsReadCons(x, q, ended);
    VisibleCons(x, q);
    VisibleCons(x, AsRead(q, ended));
    hide VisibleBytes, OddTail, Shown, AsRead;
    JoinThree(Shown(x), VisibleBytes(q), if !ended && OddTail(q) then [-1] else []);
  }

  lemma KeepsVisiblePair(x: Byte, q: seq<Byte>, ended: bool)
    requires KeepsVisible(q, ended)
    ensures KeepsVisible([CR, x] + q, ended)
  {
    OddTailPair(x, q);
    AsReadPair(x, q, ended);
    VisiblePair(x, q);
    VisibleCons(x, AsRead(q, ended));
    hide VisibleBytes, OddTail, Shown, AsRead;
    JoinThree(Shown(x), VisibleBytes(q), if !ended && OddTail(q) then [-1] else []);
  }

  lemma AsReadPair(x: Byte, q: seq<Byte>, ended: bool)
    ensures AsRead([CR, x] + q, ended) == [x] + AsRead(q, ended)
  {
    assert ([CR, x] + q)[2..] == q;
  }

  lemma VisiblePair(x: Byte, q: seq<Byte>)
    ensures VisibleBytes([CR, x] + q) == Shown(x) + VisibleBytes(q)
  {
    VisibleCons(CR, [x] + q);
    VisibleCons(x, q);
    assert Shown(CR) == [];
    hide VisibleBytes, Shown;
    assert [CR, x] + q == [CR] + ([x] + q);
  }

  /** Reading keeps exactly the visible bytes, in order, and adds -1 exactly behind a dangling
      carriage return. */
  lemma {:induction false} AsReadVisible(p: seq<Byte>, ended: bool)
    ensures VisibleBytes(AsRead(p, ended)) == VisibleBytes(p) + if !ended && OddTail(p) then [-1] else []
    decreases |p|
  {
    if p == [] {
    } else if p[0] != CR {
      AsReadVisible(p[1..], ended);
      KeepsVisibleCons(p[0], p[1..], ended);
      assert p == [p[0]] + p[1..];
    } else if |p| == 1 {
      assert p == [CR] && p[..0] == [];
      assert [-1][1..] == [];
    } else {
      AsReadVisible(p[2..], ended);
      KeepsVisiblePair(p[1], p[2..], ended);
      assert p == [CR, p[1]] + p[2..];
    }
  }

  /** No longer, and shorter exactly when a carriage return was dropped. */
  predicate Loses(a: seq<Byte>, b: seq<Byte>) {
    if CR in b then |a| < |b| else a == b
  }

  lemma LosesCons(x: Byte, a: seq<Byte>, b: seq<Byte>)
    requires x != CR && Loses(TrimRight(a), TrimRight(b)) && VisibleCount(a) == VisibleCount(b)
    ensures Loses(TrimRight([x] + a), TrimRight([x] + b))
  {
    TrimCons(x, a);
    TrimCons(x, b);
    hide TrimRight;
  }

  lemma LosesPair(x: Byte, a: seq<Byte>, b: seq<Byte>)
    requires Loses(TrimRight(a), TrimRight(b)) && VisibleCount(a) == VisibleCount(b)
    ensures Loses(TrimRight([x] + a), TrimRight([CR, x] + b))
  {
    assert [CR, x] + b == [CR] + ([x] + b);
    assert ([x] + b)[1..] == b;
    TrimCons(x, a);
    TrimCons(x, b);
    TrimCons(CR, [x] + b);
    hide TrimRight;
  }

  /** Without a dangling carriage return a line gets no longer, and shorter exactly when a
      carriage return stands before its last visible byte. */
  lemma {:induction false} AsReadTrimmed(p: seq<Byte>, ended: bool)
    requires ended || !OddTail(p)
    ensures Loses(TrimRight(AsRead(p, ended)), TrimRight(p))
    decreases |p|
  {
    if p == [] {
    } else if p[0] != CR {
      var s := p[1..];
      assert p == [p[0]] + s;
      OddTailFront(p[0], s);
      AsReadTrimmed(s, ended);
      AsReadVisible(s, ended);
      hide TrimRight, Loses, OddTail;
      LosesCons(p[0], AsRead(s, ended), s);
    } else if |p| == 1 {
      assert p == [CR] && p[..0] == [];
    } else {
      var s := p[2..];
      assert p == [CR, p[1]] + s;
      OddTailPair(p[1], s);
      AsReadTrimmed(s, ended);
      AsReadVisible(s, ended);
      hide TrimRight, Loses, OddTail;
      LosesPair(p[1], AsRead(s, ended), s);
    }
  }

  /** A line is read as it stands, up to trimming, exactly when it is clean. */
  lemma PieceExact(p: seq<Byte>, ended: bool)
    ensures TrimRight(AsRead(p, ended)) == TrimRight(p) <==> CleanPiece(p, ended)
  {
    AsReadVisible(p, ended);
    TrimKeepsVisible(p);
    TrimKeepsVisible(AsRead(p, ended));
    if ended || !OddTail(p) { AsReadTrimmed(p, ended); }
  }

  // ------------------------------------------------------------ whole texts

  lemma StripVisible(s: seq<Byte>)
    ensures VisibleCount(s) == VisibleCount(StripBom(s)) + if StripBom(s) == s then 0 else 3
  {
    if StripBom(s) != s {
      assert s == BOM + s[3..];
      VisibleSum(BOM, s[3..]);
      assert BOM[1..] == [-69, -65] && BOM[1..][1..] == [-65];
    }
  }

  lemma {:induction false} OddTailBom(b: seq<Byte>)
    ensures OddTail(BOM + b) == OddTail(b)
  {
    assert BOM + b == [-17] + ([-69] + ([-65] + b));
    OddTailFront(-65, b);
    OddTailFront(-69, [-65] + b);
    OddTailFront(-17, [-69] + ([-65] + b));
  }

  lemma CleanBom(b: seq<Byte>, ended: bool)
    ensures CleanPiece(BOM + b, ended) == CleanPiece(b, ended)
  {
    OddTailBom(b);
    TrimPrefix(BOM, b);
    assert TrimRight(BOM) == BOM;
    assert CR !in BOM;
    hide OddTail, TrimRight;
  }

  lemma AsReadBom(b: seq<Byte>, ended: bool)
    ensures AsRead(BOM + b, ended) == BOM + AsRead(b, ended)
  {
    hide AsRead;
    AsReadCons(-65, b, ended);
    AsReadCons(-69, [-65] + b, ended);
    AsReadCons(-17, [-69] + ([-65] + b), ended);
    BomParts(b);
    BomParts(AsRead(b, ended));
  }

  lemma BomParts(b: seq<Byte>)
    ensures BOM + b == [-17] + ([-69] + ([-65] + b))
  {
  }

  lemma StripsBom(s: seq<Byte>)
    ensures StripBom(BOM + s) == s
  {
    assert (BOM + s)[..3] == BOM && (BOM + s)[3..] == s;
  }

  /** A mark survives trimming. */
  lemma TrimBom(s: seq<Byte>)
    requires StripBom(s) != s
    ensures StripBom(TrimRight(s)) != TrimRight(s)
  {
    assert s == BOM + s[3..];
    TrimPrefix(BOM, s[3..]);
    assert TrimRight(BOM) == BOM;
    var tail := if TrimRight(s[3..]) == [] then [] else TrimRight(s[3..]);
    assert TrimRight(s) == BOM + tail;
    StripsBom(tail);
  }

  lemma TrimBomBack(s: seq<Byte>)
    requires StripBom(TrimRight(s)) != TrimRight(s)
    ensures StripBom(s) != s
  {
    assert TrimRight(s)[..3] == s[..3];
  }

  /** The same for the first line, from which both sides drop a byte order mark. */
  lemma FirstPieceExact(p: seq<Byte>, ended: bool)
    ensures Normalized(AsRead(p, ended), true) == Normalized(p, true) <==> CleanPiece(p, ended)
  {
    var a := AsRead(p, ended);
    if StripBom(p) != p {
      var b := StripBom(p);
      assert p == BOM + b;
      AsReadBom(b, ended);
      StripsBom(AsRead(b, ended));
      CleanBom(b, ended);
      PieceExact(b, ended);
    } else if StripBom(a) == a {
      PieceExact(p, ended);
    } else {
      MarkUncovered(p, ended);
    }
  }

  /** A mark that only dropping a carriage return brings to the front. */
  lemma MarkUncovered(p: seq<Byte>, ended: bool)
    requires StripBom(p) == p && StripBom(AsRead(p, ended)) != AsRead(p, ended)
    ensures Normalized(AsRead(p, ended), true) != Normalized(p, true) && !CleanPiece(p, ended)
  {
    var a := AsRead(p, ended);
    AsReadVisible(p, ended);
    StripVisible(a);
    TrimKeepsVisible(StripBom(a));
    TrimKeepsVisible(p);
    PieceExact(p, ended);
    TrimBom(a);
    if CleanPiece(p, ended) { TrimBomBack(p); assert false; }
  }

  lemma NormalExact(p: seq<Byte>, ended: bool, first: bool)
    ensures Normalized(AsRead(p, ended), first) == Normalized(p, first) <==> CleanPiece(p, ended)
  {
    if first { FirstPieceExact(p, ended); } else { PieceExact(p, ended); }
  }

  /** The line at index `i`, empty behind the last one. */
  function At(lines: seq<seq<Byte>>, i: nat): seq<Byte> { if i < |lines| then lines[i] else [] }

  lemma AtDropped(lines: seq<seq<Byte>>, i: nat)
    ensures At(DropEmptyTail(lines), i) == At(lines, i)
  {
  }

  lemma DroppedEqual(a: seq<seq<Byte>>, b: seq<seq<Byte>>)
    ensures DropEmptyTail(a) == DropEmptyTail(b) <==> forall i: nat :: AgreeAt(a, b, i)
  {
    var x, y := DropEmptyTail(a), DropEmptyTail(b);
    forall i: nat ensures At(x, i) == At(a, i) && At(y, i) == At(b, i) {
      AtDropped(a, i);
      AtDropped(b, i);
    }
    if forall i: nat :: AgreeAt(a, b, i) {
      forall i: nat ensures AgreeAt(x, y, i) { assert AgreeAt(a, b, i); }
      SameLength(x, y);
    }
  }

  lemma SameLength(x: seq<seq<Byte>>, y: seq<seq<Byte>>)
    requires x != [] ==> x[|x| - 1] != []
    requires y != [] ==> y[|y| - 1] != []
    requires forall i: nat :: AgreeAt(x, y, i)
    ensures x == y
  {
    assert x != [] ==> AgreeAt(x, y, |x| - 1);
    assert y != [] ==> AgreeAt(x, y, |y| - 1);
    forall i: nat | i < |x| ensures x[i] == y[i] { assert AgreeAt(x, y, i); }
  }

  lemma AtCons(x: seq<Byte>, a: seq<seq<Byte>>, i: nat)
    ensures At([x] + a, i) == if i == 0 then x else At(a, i - 1)
  {
  }

  /** Piece `i` as it is read, empty behind the last one. */
  function ReadAt(pieces: seq<seq<Byte>>, i: nat): seq<Byte> {
    if i < |pieces| then AsRead(pieces[i], i < |pieces| - 1) else []
  }

  lemma ReadAtCons(p: seq<Byte>, rest: seq<seq<Byte>>, i: nat)
    requires rest != []
    ensures ReadAt([p] + rest, i) == if i == 0 then AsRead(p, true) else ReadAt(rest, i - 1)
  {
    hide AsRead;
  }

  /** The lines read are the pieces as read, except an empty piece at the end of the file. */
  lemma {:induction false} LinesArePieces(t: seq<Byte>, i: nat)
    ensures At(LinesRead(t), i) == ReadAt(Pieces(t), i)
    decreases |t|
  {
    LineOfPiece(t);
    if !OneLine(t) {
      var u := t[|FirstPiece(t)| + 1..];
      LinesArePieces(u, if i == 0 then 0 else i - 1);
      AtCons(LineOf(t), LinesRead(u), i);
      ReadAtCons(FirstPiece(t), Pieces(u), i);
      assert LinesRead(t) == [LineOf(t)] + LinesRead(u) && Pieces(t) == [FirstPiece(t)] + Pieces(u);
    } else {
      assert Pieces(t) == [t] && FirstPiece(t) == t;
      assert t != [] ==> LinesRead(t) == [LineOf(t)] + LinesRead([]);
      assert LinesRead([]) == [];
    }
  }

  /** Piece `i`, if there is one, is clean. */
  predicate CleanAt(t: seq<Byte>, i: nat) {
    i < |Pieces(t)| ==> CleanPiece(Pieces(t)[i], i < |Pieces(t)| - 1)
  }

  predicate AgreeAt(a: seq<seq<Byte>>, b: seq<seq<Byte>>, i: nat) { At(a, i) == At(b, i) }

  lemma {:induction false} LinesFewer(t: seq<Byte>)
    ensures |LinesRead(t)| <= |Pieces(t)|
    decreases |t|
  {
    LineOfPiece(t);
    if !OneLine(t) {
      LinesFewer(t[|FirstPiece(t)| + 1..]);
    } else {
      assert LinesRead([]) == [];
    }
  }

  lemma NormalAt(t: seq<Byte>, i: nat)
    ensures AgreeAt(NormalizeAll(LinesRead(t)), NormalizeAll(Pieces(t)), i) <==> CleanAt(t, i)
  {
    LinesArePieces(t, i);
    LinesFewer(t);
    assert Normalized([], i == 0) == [];
    hide Pieces, LinesRead, CleanPiece, Normalized;
    if i < |Pieces(t)| {
      NormalExact(Pieces(t)[i], i < |Pieces(t)| - 1, i == 0);
    }
  }

  lemma CleanEverywhere(t: seq<Byte>)
    ensures CleanText(t) <==> forall i: nat :: CleanAt(t, i)
  {
    hide CleanPiece, Pieces;
    if forall i: nat :: CleanAt(t, i) {
      forall i | 0 <= i < |Pieces(t)| ensures CleanPiece(Pieces(t)[i], i < |Pieces(t)| - 1) {
        assert CleanAt(t, i);
      }
    }
  }

  /** The lines the default checker compares are the right-trimmed lines of the file exactly
      when every carriage return stands in the blank end of its line. */
  lemma NormalLinesExact(t: seq<Byte>)
    ensures NormalLines(t) == ReferenceLines(t) <==> CleanText(t)
  {
    var a, b := NormalizeAll(LinesRead(t)), NormalizeAll(Pieces(t));
    DroppedEqual(a, b);
    CleanEverywhere(t);
    forall i: nat ensures AgreeAt(a, b, i) <==> CleanAt(t, i) { NormalAt(t, i); }
    hide NormalizeAll, LinesRead, Pieces, CleanText, CleanAt, DropEmptyTail, AgreeAt;
  }
}
