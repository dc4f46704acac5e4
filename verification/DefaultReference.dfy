/** What the default checker accepts, said about the bytes of the two files alone
    (support/checkers/default.cpp:8-75). */
module DefaultReference {
  import opened Bytes
  import opened TokenText
  import opened LineText
  import opened TokenCheckers
  import opened DefaultChecker

  /** Space, tab, carriage return, form feed, vertical tab. */
  predicate Invisible(c: Byte) { c == 32 || c == 9 || c == 13 || c == 12 || c == 11 }

  predicate AllInvisible(s: seq<Byte>) { forall i | 0 <= i < |s| :: Invisible(s[i]) }

  /** The UTF-8 byte order mark EF BB BF. */
  predicate Marked(t: seq<Byte>) { |t| >= 3 && t[0] == -17 && t[1] == -69 && t[2] == -65 }

  function Unmarked(t: seq<Byte>): seq<Byte> { if Marked(t) then t[3..] else t }

  /** Both are one text that is followed by invisible bytes only. */
  ghost predicate SameVisibly(a: seq<Byte>, b: seq<Byte>) {
    exists core: seq<Byte> ::
      core <= a && core <= b && AllInvisible(a[|core|..]) && AllInvisible(b[|core|..])
  }

  lemma StripsMark(t: seq<Byte>)
    ensures StripBom(t) == Unmarked(t)
  {
    if |t| >= 3 {
      assert t[..3] == BOM <==> Marked(t) by {
        if t[..3] == BOM { assert t[0] == BOM[0] && t[1] == BOM[1] && t[2] == BOM[2]; }
      }
    }
  }

  /** A line becomes `core` exactly when it is - behind a mark, on the first line - that text
      and then invisible bytes only, and the text does not end in one. */
  lemma NormalizedExactly(line: seq<Byte>, first: bool, core: seq<Byte>)
    ensures Normalized(line, first) == core <==>
      var body := if first then Unmarked(line) else line;
      && core <= body && AllInvisible(body[|core|..])
      && (core != [] ==> !Invisible(core[|core| - 1]))
  {
    StripsMark(line);
    var body := if first then Unmarked(line) else line;
    var r := TrimRight(body);
    hide TrimRight, StripBom, Unmarked;
    if core <= body && AllInvisible(body[|core|..]) && (core != [] ==> !Invisible(core[|core| - 1])) {
      forall i | |core| <= i < |body| ensures Trims(body[i]) { assert body[i] == body[|core|..][i - |core|]; }
      assert r != [] ==> r[|r| - 1] == body[|r| - 1];
    }
  }

  lemma TrimmedEqual(a: seq<Byte>, b: seq<Byte>)
    ensures TrimRight(a) == TrimRight(b) <==> SameVisibly(a, b)
  {
    var x, y := TrimRight(a), TrimRight(b);
    hide TrimRight;
    if x == y {
      assert x <= a && x <= b && AllInvisible(a[|x|..]) && AllInvisible(b[|x|..]);
    }
    if SameVisibly(a, b) {
      var core: seq<Byte> :| core <= a && core <= b && AllInvisible(a[|core|..]) && AllInvisible(b[|core|..]);
      TrimmedShort(a, core);
      TrimmedShort(b, core);
    }
  }

  lemma TrimmedShort(a: seq<Byte>, core: seq<Byte>)
    requires core <= a && AllInvisible(a[|core|..])
    ensures TrimRight(a) == TrimRight(core)
  {
    var c := TrimRight(core);
    assert AllInvisible(a[|c|..]) by {
      forall i | |c| <= i < |a| ensures Invisible(a[i]) {
        if i < |core| { assert Trims(core[i]); } else { assert a[i] == a[|core|..][i - |core|]; }
      }
    }
    NormalizedExactly(a, false, c);
  }

  /** Line `i` without the mark of the first one, empty behind the last one. */
  function Bare(lines: seq<seq<Byte>>, i: nat): seq<Byte> {
    if i >= |lines| then [] else if i == 0 then Unmarked(lines[0]) else lines[i]
  }

  lemma BareAgrees(a: seq<seq<Byte>>, b: seq<seq<Byte>>, i: nat)
    ensures AgreeAt(NormalizeAll(a), NormalizeAll(b), i) <==> SameVisibly(Bare(a, i), Bare(b, i))
  {
    TrimmedEqual(Bare(a, i), Bare(b, i));
    BareTrimmed(a, i);
    BareTrimmed(b, i);
    hide TrimRight, NormalizeAll, SameVisibly;
  }

  lemma BareTrimmed(a: seq<seq<Byte>>, i: nat)
    ensures At(NormalizeAll(a), i) == TrimRight(Bare(a, i))
  {
    if i < |a| { StripsMark(a[i]); }
    assert TrimRight([]) == [];
    hide StripBom, Unmarked, TrimRight;
  }

  /** The lines agree one by one up to invisible bytes at the end; a missing line is empty. */
  ghost predicate SameLines(a: seq<seq<Byte>>, b: seq<seq<Byte>>) {
    forall i: nat :: SameVisibly(Bare(a, i), Bare(b, i))
  }

  lemma NormalAgree(a: seq<seq<Byte>>, b: seq<seq<Byte>>)
    ensures DropEmptyTail(NormalizeAll(a)) == DropEmptyTail(NormalizeAll(b)) <==> SameLines(a, b)
  {
    var x, y := NormalizeAll(a), NormalizeAll(b);
    DroppedEqual(x, y);
    forall i: nat ensures AgreeAt(x, y, i) <==> SameVisibly(Bare(a, i), Bare(b, i)) { BareAgrees(a, b, i); }
    hide DropEmptyTail, NormalizeAll, SameVisibly, Bare, AgreeAt;
    if forall i: nat :: AgreeAt(x, y, i) {
      forall i: nat ensures SameVisibly(Bare(a, i), Bare(b, i)) { assert AgreeAt(x, y, i); }
    }
    if forall i: nat :: SameVisibly(Bare(a, i), Bare(b, i)) {
      forall i: nat ensures AgreeAt(x, y, i) { assert SameVisibly(Bare(a, i), Bare(b, i)); }
    }
  }

  /** The pieces are the stretches between line feeds. */
  function Joined(pieces: seq<seq<Byte>>): seq<Byte>
    requires pieces != []
  {
    if |pieces| == 1 then pieces[0] else pieces[0] + [10] + Joined(pieces[1..])
  }

  lemma {:induction false} PiecesJoin(t: seq<Byte>)
    ensures Joined(Pieces(t)) == t
    ensures forall i | 0 <= i < |Pieces(t)| :: 10 !in Pieces(t)[i]
    decreases |t|
  {
    var p := FirstPiece(t);
    hide FirstPiece;
    if OneLine(t) {
      assert p == t;
    } else {
      var u := t[|p| + 1..];
      PiecesJoin(u);
      assert ([p] + Pieces(u))[1..] == Pieces(u);
      assert t == p + [10] + u;
    }
  }

  /** Every carriage return stands among the invisible bytes at the end of its line, and
      evenly many of them at the very end of the file. */
  predicate CleanLines(t: seq<Byte>) {
    var p := Pieces(t);
    && (forall i, j, k | 0 <= i < |p| && 0 <= j < k < |p[i]| && p[i][j] == 13 :: Invisible(p[i][k]))
    && !OddTail(p[|p| - 1])
  }

  lemma CleanTrimmed(p: seq<Byte>)
    ensures CR !in TrimRight(p) <==> forall j, k | 0 <= j < k < |p| && p[j] == 13 :: Invisible(p[k])
  {
    var r := TrimRight(p);
    hide TrimRight;
    if CR in r {
      var j :| 0 <= j < |r| && r[j] == CR;
      assert j < |r| - 1 && p[j] == 13 && !Invisible(p[|r| - 1]);
    } else {
      forall j, k | 0 <= j < k < |p| && p[j] == 13 ensures Invisible(p[k]) {
        assert forall i | 0 <= i < |r| :: p[i] == r[i] && r[i] != CR;
        assert Trims(p[k]);
      }
    }
  }

  lemma CleanExactly(t: seq<Byte>)
    ensures CleanText(t) <==> CleanLines(t)
  {
    var p := Pieces(t);
    hide Pieces, TrimRight, OddTail;
    forall i | 0 <= i < |p|
      ensures CR !in TrimRight(p[i]) <==> forall j, k | 0 <= j < k < |p[i]| && p[i][j] == 13 :: Invisible(p[i][k])
    {
      CleanTrimmed(p[i]);
    }
    hide Invisible;
    if CleanText(t) { assert CleanPiece(p[|p| - 1], false); }
  }

  lemma CodeCompares(answer: seq<Byte>, output: seq<Byte>)
    ensures DefaultCode(answer, output) <= 1
    ensures DefaultCode(answer, output) == 0 <==> NormalLines(answer) == NormalLines(Unmarked(output))
  {
    StripsMark(output);
    hide NormalLines, StripBom, Unmarked;
  }

  lemma NormalOfRead(t: seq<Byte>)
    ensures NormalLines(t) == DropEmptyTail(NormalizeAll(LinesRead(t)))
  {
  }

  lemma NormalOfClean(t: seq<Byte>)
    requires CleanLines(t)
    ensures NormalLines(t) == DropEmptyTail(NormalizeAll(Pieces(t)))
  {
    CleanExactly(t);
    NormalLinesExact(t);
    hide *;
    ReferenceOf(t);
  }

  lemma ReferenceOf(t: seq<Byte>)
    ensures ReferenceLines(t) == DropEmptyTail(NormalizeAll(Pieces(t)))
  {
  }

  /** On any two files: accepted exactly when the lines read agree one by one up to invisible
      bytes at the end, a missing line being an empty one. The code is 0 or 1. */
  lemma AcceptsLinesRead(answer: seq<Byte>, output: seq<Byte>)
    ensures DefaultCode(answer, output) ==
            if SameLines(LinesRead(answer), LinesRead(Unmarked(output))) then 0 else 1
  {
    CodeCompares(answer, output);
    NormalOfRead(answer);
    NormalOfRead(Unmarked(output));
    NormalAgree(LinesRead(answer), LinesRead(Unmarked(output)));
    hide *;
  }

  /** On clean files the lines are those between the line feeds: accepted exactly when the
      files become equal by adding invisible bytes at the ends of lines and empty lines at
      the end of the file. */
  lemma AcceptsClean(answer: seq<Byte>, output: seq<Byte>)
    requires CleanLines(answer) && CleanLines(Unmarked(output))
    ensures DefaultCode(answer, output) == if SameLines(Pieces(answer), Pieces(Unmarked(output))) then 0 else 1
  {
    CodeCompares(answer, output);
    NormalOfClean(answer);
    NormalOfClean(Unmarked(output));
    NormalAgree(Pieces(answer), Pieces(Unmarked(output)));
    hide *;
  }
}
