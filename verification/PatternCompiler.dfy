/** The constructor and its scans as the loops the source runs, each proved
    against the specification functions (support/testlib.h:1393-1585). */
module PatternCompiler {
  import opened Bytes
  import opened Decimal
  import opened PatternTree
  import opened PatternParser
  import opened PatternGrammar
  import opened PatternRoundTrip

  method RemoveSpaces(s: seq<Byte>) returns (t: seq<Byte>)
    ensures t == StripSpaces(s, 0)
    ensures NoCommand(t, SPACE)
  {
    t := [];
    for i := 0 to |s|
      invariant t + StripSpaces(s, i) == StripSpaces(s, 0)
    {
      if !IsCommandChar(s, i, SPACE) {
        t := t + [s[i]];
      }
    }
    StripKeepsBoundaries(s, 0, []);
    assert [] + t == t;
  }

  /** The characters of a bracket, scanned with one pending character. */
  method BracketBody(s: seq<Byte>, start: nat) returns (r: Option<SetScan>)
    ensures r == SetBody(s, SetScan([], 0, start))
  {
    hide IsCommandChar, GetChar, CharRange;
    var chars: seq<Byte>, prev: Byte, pos := [], 0, start;
    while pos < |s| && !IsCommandChar(s, pos, RBRACKET)
      invariant SetBody(s, SetScan(chars, prev, pos)) == SetBody(s, SetScan([], 0, start))
      decreases |s| - pos
    {
      ghost var was := SetScan(chars, prev, pos);
      AdvanceSet(s, was);
      if IsCommandChar(s, pos, MINUS) && prev != 0 {
        if pos + 2 == |s| || IsCommandChar(s, pos + 1, RBRACKET) {
          chars, prev, pos := chars + [prev], MINUS, pos + 1;
        } else {
          var (next, after) := GetChar(s, pos + 1);
          if prev > next { return None; }
          chars, prev, pos := chars + CharRange(prev, next), 0, after;
        }
      } else {
        if prev != 0 { chars := chars + [prev]; }
        var (c, after) := GetChar(s, pos);
        prev, pos := c, after;
      }
      assert SetStep(s, was) == Some(SetScan(chars, prev, pos));
    }
    return Some(SetScan(chars, prev, pos));
  }

  lemma AdvanceSet(s: seq<Byte>, st: SetScan)
    requires st.pos < |s| && !IsCommandChar(s, st.pos, RBRACKET)
    ensures SetStep(s, st).None? ==> SetBody(s, st).None?
    ensures SetStep(s, st).Some? ==> SetBody(s, st) == SetBody(s, SetStep(s, st).value)
    ensures SetStep(s, st).Some? ==> SetStep(s, st).value.pos > st.pos
  {
    hide IsCommandChar, GetChar, CharRange;
  }

  method ScanCharSetAt(s: seq<Byte>, start: nat) returns (r: Option<(seq<Byte>, nat)>)
    ensures r == ScanCharSet(s, start)
    ensures r.Some? ==> Sorted(r.value.0)
  {
    hide IsCommandChar, GetChar, SetBody, ComplementBelow;
    if start >= |s| { return None; }
    if !IsCommandChar(s, start, LBRACKET) {
      var (c, next) := GetChar(s, start);
      return Some(([c], next));
    }
    var negative := IsCommandChar(s, start + 1, CARET);
    var body := BracketBody(s, if negative then start + 2 else start + 1);
    if body.None? { return None; }
    var chars, pos := body.value.chars, body.value.pos;
    if body.value.prev != 0 { chars := chars + [body.value.prev]; }
    if !IsCommandChar(s, pos, RBRACKET) { return None; }
    if negative {
      chars := Actuals(SortBytes(chars));
    }
    return Some((SortBytes(chars), pos + 1));
  }

  /** The loop over the codes 0..254 that builds a negated set. */
  method Actuals(chars: seq<Byte>) returns (r: seq<Byte>)
    ensures r == ComplementBelow(chars, 255)
    ensures Sorted(chars) ==> forall c: Byte :: c in r <==> c !in chars && c != -1
  {
    r := [];
    for code := 0 to 255
      invariant r == ComplementBelow(chars, code)
    {
      if !BinarySearch(chars, CodeChar(code)) {
        r := r + [CodeChar(code)];
      }
    }
    if Sorted(chars) {
      forall c: Byte ensures c in r <==> c !in chars && c != -1 { ComplementBelowMembers(chars, 255, c); }
    }
  }

  method ScanCountsAt(s: seq<Byte>, start: nat) returns (r: Option<Counts>)
    ensures r == ScanCounts(s, start)
  {
    if start >= |s| { return Some(Counts(1, 1, start)); }
    if !IsCommandChar(s, start, LBRACE) {
      if IsCommandChar(s, start, QUESTION) { return Some(Counts(0, 1, start + 1)); }
      if IsCommandChar(s, start, STAR) { return Some(Counts(0, INT_MAX, start + 1)); }
      if IsCommandChar(s, start, PLUS) { return Some(Counts(1, INT_MAX, start + 1)); }
      return Some(Counts(1, 1, start));
    }
    var pos := start + 1;
    var part: seq<Byte>, parts: seq<seq<Byte>> := [], [];
    while pos < |s| && !IsCommandChar(s, pos, RBRACE)
      invariant PartBody(s, PartScan(part, parts, pos)) == PartBody(s, PartScan([], [], start + 1))
      decreases |s| - pos
    {
      if IsCommandChar(s, pos, COMMA) {
        parts, part, pos := parts + [part], [], pos + 1;
      } else {
        var (c, after) := GetChar(s, pos);
        part, pos := part + [c], after;
      }
    }
    if part != [] { parts := parts + [part]; }
    if !IsCommandChar(s, pos, RBRACE) { return None; }
    return BraceCounts(parts, pos + 1);
  }

  method ScanTop(s: seq<Byte>) returns (r: Option<TopScan>)
    ensures r == TopLoop(s, 0, TopScan(0, -1, []))
    ensures r.Some? ==> Ascending(r.value.seps, |s|)
  {
    var depth, firstClose, seps: seq<nat> := 0, -1, [];
    for i := 0 to |s|
      invariant TopLoop(s, i, TopScan(depth, firstClose, seps)) == TopLoop(s, 0, TopScan(0, -1, []))
    {
      if IsCommandChar(s, i, LPAREN) {
        depth := depth + 1;
      } else if IsCommandChar(s, i, RPAREN) {
        depth := depth - 1;
        if depth == 0 && firstClose == -1 { firstClose := i; }
      } else {
        if depth < 0 { return None; }
        if IsCommandChar(s, i, PIPE) && depth == 0 { seps := seps + [i]; }
      }
    }
    SepsAscend(s, 0, TopScan(0, -1, []));
    return Some(TopScan(depth, firstClose, seps));
  }

  /** The recursive constructor; every tree it returns is fit for the matcher. */
  method Compile(text: seq<Byte>) returns (r: Option<Pattern>)
    ensures r == Parse(text)
    ensures r.Some? ==> WellFormed(r.value)
    decreases |text|, 1
  {
    ParseWellFormed(text);
    hide Slashes, TopLoop, ScanCharSet, ScanCounts, StripSpaces, Pieces, ParseAll, WellFormed;
    StripShortens(text, 0);
    var s := RemoveSpaces(text);
    var top := ScanTop(s);
    if top.None? || top.value.depth != 0 { return None; }
    var seps := top.value.seps;
    if seps == [] && top.value.firstClose + 1 == |s|
       && IsCommandChar(s, 0, LPAREN) && IsCommandChar(s, |s| - 1, RPAREN) {
      var inner := Compile(s[1..|s| - 1]);
      if inner.None? { return None; }
      return Some(Node([], 0, 0, [inner.value]));
    }
    if seps != [] {
      var children := CompileAll(Pieces(s, seps, 0), |s|);
      if children.None? { return None; }
      return Some(Node([], 0, 0, children.value));
    }
    var chars := ScanCharSetAt(s, 0);
    if chars.None? { return None; }
    var counts := ScanCountsAt(s, chars.value.1);
    if counts.None? { return None; }
    var c := counts.value;
    if c.pos >= |s| { return Some(Node(chars.value.0, c.from, c.to, [])); }
    var rest := Compile(s[c.pos..]);
    if rest.None? { return None; }
    return Some(Node(chars.value.0, c.from, c.to, [rest.value]));
  }

  /** The loop that compiles the pieces between the bars. */
  method CompileAll(pieces: seq<seq<Byte>>, ghost bound: nat) returns (r: Option<seq<Pattern>>)
    requires forall i | 0 <= i < |pieces| :: |pieces[i]| < bound
    ensures r == ParseAll(pieces, bound)
    decreases bound, 0
  {
    hide Parse, ParseAll, WellFormed;
    var children: seq<Pattern> := [];
    for i := 0 to |pieces|
      invariant |children| == i
      invariant forall k | 0 <= k < i :: Parse(pieces[k]) == Some(children[k])
    {
      var child := Compile(pieces[i]);
      if child.None? {
        FailedPiece(pieces, bound, i);
        return None;
      }
      children := children + [child.value];
    }
    AllPieces(pieces, bound, children);
    return Some(children);
  }

  lemma {:induction false} FailedPiece(pieces: seq<seq<Byte>>, bound: nat, i: nat)
    requires (forall k | 0 <= k < |pieces| :: |pieces[k]| < bound) && i < |pieces| && Parse(pieces[i]).None?
    ensures ParseAll(pieces, bound).None?
  {
    hide Parse;
    if i > 0 { FailedPiece(pieces[1..], bound, i - 1); }
  }

  lemma {:induction false} AllPieces(pieces: seq<seq<Byte>>, bound: nat, children: seq<Pattern>)
    requires (forall k | 0 <= k < |pieces| :: |pieces[k]| < bound) && |children| == |pieces|
    requires forall k | 0 <= k < |pieces| :: Parse(pieces[k]) == Some(children[k])
    ensures ParseAll(pieces, bound) == Some(children)
  {
    hide Parse;
    if pieces != [] {
      AllPieces(pieces[1..], bound, children[1..]);
      assert [children[0]] + children[1..] == children;
    }
  }
}
