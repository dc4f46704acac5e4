/** From pattern text to tree: backslash counting, character sets, counts and
    the recursive constructor (support/testlib.h:1309-1331, 1393-1585).
    `None` stands for the fatal "Illegal pattern" error. */
module PatternParser {
  import opened Bytes
  import opened Decimal
  import opened PatternTree

  const LPAREN: Byte := 40
  const RPAREN: Byte := 41
  const STAR: Byte := 42
  const COMMA: Byte := 44
  const QUESTION: Byte := 63
  const LBRACKET: Byte := 91
  const RBRACKET: Byte := 93
  const CARET: Byte := 94
  const LBRACE: Byte := 123
  const PIPE: Byte := 124
  const RBRACE: Byte := 125

  /** The run of backslashes that ends just before `pos`. */
  function Slashes(s: seq<Byte>, pos: nat): nat
    requires pos <= |s|
  {
    if pos > 0 && s[pos - 1] == BACKSLASH then 1 + Slashes(s, pos - 1) else 0
  }

  predicate IsCommandChar(s: seq<Byte>, pos: nat, value: Byte) {
    pos < |s| && Slashes(s, pos) % 2 == 0 && s[pos] == value
  }

  /** Indexing a `std::string` at its length yields the NUL character. */
  function CharAt(s: seq<Byte>, pos: nat): Byte {
    if pos < |s| then s[pos] else 0
  }

  function GetChar(s: seq<Byte>, pos: nat): (Byte, nat) {
    if CharAt(s, pos) == BACKSLASH then (CharAt(s, pos + 1), pos + 2) else (CharAt(s, pos), pos + 1)
  }

  function StripSpaces(s: seq<Byte>, i: nat): seq<Byte>
    requires i <= |s|
    decreases |s| - i
  {
    if i == |s| then []
    else (if IsCommandChar(s, i, SPACE) then [] else [s[i]]) + StripSpaces(s, i + 1)
  }

  // ------------------------------------------------------------ char sets

  function CharRange(lo: Byte, hi: Byte): seq<Byte>
    requires lo <= hi
  {
    seq(hi as int - lo as int + 1, i requires 0 <= i <= hi as int - lo as int => (lo as int + i) as Byte)
  }

  datatype SetScan = SetScan(chars: seq<Byte>, prev: Byte, pos: nat)

  function Flush(chars: seq<Byte>, prev: Byte): seq<Byte> {
    if prev != 0 then chars + [prev] else chars
  }

  /** One round of the loop over a bracket's contents. */
  function SetStep(s: seq<Byte>, st: SetScan): (r: Option<SetScan>)
    ensures r.Some? ==> r.value.pos > st.pos
  {
    if IsCommandChar(s, st.pos, MINUS) && st.prev != 0 then
      var pos := st.pos + 1;
      if pos + 1 == |s| || IsCommandChar(s, pos, RBRACKET) then
        Some(SetScan(st.chars + [st.prev], MINUS, pos))
      else
        var (next, pos') := GetChar(s, pos);
        if st.prev > next then None
        else Some(SetScan(st.chars + CharRange(st.prev, next), 0, pos'))
    else
      var (c, pos') := GetChar(s, st.pos);
      Some(SetScan(Flush(st.chars, st.prev), c, pos'))
  }

  function SetBody(s: seq<Byte>, st: SetScan): (r: Option<SetScan>)
    ensures r.Some? ==> r.value.pos >= st.pos
    decreases |s| - st.pos
  {
    if st.pos < |s| && !IsCommandChar(s, st.pos, RBRACKET) then
      var next := SetStep(s, st);
      if next.None? then None else SetBody(s, next.value)
    else Some(st)
  }

  /** `char(code)`. */
  function CodeChar(code: nat): Byte
    requires code < 256
  {
    (if code < 128 then code else code - 256) as Byte
  }

  /** The codes below `code` that are not in the set; code 255 is never tried. */
  function ComplementBelow(chars: seq<Byte>, code: nat): seq<Byte>
    requires code <= 255
  {
    if code == 0 then []
    else ComplementBelow(chars, code - 1)
         + (if BinarySearch(chars, CodeChar(code - 1)) then [] else [CodeChar(code - 1)])
  }

  function Complement(chars: seq<Byte>): seq<Byte> {
    SortBytes(ComplementBelow(SortBytes(chars), 255))
  }

  function SortBytes(chars: seq<Byte>): (r: seq<Byte>)
    ensures Sorted(r)
    ensures multiset(r) == multiset(chars)
  {
    SortSorts(chars, ByteKey);
    Sort(chars, ByteKey)
  }

  function ScanCharSet(s: seq<Byte>, pos: nat): (r: Option<(seq<Byte>, nat)>)
    ensures r.Some? ==> r.value.1 > pos && Sorted(r.value.0)
  {
    if pos >= |s| then None
    else if IsCommandChar(s, pos, LBRACKET) then
      var negative := IsCommandChar(s, pos + 1, CARET);
      var body := SetBody(s, SetScan([], 0, if negative then pos + 2 else pos + 1));
      if body.None? then None
      else
        var chars := Flush(body.value.chars, body.value.prev);
        if !IsCommandChar(s, body.value.pos, RBRACKET) then None
        else Some((if negative then Complement(chars) else SortBytes(chars), body.value.pos + 1))
    else
      var (c, next) := GetChar(s, pos);
      Some(([c], next))
  }

  // --------------------------------------------------------------- counts

  datatype PartScan = PartScan(part: seq<Byte>, parts: seq<seq<Byte>>, pos: nat)

  function PartStep(s: seq<Byte>, st: PartScan): (r: PartScan)
    ensures r.pos > st.pos
  {
    if IsCommandChar(s, st.pos, COMMA) then PartScan([], st.parts + [st.part], st.pos + 1)
    else
      var (c, pos) := GetChar(s, st.pos);
      PartScan(st.part + [c], st.parts, pos)
  }

  function PartBody(s: seq<Byte>, st: PartScan): (r: PartScan)
    ensures r.pos >= st.pos
    decreases |s| - st.pos
  {
    if st.pos < |s| && !IsCommandChar(s, st.pos, RBRACE) then PartBody(s, PartStep(s, st)) else st
  }

  datatype Counts = Counts(from: int, to: int, pos: nat)

  function BraceCounts(parts: seq<seq<Byte>>, pos: nat): Option<Counts> {
    if |parts| == 1 then
      var n := ScanInt(parts[0]);
      if n.None? then None else Some(Counts(n.value, n.value, pos))
    else if |parts| == 2 then
      var m, n := ScanInt(parts[0]), ScanInt(parts[1]);
      if m.None? || n.None? || m.value > n.value then None else Some(Counts(m.value, n.value, pos))
    else None
  }

  function ScanCounts(s: seq<Byte>, pos: nat): (r: Option<Counts>)
    ensures r.Some? ==> r.value.pos >= pos && r.value.from <= r.value.to
  {
    if pos >= |s| then Some(Counts(1, 1, pos))
    else if IsCommandChar(s, pos, LBRACE) then
      var body := PartBody(s, PartScan([], [], pos + 1));
      var parts := if body.part != [] then body.parts + [body.part] else body.parts;
      if !IsCommandChar(s, body.pos, RBRACE) then None else BraceCounts(parts, body.pos + 1)
    else if IsCommandChar(s, pos, QUESTION) then Some(Counts(0, 1, pos + 1))
    else if IsCommandChar(s, pos, STAR) then Some(Counts(0, INT_MAX, pos + 1))
    else if IsCommandChar(s, pos, PLUS) then Some(Counts(1, INT_MAX, pos + 1))
    else Some(Counts(1, 1, pos))
  }

  // ---------------------------------------------------------- constructor

  /** The scan for parentheses and top-level bars. */
  datatype TopScan = TopScan(depth: int, firstClose: int, seps: seq<nat>)

  function TopStep(s: seq<Byte>, i: nat, st: TopScan): Option<TopScan>
    requires i < |s|
  {
    if IsCommandChar(s, i, LPAREN) then Some(st.(depth := st.depth + 1))
    else if IsCommandChar(s, i, RPAREN) then
      Some(st.(depth := st.depth - 1,
               firstClose := if st.depth - 1 == 0 && st.firstClose == -1 then i else st.firstClose))
    else if st.depth < 0 then None
    else if IsCommandChar(s, i, PIPE) && st.depth == 0 then Some(st.(seps := st.seps + [i]))
    else Some(st)
  }

  function TopLoop(s: seq<Byte>, i: nat, st: TopScan): Option<TopScan>
    requires i <= |s|
    decreases |s| - i
  {
    if i == |s| then Some(st)
    else
      var next := TopStep(s, i, st);
      if next.None? then None else TopLoop(s, i + 1, next.value)
  }

  ghost predicate Ascending(seps: seq<nat>, n: nat) {
    && (forall i | 0 <= i < |seps| :: seps[i] < n)
    && (forall i, j | 0 <= i < j < |seps| :: seps[i] < seps[j])
  }

  lemma {:induction false} SepsAscend(s: seq<Byte>, i: nat, st: TopScan)
    requires i <= |s| && Ascending(st.seps, i)
    ensures TopLoop(s, i, st).Some? ==> Ascending(TopLoop(s, i, st).value.seps, |s|)
    decreases |s| - i
  {
    if i < |s| {
      var next := TopStep(s, i, st);
      if next.Some? { SepsAscend(s, i + 1, next.value); }
    }
  }

  /** The pieces of `s` from `last` on, cut at the separators not yet used. */
  function Pieces(s: seq<Byte>, seps: seq<nat>, last: nat): (r: seq<seq<Byte>>)
    requires last <= |s| && Ascending(seps, |s|)
    requires forall i | 0 <= i < |seps| :: last <= seps[i]
    ensures |r| == |seps| + 1
    ensures forall i | 0 <= i < |r| :: |r[i]| <= |s|
    ensures |seps| > 0 || last > 0 ==> forall i | 0 <= i < |r| :: |r[i]| < |s|
    decreases |seps|
  {
    if seps == [] then [s[last..]]
    else [s[last..seps[0]]] + Pieces(s, seps[1..], seps[0] + 1)
  }

  lemma {:induction false} StripShortens(s: seq<Byte>, i: nat)
    requires i <= |s|
    ensures |StripSpaces(s, i)| <= |s| - i
    decreases |s| - i
  {
    if i < |s| { StripShortens(s, i + 1); }
  }

  function Parse(s: seq<Byte>): Option<Pattern>
    decreases |s|, 1
  {
    StripShortens(s, 0);
    ParseStripped(StripSpaces(s, 0))
  }

  /** The constructor after the spaces are gone. Every recursive call is on a shorter text. */
  function ParseStripped(s: seq<Byte>): Option<Pattern>
    decreases |s|, 0
  {
    var scan := TopLoop(s, 0, TopScan(0, -1, []));
    if scan.None? || scan.value.depth != 0 then None
    else
      SepsAscend(s, 0, TopScan(0, -1, []));
      var seps := scan.value.seps;
      if seps == [] && scan.value.firstClose + 1 == |s|
         && IsCommandChar(s, 0, LPAREN) && IsCommandChar(s, |s| - 1, RPAREN) then
        var inner := Parse(s[1..|s| - 1]);
        if inner.None? then None else Some(Node([], 0, 0, [inner.value]))
      else if seps != [] then
        var children := ParseAll(Pieces(s, seps, 0), |s|);
        if children.None? then None else Some(Node([], 0, 0, children.value))
      else
        var set_ := ScanCharSet(s, 0);
        if set_.None? then None
        else
          var counts := ScanCounts(s, set_.value.1);
          if counts.None? then None
          else
            var c := counts.value;
            if c.pos < |s| then
              var rest := Parse(s[c.pos..]);
              if rest.None? then None else Some(Node(set_.value.0, c.from, c.to, [rest.value]))
            else Some(Node(set_.value.0, c.from, c.to, []))
  }

  function ParseAll(pieces: seq<seq<Byte>>, bound: nat): (r: Option<seq<Pattern>>)
    requires forall i | 0 <= i < |pieces| :: |pieces[i]| < bound
    ensures r.Some? ==> |r.value| == |pieces|
    decreases bound, 0, |pieces|
  {
    if pieces == [] then Some([])
    else
      var first := Parse(pieces[0]);
      var rest := ParseAll(pieces[1..], bound);
      if first.None? || rest.None? then None else Some([first.value] + rest.value)
  }

  /** Every tree the constructor yields is fit for the matcher. */
  lemma {:induction false} ParseWellFormed(s: seq<Byte>)
    ensures Parse(s).Some? ==> WellFormed(Parse(s).value)
    decreases |s|, 1
  {
    StripShortens(s, 0);
    ParseStrippedWellFormed(StripSpaces(s, 0));
  }

  ghost predicate AllFit(ps: seq<Pattern>) {
    forall i | 0 <= i < |ps| :: WellFormed(ps[i])
  }

  lemma NodeFit(chars: seq<Byte>, from: int, to: int, children: seq<Pattern>)
    requires Sorted(chars) && from <= to && AllFit(children)
    ensures WellFormed(Node(chars, from, to, children))
  {
    var p := Node(chars, from, to, children);
    assert forall i | 0 <= i < |p.children| :: p.children[i] == children[i];
  }

  lemma {:induction false} ParseStrippedWellFormed(s: seq<Byte>)
    ensures ParseStripped(s).Some? ==> WellFormed(ParseStripped(s).value)
    decreases |s|, 0
  {
    hide WellFormed, TopLoop, ScanCharSet, ScanCounts, Slashes, Parse, ParseAll, Pieces;
    var scan := TopLoop(s, 0, TopScan(0, -1, []));
    if scan.Some? && ParseStripped(s).Some? {
      SepsAscend(s, 0, TopScan(0, -1, []));
      var seps := scan.value.seps;
      if seps == [] && scan.value.firstClose + 1 == |s|
         && IsCommandChar(s, 0, LPAREN) && IsCommandChar(s, |s| - 1, RPAREN) {
        ParseWellFormed(s[1..|s| - 1]);
        NodeFit([], 0, 0, [Parse(s[1..|s| - 1]).value]);
      } else if seps != [] {
        ParseAllWellFormed(Pieces(s, seps, 0), |s|);
        NodeFit([], 0, 0, ParseAll(Pieces(s, seps, 0), |s|).value);
      } else {
        var chars := ScanCharSet(s, 0).value;
        var c := ScanCounts(s, chars.1).value;
        if c.pos < |s| {
          ParseWellFormed(s[c.pos..]);
          NodeFit(chars.0, c.from, c.to, [Parse(s[c.pos..]).value]);
        } else {
          NodeFit(chars.0, c.from, c.to, []);
        }
      }
    }
  }

  lemma {:induction false} ParseAllWellFormed(pieces: seq<seq<Byte>>, bound: nat)
    requires forall i | 0 <= i < |pieces| :: |pieces[i]| < bound
    ensures ParseAll(pieces, bound).Some? ==> AllFit(ParseAll(pieces, bound).value)
    decreases bound, 0, |pieces|
  {
    hide WellFormed, Parse;
    if pieces != [] {
      ParseWellFormed(pieces[0]);
      ParseAllWellFormed(pieces[1..], bound);
    }
  }

  // ------------------------------------------- slashes and left-to-right reading

  /** Reading left to right, a character or an escape starts at `pos`. */
  predicate Boundary(s: seq<Byte>, pos: nat)
    requires pos <= |s|
  {
    pos == 0 || s[pos - 1] != BACKSLASH || !Boundary(s, pos - 1)
  }

  /** Counting backslashes backwards finds exactly the places a left-to-right reader stops at. */
  lemma {:induction false} CommandIffBoundary(s: seq<Byte>, pos: nat, value: Byte)
    requires pos < |s|
    ensures IsCommandChar(s, pos, value) <==> Boundary(s, pos) && s[pos] == value
  {
    EvenIffBoundary(s, pos);
  }

  lemma {:induction false} EvenIffBoundary(s: seq<Byte>, pos: nat)
    requires pos <= |s|
    ensures Slashes(s, pos) % 2 == 0 <==> Boundary(s, pos)
  {
    if pos > 0 && s[pos - 1] == BACKSLASH { EvenIffBoundary(s, pos - 1); }
  }
}
