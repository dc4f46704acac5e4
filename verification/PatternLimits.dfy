/** The edges of the pattern text: a group anywhere but at the end of a sequence, NUL and minus
    signs in a set, ranges, and numbers in braces (support/testlib.h:1399-1444, 1477-1511,
    1531-1585). */
module PatternLimits {
  import opened Bytes
  import opened Decimal
  import opened PatternTree
  import opened PatternParser
  import opened PatternGrammar
  import opened PatternRoundTrip

  // ------------------------------------------------------------------ groups

  /** Outside parentheses an expression leaves the depth of the scan as it found it. */
  lemma {:induction false} SkipAny(s: seq<Byte>, i: nat, r: Regex, st: TopScan) returns (after: TopScan)
    requires Valid(r) && st.depth == 0 && At(s, i, Print(r))
    ensures after.depth == 0 && TopLoop(s, i, st) == TopLoop(s, i + |Print(r)|, after)
    decreases r
  {
    hide At, Boundary, Closed, NoCommand, IsCommandChar, TopLoop, EndsInGroup;
    if r.Choice? {
      after := SkipAnyOf(s, i, r.alternatives, st);
    } else {
      SkipTop(s, i, r, st);
      after := Closing(st, r, i + |Print(r)|);
    }
  }

  lemma {:induction false} SkipAnyOf(s: seq<Byte>, i: nat, alts: seq<Regex>, st: TopScan) returns (after: TopScan)
    requires |alts| >= 1 && (forall k | 0 <= k < |alts| :: Valid(alts[k]) && !alts[k].Choice?)
    requires st.depth == 0 && At(s, i, PrintAlternatives(alts))
    ensures after.depth == 0 && TopLoop(s, i, st) == TopLoop(s, i + |PrintAlternatives(alts)|, after)
    decreases alts
  {
    hide At, Boundary, Closed, NoCommand, IsCommandChar, TopLoop, Print, Valid;
    if |alts| == 1 {
      after := SkipAny(s, i, alts[0], st);
    } else {
      AlternativeParts(s, i, alts);
      var first := SkipAny(s, i, alts[0], st);
      var j := i + |Print(alts[0])|;
      BarStep(s, j, first);
      after := SkipAnyOf(s, j + 1, alts[1..], first.(seps := first.seps + [j]));
    }
  }

  /** Behind an unmatched parenthesis no sequence mends the scan. */
  lemma Unmatched(s: seq<Byte>, i: nat, r: Regex, st: TopScan)
    requires Valid(r) && !r.Choice? && st.depth == -1 && At(s, i, Print(r)) && i + |Print(r)| == |s|
    ensures TopLoop(s, i, st).None? || TopLoop(s, i, st).value.depth == -1
  {
    hide At, Boundary, Closed, NoCommand, IsCommandChar, Print, PrintAtom, PrintCount, ValidAtom;
    match r
    case Item(a, k, rest) =>
      ItemParts(s, i, r);
      FirstOfAtom(s, i, a);
    case Group(inner) =>
      hide TopLoop;
      GroupParts(s, i, inner);
      OpenStep(s, i, st);
      var after := SkipAny(s, i + 1, inner, st.(depth := 0));
      CloseStep(s, i + 1 + |Print(inner)|, after);
      EndLoop(s, after.(depth := -1));
    case Choice(_) =>
  }

  lemma FirstOfAtom(s: seq<Byte>, i: nat, a: Atom)
    requires ValidAtom(a) && At(s, i, PrintAtom(a))
    ensures i < |s| && !IsCommandChar(s, i, LPAREN) && !IsCommandChar(s, i, RPAREN)
  {
    hide PrintAtom, At, ValidAtom, IsCommandChar;
    AtomText(a, LPAREN);
    AtomText(a, RPAREN);
    CommandAt(s, i, PrintAtom(a), 0, LPAREN);
    CommandAt(s, i, PrintAtom(a), 0, RPAREN);
    AtReads(s, i, PrintAtom(a));
  }

  lemma Unspaced(u: seq<Byte>, v: seq<Byte>)
    requires Closed(u) && NoCommand(u, SPACE) && NoCommand(v, SPACE)
    ensures Parse(u + v) == ParseStripped(u + v)
  {
    NoCommandConcat(u, v, SPACE);
    StripNothing(u + v, 0);
    assert (u + v)[0..] == u + v;
    hide ParseStripped, NoCommand;
  }

  /** What is left of a group when its opening parenthesis is taken for a character. */
  lemma RestRejected(inner: Regex, r: Regex)
    requires Valid(inner) && Valid(r) && !r.Choice?
    ensures Parse(Print(inner) + ([RPAREN] + Print(r))).None?
  {
    hide At, Boundary, Closed, NoCommand, IsCommandChar, TopLoop, Print, Valid, Parse;
    var u, v := Print(inner), [RPAREN] + Print(r);
    var s := u + v;
    PrintClosed(inner);
    PrintClosed(r);
    UnitsClosed();
    PlainText([RPAREN], SPACE);
    NoCommandConcat([RPAREN], Print(r), SPACE);
    Unspaced(u, v);
    AtPrefix(u, v);
    AtSplit(s, |u|, [RPAREN], Print(r));
    var st := TopScan(0, -1, []);
    var after := SkipAny(s, 0, inner, st);
    CloseStep(s, |u|, after);
    Unmatched(s, |u| + 1, r, after.(depth := -1));
    hide Pieces, ParseAll, ScanCharSet, ScanCounts;
  }

  /** The first character of an expression starts no count. */
  lemma StartsPlain(r: Regex, x: Byte)
    requires Valid(r) && CountStart(x)
    ensures Print(r) != [] && !IsCommandChar(Print(r), 0, x)
  {
    if r.Choice? {
      var a := r.alternatives[0];
      var rest := [PIPE] + PrintAlternatives(r.alternatives[1..]);
      StartsNoCount(a, x);
      PrintClosed(a);
      AlternativesText(r.alternatives);
      AtPrefix(Print(a), rest);
      hide IsCommandChar, At, Closed, CountStart;
      CommandAt(Print(a) + rest, 0, Print(a), 0, x);
    } else {
      StartsNoCount(r, x);
    }
  }

  /** A group that a sequence follows is rejected: `(a)b` is no pattern. */
  lemma GroupThenRejected(inner: Regex, r: Regex)
    requires Valid(inner) && Valid(r) && !r.Choice?
    ensures Parse(Print(Group(inner)) + Print(r)).None?
  {
    hide At, Boundary, Closed, NoCommand, IsCommandChar, TopLoop, Print, Valid, Parse, ParseStripped;
    var g, t := Print(Group(inner)), Print(r);
    GroupSpaces(inner);
    PrintClosed(r);
    Unspaced(g, t);
    GroupThenScan(inner, r);
    GroupThenHead(inner, r);
    RestRejected(inner, r);
    GroupThenParse(g + t, |g|);
  }

  lemma GroupSpaces(inner: Regex)
    requires Valid(inner)
    ensures Closed(Print(Group(inner))) && NoCommand(Print(Group(inner)), SPACE) && Print(Group(inner)) != []
  {
    PrintClosed(Group(inner));
  }

  lemma GroupThenScan(inner: Regex, r: Regex)
    requires Valid(inner) && Valid(r) && !r.Choice?
    ensures var g := Print(Group(inner));
      TopLoop(g + Print(r), 0, TopScan(0, -1, [])) == Some(TopScan(0, |g| - 1, []))
  {
    hide At, Boundary, Closed, NoCommand, IsCommandChar, TopLoop, Print, Valid;
    var g, t := Print(Group(inner)), Print(r);
    var s := g + t;
    GroupSpaces(inner);
    AtPrefix(g, t);
    assert Valid(Group(inner)) by { GroupValid(inner); }
    SkipTop(s, 0, Group(inner), TopScan(0, -1, []));
    SkipTop(s, |g|, r, TopScan(0, |g| - 1, []));
    EndLoop(s, TopScan(0, |g| - 1, []));
  }

  lemma GroupValid(inner: Regex)
    requires Valid(inner)
    ensures Valid(Group(inner))
  {
  }

  /** The parenthesis is read as a character of its own, and the rest stays. */
  lemma GroupThenHead(inner: Regex, r: Regex)
    requires Valid(inner) && Valid(r)
    ensures var s := Print(Group(inner)) + Print(r);
      && |s| > 1 && s[1..] == Print(inner) + ([RPAREN] + Print(r))
      && ScanCharSet(s, 0) == Some(([LPAREN], 1)) && ScanCounts(s, 1) == Some(Counts(1, 1, 1))
  {
    hide At, Boundary, Closed, NoCommand, Print, Valid;
    var g, t := Print(Group(inner)), Print(r);
    var s := g + t;
    GroupSpaces(inner);
    AtPrefix(g, t);
    GroupParts(s, 0, inner);
    GroupText(inner);
    PrintClosed(inner);
    assert s == [LPAREN] + (Print(inner) + ([RPAREN] + t));
    CommandUnit(s, 0, LPAREN, LBRACKET);
    forall x: Byte | CountStart(x) ensures !IsCommandChar(s, 1, x) {
      StartsPlain(inner, x);
      CommandAt(s, 1, Print(inner), 0, x);
    }
    hide IsCommandChar;
    assert CountStart(LBRACE) && CountStart(QUESTION) && CountStart(STAR) && CountStart(PLUS);
  }

  lemma GroupThenParse(s: seq<Byte>, end: nat)
    requires TopLoop(s, 0, TopScan(0, -1, [])) == Some(TopScan(0, end - 1, [])) && 1 < end < |s|
    requires ScanCharSet(s, 0) == Some(([LPAREN], 1)) && ScanCounts(s, 1) == Some(Counts(1, 1, 1))
    requires Parse(s[1..]).None?
    ensures ParseStripped(s).None?
  {
    hide TopLoop, ScanCharSet, ScanCounts, Parse, Pieces, ParseAll, IsCommandChar;
  }

  // ------------------------------------------------- a group behind some items

  datatype Counted = Counted(atom: Atom, count: Count)

  predicate AllValid(items: seq<Counted>) {
    forall i | 0 <= i < |items| :: ValidAtom(items[i].atom) && ValidCount(items[i].count)
  }

  function HeadOf(c: Counted): seq<Byte> { PrintAtom(c.atom) + PrintCount(c.count) }

  /** Some items, a group, and a sequence behind it. */
  function Misplaced(items: seq<Counted>, inner: Regex, r: Regex): seq<Byte> {
    if items == [] then Print(Group(inner)) + Print(r)
    else HeadOf(items[0]) + Misplaced(items[1..], inner, r)
  }

  lemma {:induction false} MisplacedText(items: seq<Counted>, inner: Regex, r: Regex)
    requires AllValid(items) && Valid(inner) && Valid(r)
    ensures Misplaced(items, inner, r) != [] && NoCommand(Misplaced(items, inner, r), SPACE)
  {
    GroupSpaces(inner);
    PrintClosed(r);
    hide Closed, NoCommand, Print;
    if items == [] {
      NoCommandConcat(Print(Group(inner)), Print(r), SPACE);
    } else {
      MisplacedText(items[1..], inner, r);
      HeadText(items[0].atom, items[0].count, SPACE);
      NoCommandConcat(HeadOf(items[0]), Misplaced(items[1..], inner, r), SPACE);
    }
  }

  lemma {:induction false} MisplacedScan(s: seq<Byte>, i: nat, items: seq<Counted>, inner: Regex, r: Regex)
    requires AllValid(items) && Valid(inner) && Valid(r) && !r.Choice?
    requires At(s, i, Misplaced(items, inner, r)) && i + |Misplaced(items, inner, r)| == |s|
    ensures var end := |s| - |Print(r)|;
      TopLoop(s, i, TopScan(0, -1, [])) == Some(TopScan(0, end - 1, []))
    decreases |items|
  {
    hide At, Boundary, Closed, NoCommand, IsCommandChar, TopLoop, Print, Valid, PrintAtom, PrintCount, ValidAtom;
    var st := TopScan(0, -1, []);
    if items == [] {
      var g, t := Print(Group(inner)), Print(r);
      GroupSpaces(inner);
      AtSplit(s, i, g, t);
      assert Valid(Group(inner)) by { GroupValid(inner); }
      SkipTop(s, i, Group(inner), st);
      SkipTop(s, i + |g|, r, TopScan(0, i + |g| - 1, []));
      EndLoop(s, TopScan(0, i + |g| - 1, []));
    } else {
      var c := items[0];
      HeadText(c.atom, c.count, SPACE);
      AtSplit(s, i, HeadOf(c), Misplaced(items[1..], inner, r));
      SkipItem(s, i, c.atom, c.count, st);
      MisplacedScan(s, i + |HeadOf(c)|, items[1..], inner, r);
    }
  }

  /** The expression that such a text begins with, and what stands behind it. */
  lemma MisplacedFront(items: seq<Counted>, inner: Regex, r: Regex) returns (first: Regex, v: seq<Byte>)
    requires AllValid(items) && Valid(inner)
    ensures Valid(first) && !first.Choice? && Misplaced(items, inner, r) == Print(first) + v
  {
    if items == [] {
      first, v := Group(inner), Print(r);
    } else {
      first, v := Item(items[0].atom, items[0].count, End), Misplaced(items[1..], inner, r);
      ItemTextParts(first);
      hide PrintAtom, PrintCount, Print;
      assert HeadOf(items[0]) + [] == HeadOf(items[0]);
    }
  }

  /** What follows an item is not read as its count. */
  lemma MisplacedStarts(items: seq<Counted>, inner: Regex, r: Regex, x: Byte)
    requires AllValid(items) && Valid(inner) && CountStart(x)
    ensures !IsCommandChar(Misplaced(items, inner, r), 0, x)
  {
    hide *;
    var first, v := MisplacedFront(items, inner, r);
    StartsNoCount(first, x);
    PrintClosed(first);
    AtPrefix(Print(first), v);
    CommandAt(Print(first) + v, 0, Print(first), 0, x);
  }

  lemma MisplacedStep(items: seq<Counted>, inner: Regex, r: Regex)
    requires AllValid(items) && items != []
    ensures Misplaced(items, inner, r) == HeadOf(items[0]) + Misplaced(items[1..], inner, r)
    ensures HeadOf(items[0]) == PrintAtom(items[0].atom) + PrintCount(items[0].count)
    ensures ValidAtom(items[0].atom) && ValidCount(items[0].count) && AllValid(items[1..])
    ensures items[0].count.Once? ==> PrintCount(items[0].count) == []
  {
    hide PrintAtom;
  }

  lemma MisplacedHead(items: seq<Counted>, inner: Regex, r: Regex)
    requires AllValid(items) && items != [] && Valid(inner) && Valid(r)
    ensures var s, a, k := Misplaced(items, inner, r), items[0].atom, items[0].count;
      && !IsCommandChar(s, 0, LPAREN) && ScanCharSet(s, 0) == Some((AtomChars(a), |PrintAtom(a)|))
      && ScanCounts(s, |PrintAtom(a)|) == Some(Counts(CountFrom(k), CountTo(k), |HeadOf(items[0])|))
  {
    hide *;
    var s, a, k := Misplaced(items, inner, r), items[0].atom, items[0].count;
    var v := Misplaced(items[1..], inner, r);
    MisplacedStep(items, inner, r);
    UnitsClosed();
    HeadText(a, k, SPACE);
    AtomText(a, SPACE);
    AtSelf(s);
    AtSplit(s, 0, HeadOf(items[0]), v);
    AtSplit(s, 0, PrintAtom(a), PrintCount(k));
    NotAtomCommand(s, a);
    ScanAtom(s, 0, a);
    if k.Once? {
      forall x: Byte | CountStart(x) ensures !IsCommandChar(s, |PrintAtom(a)|, x) {
        MisplacedStarts(items[1..], inner, r, x);
        MisplacedText(items[1..], inner, r);
        CommandAt(s, |PrintAtom(a)|, v, 0, x);
      }
    }
    ScanCount(s, |PrintAtom(a)|, k);
  }

  /** A group may only end a sequence: behind any items, a group that a sequence follows is
      rejected, whatever is inside the group. */
  lemma {:induction false} MisplacedGroupRejected(items: seq<Counted>, inner: Regex, r: Regex)
    requires AllValid(items) && Valid(inner) && Valid(r) && !r.Choice?
    ensures Parse(Misplaced(items, inner, r)).None?
    decreases |items|
  {
    hide *;
    if items == [] {
      MisplacedNone(inner, r);
      GroupThenRejected(inner, r);
    } else {
      var s, v := Misplaced(items, inner, r), Misplaced(items[1..], inner, r);
      MisplacedStep(items, inner, r);
      MisplacedGroupRejected(items[1..], inner, r);
      MisplacedText(items, inner, r);
      MisplacedText(items[1..], inner, r);
      AtSelf(s);
      MisplacedScan(s, 0, items, inner, r);
      MisplacedHead(items, inner, r);
      MisplacedParse(s, items[0].atom, items[0].count, v, |s| - |Print(r)|);
    }
  }

  lemma MisplacedNone(inner: Regex, r: Regex)
    ensures Misplaced([], inner, r) == Print(Group(inner)) + Print(r)
  {
  }

  lemma MisplacedParse(s: seq<Byte>, a: Atom, k: Count, v: seq<Byte>, end: int)
    requires s == HeadOf(Counted(a, k)) + v && v != []
    requires NoCommand(s, SPACE) && TopLoop(s, 0, TopScan(0, -1, [])) == Some(TopScan(0, end - 1, []))
    requires !IsCommandChar(s, 0, LPAREN) && ValidAtom(a)
    requires ScanCharSet(s, 0) == Some((AtomChars(a), |PrintAtom(a)|))
    requires ScanCounts(s, |PrintAtom(a)|) == Some(Counts(CountFrom(k), CountTo(k), |HeadOf(Counted(a, k))|))
    requires Parse(v).None?
    ensures Parse(s).None?
  {
    hide TopLoop, ScanCharSet, ScanCounts, Pieces, ParseAll, IsCommandChar, AtomChars, PrintAtom, NoCommand, HeadOf;
    StripNothing(s, 0);
    assert s[0..] == s;
    assert Parse(s) == ParseStripped(s);
    hide Parse;
    assert s[|HeadOf(Counted(a, k))|..] == v;
  }

  // --------------------------------------------------------------------- NUL

  /** A NUL that is read in a bracket adds nothing to the set and leaves nothing pending. */
  lemma NulAddsNothing(s: seq<Byte>, st: SetScan)
    requires GetChar(s, st.pos).0 == 0
    ensures var next := SetStep(s, st);
      next.Some? && next.value.prev == 0 && next.value.chars == Flush(st.chars, st.prev)
  {
    hide Slashes;
  }

  /** Behind a NUL a minus sign starts no range: it is listed itself. */
  lemma NulStartsNoRange(s: seq<Byte>, st: SetScan)
    requires st.prev == 0 && st.pos < |s| && IsCommandChar(s, st.pos, MINUS)
    ensures SetStep(s, st) == Some(SetScan(st.chars, MINUS, st.pos + 1))
  {
    hide Slashes;
  }

  /** So a range from NUL to an ordinary character is read as the minus sign and that character. */
  lemma NulRangeMisread(hi: Byte, c: Byte)
    requires ValidInside(Letter(hi, false)) && hi != 0
    ensures var r := ScanCharSet([LBRACKET, 0, MINUS, hi, RBRACKET], 0);
      r.Some? && r.value.1 == 5 && (c in r.value.0 <==> c == MINUS || c == hi)
  {
    var s: seq<Byte> := [LBRACKET, 0, MINUS, hi, RBRACKET];
    NulRangeSteps(s, hi);
    SortBytesMembers([MINUS, hi], c);
    hide SetBody, SetStep, IsCommandChar, Complement, SortBytes;
    assert Flush([MINUS], hi) == [MINUS, hi];
  }

  lemma NulRangeSteps(s: seq<Byte>, hi: Byte)
    requires ValidInside(Letter(hi, false)) && hi != 0 && s == [LBRACKET, 0, MINUS, hi, RBRACKET]
    ensures IsCommandChar(s, 0, LBRACKET) && !IsCommandChar(s, 1, CARET) && IsCommandChar(s, 4, RBRACKET)
    ensures SetBody(s, SetScan([], 0, 1)) == Some(SetScan([MINUS], hi, 4))
  {
    PlainText(s, LBRACKET);
    PlainText(s, RBRACKET);
    PlainText(s, CARET);
    PlainText(s, MINUS);
    hide IsCommandChar, Boundary, Closed, NoCommand;
    NulAddsNothing(s, SetScan([], 0, 1));
    NulStartsNoRange(s, SetScan([], 0, 2));
    assert GetChar(s, 1) == (0, 2) && GetChar(s, 3) == (hi, 4) && !IsCommandChar(s, 3, MINUS);
    assert SetStep(s, SetScan([], 0, 1)) == Some(SetScan([], 0, 2));
    assert Flush([], MINUS) == [MINUS];
    assert SetStep(s, SetScan([], MINUS, 3)) == Some(SetScan([MINUS], hi, 4));
    hide SetStep, GetChar;
    var end := Some(SetScan([MINUS], hi, 4));
    assert SetBody(s, SetScan([MINUS], hi, 4)) == end;
    assert SetBody(s, SetScan([], MINUS, 3)) == end;
    assert SetBody(s, SetScan([], 0, 2)) == end;
  }

  /** A backslash that ends the text escapes the NUL behind it. */
  lemma LastBackslash()
    ensures Parse([92]) == Some(Node([0], 1, 1, []))
  {
    var s: seq<Byte> := [92];
    assert StripSpaces(s, 1) == [] && StripSpaces(s, 0) == s;
    assert TopLoop(s, 1, TopScan(0, -1, [])) == Some(TopScan(0, -1, []));
    assert TopLoop(s, 0, TopScan(0, -1, [])) == Some(TopScan(0, -1, []));
    assert ScanCharSet(s, 0) == Some(([0], 2));
    hide TopLoop, ScanCharSet, StripSpaces, Pieces;
  }

  // ------------------------------------------------------- minus signs in sets

  /** A bare minus sign that ends a bracket is listed, whatever stands before it. */
  lemma LastMinusListed(items: seq<SetItem>, c: Byte)
    requires ValidItems(false, items + [One(BARE_MINUS)])
    ensures var r := ScanCharSet(PrintAtom(Bracket(false, items + [One(BARE_MINUS)])), 0);
      r.Some? && (c in r.value.0 <==> c == 45 || exists i | 0 <= i < |items| :: Covers(items[i], c))
  {
    var all := items + [One(BARE_MINUS)];
    var a := Bracket(false, all);
    hide PrintAtom, AtomChars, ScanCharSet;
    AtSelf(PrintAtom(a));
    ScanAtom(PrintAtom(a), 0, a);
    AtomCharsMembers(a, c);
    assert Covers(all[|items|], c) <==> c == 45;
    if i :| 0 <= i < |items| && Covers(items[i], c) { assert Covers(all[i], c); }
    if i :| 0 <= i < |all| && Covers(all[i], c) { assert i < |items| ==> Covers(items[i], c); }
  }

  /** The set of "[+-]" holds both signs. */
  lemma SignSet(c: Byte)
    ensures var r := ScanCharSet(Ascii("[+-]"), 0);
      r.Some? && r.value.1 == 4 && (c in r.value.0 <==> c == 43 || c == 45)
  {
    var plus := One(Letter(43, false));
    var items := [plus];
    var all := items + [One(BARE_MINUS)];
    assert all[1..] == [One(BARE_MINUS)] && all[1..][1..] == [];
    assert all == [plus, One(BARE_MINUS)] && |all[1..]| == 1;
    assert MinusPlaced(all[1..][1..], false);
    assert MinusPlaced(all[1..], false);
    assert MinusPlaced(all, true);
    assert ValidItem(all[0]) && ValidItem(all[1]);
    LastMinusListed(items, c);
    SignSetText(all);
    assert Covers(items[0], c) <==> c == 43;
    AtSelf(PrintAtom(Bracket(false, all)));
    hide PrintAtom, AtomChars, ScanCharSet, Ascii;
    ScanAtom(PrintAtom(Bracket(false, all)), 0, Bracket(false, all));
  }

  lemma SignSetText(all: seq<SetItem>)
    requires all == [One(Letter(43, false)), One(BARE_MINUS)]
    ensures PrintAtom(Bracket(false, all)) == Ascii("[+-]") && |Ascii("[+-]")| == 4
  {
    var t := "[+-]";
    assert IsAscii(t) && Ascii(t) == [91, 43, 45, 93];
    hide Ascii;
    assert all[1..] == [One(BARE_MINUS)] && all[1..][1..] == [];
    assert PrintItems(all[1..][1..]) == [];
    assert PrintItems(all[1..]) == [45];
    assert PrintItems(all) == [43, 45];
  }

  // ------------------------------------------------------- what has to close

  /** A set is read only up to a closing bracket, and counts up to a closing brace. */
  lemma ClosersNeeded(s: seq<Byte>, pos: nat)
    ensures IsCommandChar(s, pos, LBRACKET) && ScanCharSet(s, pos).Some? ==>
              IsCommandChar(s, ScanCharSet(s, pos).value.1 - 1, RBRACKET)
    ensures IsCommandChar(s, pos, LBRACE) && ScanCounts(s, pos).Some? ==>
              IsCommandChar(s, ScanCounts(s, pos).value.pos - 1, RBRACE)
  {
    hide Slashes, SetBody, PartBody, Complement, SortBytes;
  }

  /** A range whose ends are in the wrong order is rejected, and every other one adds exactly
      the characters between its ends. */
  lemma RangeExactly(s: seq<Byte>, st: SetScan, c: Byte)
    requires IsCommandChar(s, st.pos, MINUS) && st.prev != 0
    requires st.pos + 2 != |s| && !IsCommandChar(s, st.pos + 1, RBRACKET)
    ensures var hi := GetChar(s, st.pos + 1).0; var next := SetStep(s, st);
      && (next.None? <==> st.prev > hi)
      && (next.Some? ==> next.value.prev == 0)
      && (next.Some? ==> (c in next.value.chars <==> c in st.chars || st.prev <= c <= hi))
  {
    hide Slashes;
    var hi := GetChar(s, st.pos + 1).0;
    if st.prev <= hi {
      var chars := CharRange(st.prev, hi);
      if st.prev <= c <= hi { assert chars[c as int - st.prev as int] == c; }
      assert forall i | 0 <= i < |chars| :: st.prev <= chars[i] <= hi;
      assert c in st.chars + chars <==> c in st.chars || c in chars;
      hide CharRange;
    }
  }

  // --------------------------------------------------------- numbers in braces

  /** Numbers, each with a comma behind it. */
  function CommaText(ns: seq<nat>): seq<Byte> {
    if ns == [] then [] else NatText(ns[0]) + ([COMMA] + CommaText(ns[1..]))
  }

  function LastText(last: Option<nat>): seq<Byte> { if last.Some? then NatText(last.value) else [] }

  /** A list of numbers in braces, possibly with a comma at its end. */
  function BraceText(ns: seq<nat>, last: Option<nat>): seq<Byte> {
    [LBRACE] + (CommaText(ns) + (LastText(last) + [RBRACE]))
  }

  function NumberTexts(ns: seq<nat>): (r: seq<seq<Byte>>)
    ensures |r| == |ns|
  {
    if ns == [] then [] else [NatText(ns[0])] + NumberTexts(ns[1..])
  }

  lemma {:induction false} CommaTextClosed(ns: seq<nat>)
    ensures Closed(CommaText(ns))
  {
    if ns != [] {
      hide Closed, NatText, Boundary;
      CommaTextClosed(ns[1..]);
      NumberText(ns[0]);
      UnitsClosed();
      ClosedConcat([COMMA], CommaText(ns[1..]));
      ClosedConcat(NatText(ns[0]), [COMMA] + CommaText(ns[1..]));
    } else {
      PlainText([], COMMA);
    }
  }

  lemma {:induction false} CommaParts(s: seq<Byte>, pos: nat, ns: seq<nat>, parts: seq<seq<Byte>>)
    requires At(s, pos, CommaText(ns))
    ensures PartBody(s, PartScan([], parts, pos))
         == PartBody(s, PartScan([], parts + NumberTexts(ns), pos + |CommaText(ns)|))
    decreases |ns|
  {
    hide At, Boundary, Closed, IsCommandChar, PartBody, NatText;
    if ns == [] {
      assert parts + [] == parts;
    } else {
      var t := NatText(ns[0]);
      var later := CommaText(ns[1..]);
      NumberText(ns[0]);
      UnitsClosed();
      AtSplit(s, pos, t, [COMMA] + later);
      AtSplit(s, pos + |t|, [COMMA], later);
      PartReads(s, PartScan([], parts, pos), t);
      assert [] + t == t;
      CommaPart(s, PartScan(t, parts, pos + |t|));
      CommaParts(s, pos + |t| + 1, ns[1..], parts + [t]);
      assert parts + NumberTexts(ns) == parts + [t] + NumberTexts(ns[1..]);
    }
  }

  /** A list in braces is one or two numbers in order, and a comma at its end counts for
      nothing: `{2,}` means exactly two. No numbers or more than two are rejected. */
  lemma BraceExactly(s: seq<Byte>, pos: nat, ns: seq<nat>, last: Option<nat>)
    requires At(s, pos, BraceText(ns, last))
    ensures var all := if last.Some? then ns + [last.value] else ns;
      var end := pos + |BraceText(ns, last)|;
      ScanCounts(s, pos) ==
        if |all| == 1 then Some(Counts(all[0], all[0], end))
        else if |all| == 2 && all[0] <= all[1] then Some(Counts(all[0], all[1], end))
        else None
  {
    hide *;
    var all := if last.Some? then ns + [last.value] else ns;
    var end := pos + |BraceText(ns, last)|;
    BraceParts(s, pos, ns, last);
    AllTexts(ns, last);
    BraceNumbers(s, pos, ns, last, all);
    NumbersCounted(all, end);
  }

  lemma BraceParts(s: seq<Byte>, pos: nat, ns: seq<nat>, last: Option<nat>)
    requires At(s, pos, BraceText(ns, last))
    ensures IsCommandChar(s, pos, LBRACE) && pos < |s|
    ensures PartBody(s, PartScan([], [], pos + 1))
         == PartScan(LastText(last), NumberTexts(ns), pos + |BraceText(ns, last)| - 1)
    ensures IsCommandChar(s, pos + |BraceText(ns, last)| - 1, RBRACE)
  {
    hide At, Boundary, Closed, IsCommandChar, PartBody, NatText, CommaText, NumberTexts;
    var start := pos + 1;
    var mid := start + |CommaText(ns)|;
    UnitsClosed();
    AtSplit(s, pos, [LBRACE], CommaText(ns) + (LastText(last) + [RBRACE]));
    CommandUnit(s, pos, LBRACE, LBRACE);
    CommaTextClosed(ns);
    AtSplit(s, start, CommaText(ns), LastText(last) + [RBRACE]);
    CommaParts(s, start, ns, []);
    assert [] + NumberTexts(ns) == NumberTexts(ns);
    if last.Some? {
      NumberText(last.value);
      AtSplit(s, mid, NatText(last.value), [RBRACE]);
      PartReads(s, PartScan([], NumberTexts(ns), mid), NatText(last.value));
      assert [] + NatText(last.value) == NatText(last.value);
      EndBrace(s, PartScan(NatText(last.value), NumberTexts(ns), mid + |NatText(last.value)|));
    } else {
      assert [] + [RBRACE] == [RBRACE];
      EndBrace(s, PartScan([], NumberTexts(ns), mid));
    }
  }

  lemma AllTexts(ns: seq<nat>, last: Option<nat>)
    ensures var parts := NumberTexts(ns);
      var all := if last.Some? then ns + [last.value] else ns;
      (if LastText(last) != [] then parts + [LastText(last)] else parts) == NumberTexts(all)
  {
    hide NatText;
    if last.Some? {
      NumberText(last.value);
      TextsAppend(ns, last.value);
    }
  }

  lemma {:induction false} TextsAppend(ns: seq<nat>, n: nat)
    ensures NumberTexts(ns + [n]) == NumberTexts(ns) + [NatText(n)]
  {
    hide NatText;
    if ns != [] {
      TextsAppend(ns[1..], n);
      assert (ns + [n])[1..] == ns[1..] + [n];
    } else {
      assert (ns + [n])[1..] == [];
    }
  }

  lemma BraceNumbers(s: seq<Byte>, pos: nat, ns: seq<nat>, last: Option<nat>, all: seq<nat>)
    requires IsCommandChar(s, pos, LBRACE) && pos < |s|
    requires PartBody(s, PartScan([], [], pos + 1))
          == PartScan(LastText(last), NumberTexts(ns), pos + |BraceText(ns, last)| - 1)
    requires IsCommandChar(s, pos + |BraceText(ns, last)| - 1, RBRACE)
    requires (if LastText(last) != [] then NumberTexts(ns) + [LastText(last)] else NumberTexts(ns)) == NumberTexts(all)
    ensures ScanCounts(s, pos) == BraceCounts(NumberTexts(all), pos + |BraceText(ns, last)|)
  {
    hide IsCommandChar, PartBody, BraceCounts, NumberTexts, LastText;
  }

  lemma NumbersCounted(all: seq<nat>, end: nat)
    ensures BraceCounts(NumberTexts(all), end) ==
      if |all| == 1 then Some(Counts(all[0], all[0], end))
      else if |all| == 2 && all[0] <= all[1] then Some(Counts(all[0], all[1], end))
      else None
  {
    hide ScanInt, NatText;
    if |all| >= 1 { ScanNat(all[0]); }
    if |all| == 2 { ScanNat(all[1]); }
  }
}
