/** Compiling the text of any expression of the grammar yields its tree. */
module PatternRoundTrip {
  import opened Bytes
  import opened Decimal
  import opened PatternTree
  import opened PatternParser
  import opened PatternGrammar

  // ------------------------------------------------------ texts in a context

  ghost predicate Closed(u: seq<Byte>) { Boundary(u, |u|) }

  /** `u` stands at `pos`, and a reader stops there. */
  ghost predicate At(s: seq<Byte>, pos: nat, u: seq<Byte>) {
    pos + |u| <= |s| && s[pos..pos + |u|] == u && Boundary(s, pos)
  }

  ghost predicate NoCommand(u: seq<Byte>, x: Byte) {
    forall k | 0 <= k < |u| :: !IsCommandChar(u, k, x)
  }

  lemma {:induction false} BoundaryShift(s: seq<Byte>, pos: nat, u: seq<Byte>, k: nat)
    requires At(s, pos, u) && k <= |u|
    ensures Boundary(s, pos + k) == Boundary(u, k)
  {
    if k > 0 {
      BoundaryShift(s, pos, u, k - 1);
      assert u[k - 1] == s[pos..pos + |u|][k - 1] == s[pos + k - 1];
    }
  }

  lemma CommandAt(s: seq<Byte>, pos: nat, u: seq<Byte>, k: nat, x: Byte)
    requires At(s, pos, u) && k < |u|
    ensures IsCommandChar(s, pos + k, x) == IsCommandChar(u, k, x)
    ensures s[pos + k] == u[k]
  {
    BoundaryShift(s, pos, u, k);
    CommandIffBoundary(s, pos + k, x);
    CommandIffBoundary(u, k, x);
    assert u[k] == s[pos..pos + |u|][k];
  }

  lemma AtSplit(s: seq<Byte>, pos: nat, u: seq<Byte>, v: seq<Byte>)
    requires At(s, pos, u + v) && Closed(u)
    ensures At(s, pos, u) && At(s, pos + |u|, v)
  {
    var uv := u + v;
    assert s[pos..pos + |u|] == s[pos..pos + |uv|][..|u|] == u;
    assert s[pos + |u|..pos + |u| + |v|] == s[pos..pos + |uv|][|u|..] == v;
    BoundaryShift(s, pos, u, |u|);
  }

  lemma AtSelf(u: seq<Byte>)
    ensures At(u, 0, u)
  {
    assert u[0..0 + |u|] == u;
  }

  lemma AtPrefix(u: seq<Byte>, v: seq<Byte>)
    requires Closed(u)
    ensures At(u + v, 0, u) && At(u + v, |u|, v)
  {
    AtSelf(u + v);
    AtSplit(u + v, 0, u, v);
  }

  lemma ClosedConcat(u: seq<Byte>, v: seq<Byte>)
    requires Closed(u) && Closed(v)
    ensures Closed(u + v)
  {
    AtPrefix(u, v);
    BoundaryShift(u + v, |u|, v, |v|);
  }

  lemma NoCommandConcat(u: seq<Byte>, v: seq<Byte>, x: Byte)
    requires Closed(u) && NoCommand(u, x) && NoCommand(v, x)
    ensures NoCommand(u + v, x)
  {
    AtPrefix(u, v);
    forall k | 0 <= k < |u + v| ensures !IsCommandChar(u + v, k, x) {
      if k < |u| { CommandAt(u + v, 0, u, k, x); } else { CommandAt(u + v, |u|, v, k - |u|, x); }
    }
  }

  lemma {:induction false} NoBackslash(u: seq<Byte>, k: nat)
    requires k <= |u| && BACKSLASH !in u
    ensures Boundary(u, k)
  {
  }

  /** Text without backslashes has a command exactly where the character stands. */
  lemma PlainText(u: seq<Byte>, x: Byte)
    requires BACKSLASH !in u
    ensures Closed(u)
    ensures x !in u ==> NoCommand(u, x)
    ensures forall k | 0 <= k < |u| :: IsCommandChar(u, k, x) <==> u[k] == x
  {
    NoBackslash(u, |u|);
    forall k | 0 <= k < |u| ensures IsCommandChar(u, k, x) <==> u[k] == x {
      NoBackslash(u, k);
      CommandIffBoundary(u, k, x);
    }
  }

  // ---------------------------------------------------------- small pieces

  lemma LetterText(l: Letter, x: Byte)
    requires l.escaped || l.c != BACKSLASH
    requires x != BACKSLASH
    ensures Closed(PrintLetter(l))
    ensures l.escaped || l.c != x ==> NoCommand(PrintLetter(l), x)
  {
    var u := PrintLetter(l);
    if l.escaped {
      assert Boundary(u, 0) && !Boundary(u, 1) && Boundary(u, 2);
      CommandIffBoundary(u, 0, x);
      CommandIffBoundary(u, 1, x);
    } else {
      PlainText(u, x);
    }
  }

  lemma GetLetter(s: seq<Byte>, pos: nat, l: Letter)
    requires l.escaped || l.c != BACKSLASH
    requires At(s, pos, PrintLetter(l))
    ensures GetChar(s, pos) == (l.c, pos + |PrintLetter(l)|)
  {
    var u := PrintLetter(l);
    assert s[pos..pos + |u|][0] == s[pos];
    if l.escaped { assert s[pos..pos + |u|][1] == s[pos + 1]; }
  }

  /** None of the characters that steer the scan outside a set. */
  ghost predicate Outer(x: Byte) { x == LPAREN || x == RPAREN || x == PIPE || x == SPACE }

  lemma ItemText(i: SetItem, x: Byte)
    requires ValidItem(i) && (Outer(x) || x == RBRACKET)
    ensures Closed(PrintItem(i)) && NoCommand(PrintItem(i), x)
    ensures PrintItem(i) != []
  {
    match i
    case One(l) => LetterText(l, x);
    case Span(lo, hi) =>
      LetterText(lo, x);
      LetterText(hi, x);
      PlainText([MINUS], x);
      ClosedConcat(PrintLetter(lo), [MINUS]);
      NoCommandConcat(PrintLetter(lo), [MINUS], x);
      ClosedConcat(PrintLetter(lo) + [MINUS], PrintLetter(hi));
      NoCommandConcat(PrintLetter(lo) + [MINUS], PrintLetter(hi), x);
  }

  lemma {:induction false} ItemsText(items: seq<SetItem>, x: Byte)
    requires (forall i | 0 <= i < |items| :: ValidItem(items[i])) && (Outer(x) || x == RBRACKET)
    ensures Closed(PrintItems(items)) && NoCommand(PrintItems(items), x)
  {
    if items != [] {
      ItemText(items[0], x);
      ItemsText(items[1..], x);
      ClosedConcat(PrintItem(items[0]), PrintItems(items[1..]));
      NoCommandConcat(PrintItem(items[0]), PrintItems(items[1..]), x);
    }
  }

  function BracketOpen(neg: bool): seq<Byte> { [LBRACKET] + (if neg then [CARET] else []) }

  lemma AtomText(a: Atom, x: Byte)
    requires ValidAtom(a) && Outer(x)
    ensures Closed(PrintAtom(a)) && NoCommand(PrintAtom(a), x)
    ensures PrintAtom(a) != []
  {
    match a
    case Single(l) => LetterText(l, x);
    case Bracket(neg, items) =>
      var o := BracketOpen(neg);
      PlainText(o, x);
      ItemsText(items, x);
      PlainText([RBRACKET], x);
      ClosedConcat(o, PrintItems(items));
      NoCommandConcat(o, PrintItems(items), x);
      ClosedConcat(o + PrintItems(items), [RBRACKET]);
      NoCommandConcat(o + PrintItems(items), [RBRACKET], x);
  }

  lemma CountText(k: Count, x: Byte)
    requires Outer(x)
    ensures Closed(PrintCount(k)) && NoCommand(PrintCount(k), x)
  {
    hide NatText, NoCommand, Closed, Boundary;
    if k.Exactly? { NatTextShape(k.n); }
    if k.Between? { NatTextShape(k.lo); NatTextShape(k.hi); }
    PlainText(PrintCount(k), x);
  }

  lemma {:induction false} PrintClosed(r: Regex)
    requires Valid(r)
    ensures Closed(Print(r)) && Print(r) != []
    ensures NoCommand(Print(r), SPACE)
    decreases r
  {
    match r
    case Item(a, k, rest) =>
      AtomText(a, SPACE);
      CountText(k, SPACE);
      ClosedConcat(PrintAtom(a), PrintCount(k));
      NoCommandConcat(PrintAtom(a), PrintCount(k), SPACE);
      var u := PrintAtom(a) + PrintCount(k);
      var v := if rest.End? then [] else Print(rest.next);
      if rest.Then? { PrintClosed(rest.next); }
      ClosedConcat(u, v);
      NoCommandConcat(u, v, SPACE);
    case Choice(alts) => AlternativesClosed(alts);
    case Group(inner) =>
      PrintClosed(inner);
      PlainText([LPAREN], SPACE);
      PlainText([RPAREN], SPACE);
      ClosedConcat([LPAREN], Print(inner));
      NoCommandConcat([LPAREN], Print(inner), SPACE);
      ClosedConcat([LPAREN] + Print(inner), [RPAREN]);
      NoCommandConcat([LPAREN] + Print(inner), [RPAREN], SPACE);
  }

  lemma {:induction false} AlternativesClosed(alts: seq<Regex>)
    requires |alts| >= 1 && forall i | 0 <= i < |alts| :: Valid(alts[i])
    ensures Closed(PrintAlternatives(alts)) && PrintAlternatives(alts) != []
    ensures NoCommand(PrintAlternatives(alts), SPACE)
    decreases alts
  {
    var u := Print(alts[0]);
    PrintClosed(alts[0]);
    if |alts| > 1 {
      AlternativesClosed(alts[1..]);
      PlainText([PIPE], SPACE);
      ClosedConcat(u, [PIPE]);
      NoCommandConcat(u, [PIPE], SPACE);
      ClosedConcat(u + [PIPE], PrintAlternatives(alts[1..]));
      NoCommandConcat(u + [PIPE], PrintAlternatives(alts[1..]), SPACE);
    }
  }

  // ------------------------------------------------------- spaces are noise

  lemma {:induction false} StripNothing(s: seq<Byte>, i: nat)
    requires i <= |s| && NoCommand(s, SPACE)
    ensures StripSpaces(s, i) == s[i..]
    decreases |s| - i
  {
    if i < |s| {
      StripNothing(s, i + 1);
      assert s[i..] == [s[i]] + s[i + 1..];
    }
  }

  /** Appending a character that is no unescaped space to such a text. */
  lemma AppendKeeps(out: seq<Byte>, c: Byte)
    requires NoCommand(out, SPACE) && !(Closed(out) && c == SPACE)
    ensures NoCommand(out + [c], SPACE)
    ensures Closed(out + [c]) <==> c != BACKSLASH || !Closed(out)
  {
    var next := out + [c];
    BoundaryPrefix(out, [c], |out|);
    forall k | 0 <= k < |next| ensures !IsCommandChar(next, k, SPACE) {
      CommandIffBoundary(next, k, SPACE);
      BoundaryPrefix(out, [c], k);
      if k < |out| { CommandIffBoundary(out, k, SPACE); }
    }
  }

  /** Removing the unescaped spaces moves no escape: what is kept keeps its status. */
  lemma {:induction false} StripKeepsBoundaries(s: seq<Byte>, i: nat, out: seq<Byte>)
    requires i <= |s| && NoCommand(out, SPACE) && Closed(out) == Boundary(s, i)
    ensures NoCommand(out + StripSpaces(s, i), SPACE)
    decreases |s| - i
  {
    hide NoCommand, IsCommandChar, Closed;
    if i < |s| {
      CommandIffBoundary(s, i, SPACE);
      if IsCommandChar(s, i, SPACE) {
        StripKeepsBoundaries(s, i + 1, out);
        assert [] + StripSpaces(s, i + 1) == StripSpaces(s, i + 1);
      } else {
        AppendKeeps(out, s[i]);
        StripKeepsBoundaries(s, i + 1, out + [s[i]]);
        assert out + ([s[i]] + StripSpaces(s, i + 1)) == (out + [s[i]]) + StripSpaces(s, i + 1);
      }
    } else {
      assert out + [] == out;
    }
  }

  lemma {:induction false} BoundaryPrefix(u: seq<Byte>, v: seq<Byte>, k: nat)
    requires k <= |u|
    ensures Boundary(u + v, k) == Boundary(u, k)
  {
    if k > 0 { BoundaryPrefix(u, v, k - 1); }
  }

  /** Unescaped spaces make no difference anywhere in a pattern. */
  lemma SpacesIgnored(s: seq<Byte>)
    ensures Parse(s) == Parse(StripSpaces(s, 0))
  {
    StripKeepsBoundaries(s, 0, []);
    var t := StripSpaces(s, 0);
    assert [] + t == t;
    StripNothing(t, 0);
    assert t[0..] == t;
  }

  // --------------------------------------------------------- scanning a set

  lemma EmptySetBody(s: seq<Byte>, st: SetScan)
    requires At(s, st.pos, [RBRACKET])
    ensures SetBody(s, st) == Some(st) && IsCommandChar(s, st.pos, RBRACKET)
  {
    CommandUnit(s, st.pos, RBRACKET, RBRACKET);
  }

  lemma ItemsSplit(items: seq<SetItem>)
    requires items != [] && (forall i | 0 <= i < |items| :: ValidItem(items[i]))
    ensures PrintItems(items) + [RBRACKET] == PrintItem(items[0]) + (PrintItems(items[1..]) + [RBRACKET])
    ensures |PrintItems(items)| == |PrintItem(items[0])| + |PrintItems(items[1..])|
    ensures ItemsChars(items) == ItemChars(items[0]) + ItemsChars(items[1..])
    ensures Closed(PrintItem(items[0]))
  {
    ItemText(items[0], RBRACKET);
  }

  lemma {:induction false} SetBodyReads(s: seq<Byte>, st: SetScan, items: seq<SetItem>)
    requires forall i | 0 <= i < |items| :: ValidItem(items[i])
    requires MinusPlaced(items, st.prev == 0) && At(s, st.pos, PrintItems(items) + [RBRACKET])
    ensures var r := SetBody(s, st);
            && r.Some? && r.value.pos == st.pos + |PrintItems(items)|
            && Flush(r.value.chars, r.value.prev) == Flush(st.chars, st.prev) + ItemsChars(items)
    decreases |items|
  {
    hide At, Boundary, Closed, SetBody, Flush, ValidItem, PrintItem, ItemChars;
    if items == [] {
      assert PrintItems(items) + [RBRACKET] == [RBRACKET];
      EmptySetBody(s, st);
      assert Flush(st.chars, st.prev) + [] == Flush(st.chars, st.prev);
    } else {
      hide PrintItems, ItemsChars;
      ItemsSplit(items);
      var rest := PrintItems(items[1..]) + [RBRACKET];
      AtSplit(s, st.pos, PrintItem(items[0]), rest);
      assert |items| == 1 ==> rest == [RBRACKET] by { NoItems(); }
      var next := ItemStep(s, st, items[0], rest);
      PlacedTail(items, st.prev == 0, next.prev == 0);
      SetBodyReads(s, next, items[1..]);
      assert (Flush(st.chars, st.prev) + ItemChars(items[0])) + ItemsChars(items[1..])
          == Flush(st.chars, st.prev) + (ItemChars(items[0]) + ItemsChars(items[1..]));
    }
  }

  lemma NoItems()
    ensures PrintItems([]) == [] && [] + [RBRACKET] == [RBRACKET]
  {
  }

  lemma PlacedTail(items: seq<SetItem>, free: bool, next: bool)
    requires items != [] && MinusPlaced(items, free) && (items[0].Span? ==> next)
    ensures MinusPlaced(items[1..], next)
  {
  }

  lemma ItemStep(s: seq<Byte>, st: SetScan, i: SetItem, rest: seq<Byte>) returns (next: SetScan)
    requires ValidItem(i) && At(s, st.pos, PrintItem(i)) && At(s, st.pos + |PrintItem(i)|, rest) && rest != []
    requires FirstLetter(i) == BARE_MINUS ==> st.prev == 0 || (i.One? && rest == [RBRACKET])
    ensures i.Span? ==> next.prev == 0
    ensures SetBody(s, st) == SetBody(s, next)
    ensures next.pos == st.pos + |PrintItem(i)|
    ensures Flush(next.chars, next.prev) == Flush(st.chars, st.prev) + ItemChars(i)
  {
    hide *;
    if i.One? {
      next := OneStep(s, st, i, rest);
    } else {
      next := SpanStep(s, st, i, rest);
    }
  }

  lemma OneStep(s: seq<Byte>, st: SetScan, i: SetItem, rest: seq<Byte>) returns (next: SetScan)
    requires ValidItem(i) && i.One? && At(s, st.pos, PrintItem(i)) && At(s, st.pos + |PrintItem(i)|, rest)
    requires FirstLetter(i) == BARE_MINUS ==> st.prev == 0 || rest == [RBRACKET]
    ensures SetBody(s, st) == SetBody(s, next)
    ensures next.pos == st.pos + |PrintItem(i)|
    ensures Flush(next.chars, next.prev) == Flush(st.chars, st.prev) + ItemChars(i)
  {
    hide At, SetBody, PrintLetter;
    assert i.l == BARE_MINUS && st.prev != 0 ==> At(s, st.pos + 1, [RBRACKET]) by { OneLetter(); }
    next := LetterStep(s, st, i.l);
  }

  lemma SpanStep(s: seq<Byte>, st: SetScan, i: SetItem, rest: seq<Byte>) returns (next: SetScan)
    requires ValidItem(i) && i.Span? && At(s, st.pos, PrintItem(i)) && At(s, st.pos + |PrintItem(i)|, rest)
    requires rest != [] && (FirstLetter(i) == BARE_MINUS ==> st.prev == 0)
    ensures next.prev == 0
    ensures SetBody(s, st) == SetBody(s, next)
    ensures next.pos == st.pos + |PrintItem(i)|
    ensures Flush(next.chars, next.prev) == Flush(st.chars, st.prev) + ItemChars(i)
  {
    next := SpanReads(s, st, i.lo, i.hi, rest);
    hide At, SetBody, PrintLetter, PrintItem;
    assert ItemChars(i) == CharRange(i.lo.c, i.hi.c);
    hide CharRange, ItemChars, ValidItem;
  }

  lemma SpanReads(s: seq<Byte>, st: SetScan, lo: Letter, hi: Letter, rest: seq<Byte>) returns (next: SetScan)
    requires ValidItem(Span(lo, hi)) && At(s, st.pos, PrintItem(Span(lo, hi)))
    requires At(s, st.pos + |PrintItem(Span(lo, hi))|, rest)
    requires rest != [] && (lo == BARE_MINUS ==> st.prev == 0)
    ensures SetBody(s, st) == SetBody(s, next)
    ensures next == SetScan(Flush(st.chars, st.prev) + CharRange(lo.c, hi.c), 0, st.pos + |PrintItem(Span(lo, hi))|)
  {
    hide At, SetBody, PrintLetter, CharRange, PrintItem, Flush, Closed;
    SpanText(lo, hi);
    AtSplit(s, st.pos, PrintLetter(lo), [MINUS] + PrintLetter(hi));
    assert Closed([MINUS]) by { UnitsClosed(); }
    var mid := LetterStep(s, st, lo);
    AtSplit(s, mid.pos, [MINUS], PrintLetter(hi));
    next := RangeStep(s, mid, hi, rest);
  }

  lemma OneLetter()
    ensures |PrintLetter(BARE_MINUS)| == 1 && PrintItem(One(BARE_MINUS)) == PrintLetter(BARE_MINUS)
  {
  }

  lemma SpanText(lo: Letter, hi: Letter)
    requires (ValidInside(lo) || lo == BARE_MINUS) && (ValidInside(hi) || hi == BARE_MINUS)
    ensures PrintItem(Span(lo, hi)) == PrintLetter(lo) + ([MINUS] + PrintLetter(hi))
    ensures Closed(PrintLetter(lo)) && |PrintLetter(hi)| >= 1
  {
    LetterText(lo, RBRACKET);
  }

  lemma RangeStep(s: seq<Byte>, st: SetScan, hi: Letter, rest: seq<Byte>) returns (next: SetScan)
    requires (ValidInside(hi) || hi == BARE_MINUS) && st.prev != 0 && st.prev <= hi.c
    requires At(s, st.pos, [MINUS]) && At(s, st.pos + 1, PrintLetter(hi))
    requires At(s, st.pos + 1 + |PrintLetter(hi)|, rest) && rest != []
    ensures SetBody(s, st) == SetBody(s, next)
    ensures next == SetScan(st.chars + CharRange(st.prev, hi.c), 0, st.pos + 1 + |PrintLetter(hi)|)
  {
    CommandUnit(s, st.pos, MINUS, MINUS);
    CommandUnit(s, st.pos, MINUS, RBRACKET);
    NoLetterCommand(s, st.pos + 1, hi, RBRACKET);
    AtReads(s, st.pos + 1 + |PrintLetter(hi)|, rest);
    GetLetter(s, st.pos + 1, hi);
    hide At, Boundary, PrintLetter, IsCommandChar, CharRange, GetChar;
    next := SetScan(st.chars + CharRange(st.prev, hi.c), 0, st.pos + 1 + |PrintLetter(hi)|);
    assert SetStep(s, st) == Some(next);
  }

  lemma NoLetterCommand(s: seq<Byte>, pos: nat, l: Letter, x: Byte)
    requires At(s, pos, PrintLetter(l)) && x != BACKSLASH
    requires l.escaped || (l.c != x && l.c != BACKSLASH)
    ensures pos < |s| && !IsCommandChar(s, pos, x)
  {
    LetterText(l, x);
    CommandAt(s, pos, PrintLetter(l), 0, x);
  }

  /** A letter becomes the pending character; a bare minus sign does so only where it cannot
      mean a range. */
  lemma LetterStep(s: seq<Byte>, st: SetScan, l: Letter) returns (next: SetScan)
    requires (ValidInside(l) || l == BARE_MINUS) && At(s, st.pos, PrintLetter(l))
    requires l == BARE_MINUS ==> st.prev == 0 || At(s, st.pos + 1, [RBRACKET])
    ensures SetBody(s, st) == SetBody(s, next)
    ensures next == SetScan(Flush(st.chars, st.prev), l.c, st.pos + |PrintLetter(l)|)
  {
    NoLetterCommand(s, st.pos, l, RBRACKET);
    if l == BARE_MINUS {
      CommandUnit(s, st.pos, MINUS, MINUS);
      if st.prev != 0 { CommandUnit(s, st.pos + 1, RBRACKET, RBRACKET); }
    } else {
      NoLetterCommand(s, st.pos, l, MINUS);
    }
    GetLetter(s, st.pos, l);
    hide At, Boundary, IsCommandChar, GetChar;
    next := SetScan(Flush(st.chars, st.prev), l.c, st.pos + |PrintLetter(l)|);
    assert SetStep(s, st) == Some(next);
  }

  lemma BracketTextParts(neg: bool, items: seq<SetItem>)
    ensures PrintAtom(Bracket(neg, items)) == BracketOpen(neg) + (PrintItems(items) + [RBRACKET])
  {
    hide PrintItems;
  }

  lemma BracketText(neg: bool, items: seq<SetItem>)
    requires forall i | 0 <= i < |items| :: ValidItem(items[i])
    ensures Closed(BracketOpen(neg)) && Closed(PrintItems(items))
  {
    hide PrintItems;
    PlainText(BracketOpen(neg), CARET);
    ItemsText(items, RBRACKET);
  }

  lemma OpenCommands(neg: bool)
    ensures var o := BracketOpen(neg);
            && IsCommandChar(o, 0, LBRACKET) && (neg ==> IsCommandChar(o, 1, CARET))
            && |o| == if neg then 2 else 1
  {
    PlainText(BracketOpen(neg), LBRACKET);
    PlainText(BracketOpen(neg), CARET);
  }

  lemma BracketStart(s: seq<Byte>, pos: nat, neg: bool, items: seq<SetItem>)
    requires ValidItems(neg, items)
    requires At(s, pos, BracketOpen(neg)) && At(s, pos + |BracketOpen(neg)|, PrintItems(items) + [RBRACKET])
    ensures pos < |s| && IsCommandChar(s, pos, LBRACKET)
    ensures IsCommandChar(s, pos + 1, CARET) <==> neg
  {
    OpenCommands(neg);
    if !neg { BodyStart(items); }
    AtReads(s, pos, BracketOpen(neg));
    hide At, Boundary, IsCommandChar, PrintItems, ValidItem, BracketOpen;
    var o := BracketOpen(neg);
    CommandAt(s, pos, o, 0, LBRACKET);
    if neg {
      CommandAt(s, pos, o, 1, CARET);
    } else {
      CommandAt(s, pos + 1, PrintItems(items) + [RBRACKET], 0, CARET);
    }
  }

  lemma ScanBracket(s: seq<Byte>, pos: nat, neg: bool, items: seq<SetItem>)
    requires ValidItems(neg, items)
    requires At(s, pos, PrintAtom(Bracket(neg, items)))
    ensures ScanCharSet(s, pos) == Some((AtomChars(Bracket(neg, items)), pos + |PrintAtom(Bracket(neg, items))|))
  {
    hide At, Boundary, Closed, IsCommandChar, SetBody, PrintItems, PrintAtom, ItemsChars, Complement, SortBytes;
    hide ValidItem, MinusPlaced;
    BracketText(neg, items);
    BracketTextParts(neg, items);
    var start := pos + |BracketOpen(neg)|;
    AtSplit(s, pos, BracketOpen(neg), PrintItems(items) + [RBRACKET]);
    BracketStart(s, pos, neg, items);
    SetBodyReads(s, SetScan([], 0, start), items);
    AtSplit(s, start, PrintItems(items), [RBRACKET]);
    EmptySetBody(s, SetScan([], 0, start + |PrintItems(items)|));
    assert [] + ItemsChars(items) == ItemsChars(items);
  }

  lemma ScanSingle(s: seq<Byte>, pos: nat, l: Letter)
    requires ValidOutside(l) && At(s, pos, PrintLetter(l))
    ensures ScanCharSet(s, pos) == Some(([l.c], pos + |PrintLetter(l)|))
  {
    NoLetterCommand(s, pos, l, LBRACKET);
    GetLetter(s, pos, l);
    hide At, Boundary, IsCommandChar, GetChar, PrintLetter;
  }

  lemma ScanAtom(s: seq<Byte>, pos: nat, a: Atom)
    requires ValidAtom(a) && At(s, pos, PrintAtom(a))
    ensures ScanCharSet(s, pos) == Some((AtomChars(a), pos + |PrintAtom(a)|))
  {
    hide At, Boundary, ScanCharSet, PrintLetter, PrintItems, ItemsChars, Complement, SortBytes;
    match a
    case Single(l) => ScanSingle(s, pos, l);
    case Bracket(neg, items) => ScanBracket(s, pos, neg, items);
  }

  lemma BodyStart(items: seq<SetItem>)
    requires ValidItems(false, items)
    ensures !IsCommandChar(PrintItems(items) + [RBRACKET], 0, CARET)
  {
    if items != [] {
      var l := FirstLetter(items[0]);
      LetterText(l, CARET);
      assert (PrintItems(items) + [RBRACKET])[0] == PrintLetter(l)[0];
      assert !IsCommandChar(PrintLetter(l), 0, CARET);
    }
  }

  // -------------------------------------------------------- scanning counts

  lemma DigitPart(s: seq<Byte>, st: PartScan, c: Byte)
    requires IsDigit(c) && At(s, st.pos, [c])
    ensures PartBody(s, st) == PartBody(s, PartScan(st.part + [c], st.parts, st.pos + 1))
  {
    CommandUnit(s, st.pos, c, RBRACE);
    CommandUnit(s, st.pos, c, COMMA);
    GetLetter(s, st.pos, Letter(c, false));
    hide At, Boundary, IsCommandChar, GetChar;
    assert PartStep(s, st) == PartScan(st.part + [c], st.parts, st.pos + 1);
  }

  lemma DigitClosed(c: Byte)
    requires IsDigit(c)
    ensures Closed([c])
  {
    PlainText([c], c);
  }

  lemma {:induction false} PartReads(s: seq<Byte>, st: PartScan, u: seq<Byte>)
    requires AllDigits(u) && At(s, st.pos, u)
    ensures PartBody(s, st) == PartBody(s, PartScan(st.part + u, st.parts, st.pos + |u|))
    decreases |u|
  {
    hide At, Boundary, Closed, PartBody, IsDigit;
    if u == [] {
      assert st.part + u == st.part;
    } else {
      assert u == [u[0]] + u[1..];
      DigitClosed(u[0]);
      AtSplit(s, st.pos, [u[0]], u[1..]);
      DigitPart(s, st, u[0]);
      var next := PartScan(st.part + [u[0]], st.parts, st.pos + 1);
      PartReads(s, next, u[1..]);
      assert st.part + u == next.part + u[1..];
    }
  }

  lemma ScanNat(n: nat)
    ensures ScanInt(NatText(n)) == Some(n)
  {
    NatTextShape(n);
    DigitRunAll(NatText(n));
  }

  lemma EndBrace(s: seq<Byte>, st: PartScan)
    requires At(s, st.pos, [RBRACE])
    ensures PartBody(s, st) == st && IsCommandChar(s, st.pos, RBRACE)
  {
    CommandUnit(s, st.pos, RBRACE, RBRACE);
  }

  lemma CommaPart(s: seq<Byte>, st: PartScan)
    requires At(s, st.pos, [COMMA])
    ensures PartBody(s, st) == PartBody(s, PartScan([], st.parts + [st.part], st.pos + 1))
  {
    CommandUnit(s, st.pos, COMMA, RBRACE);
    CommandUnit(s, st.pos, COMMA, COMMA);
  }

  lemma NumberText(n: nat)
    ensures AllDigits(NatText(n)) && NatText(n) != [] && Closed(NatText(n))
  {
    NatTextShape(n);
    PlainText(NatText(n), RBRACE);
  }

  lemma ExactlyText(n: nat)
    ensures PrintCount(Exactly(n)) == [LBRACE] + (NatText(n) + [RBRACE])
  {
  }

  lemma BetweenText(lo: nat, hi: nat)
    ensures PrintCount(Between(lo, hi)) == [LBRACE] + (NatText(lo) + ([COMMA] + (NatText(hi) + [RBRACE])))
  {
  }

  lemma OneNumber(s: seq<Byte>, pos: nat, n: nat)
    requires At(s, pos, NatText(n)) && At(s, pos + |NatText(n)|, [RBRACE])
    ensures PartBody(s, PartScan([], [], pos)) == PartScan(NatText(n), [], pos + |NatText(n)|)
    ensures IsCommandChar(s, pos + |NatText(n)|, RBRACE)
  {
    hide *;
    NumberText(n);
    PartReads(s, PartScan([], [], pos), NatText(n));
    assert [] + NatText(n) == NatText(n);
    EndBrace(s, PartScan(NatText(n), [], pos + |NatText(n)|));
  }

  lemma TwoNumbers(s: seq<Byte>, pos: nat, lo: nat, hi: nat)
    requires At(s, pos, NatText(lo)) && At(s, pos + |NatText(lo)|, [COMMA])
    requires At(s, pos + |NatText(lo)| + 1, NatText(hi))
    requires At(s, pos + |NatText(lo)| + 1 + |NatText(hi)|, [RBRACE])
    ensures PartBody(s, PartScan([], [], pos))
         == PartScan(NatText(hi), [NatText(lo)], pos + |NatText(lo)| + 1 + |NatText(hi)|)
    ensures IsCommandChar(s, pos + |NatText(lo)| + 1 + |NatText(hi)|, RBRACE)
  {
    hide *;
    NumberText(lo);
    NumberText(hi);
    var mid := pos + |NatText(lo)|;
    PartReads(s, PartScan([], [], pos), NatText(lo));
    assert [] + NatText(lo) == NatText(lo) && [] + NatText(hi) == NatText(hi);
    CommaPart(s, PartScan(NatText(lo), [], mid));
    assert [] + [NatText(lo)] == [NatText(lo)];
    PartReads(s, PartScan([], [NatText(lo)], mid + 1), NatText(hi));
    EndBrace(s, PartScan(NatText(hi), [NatText(lo)], mid + 1 + |NatText(hi)|));
  }

  lemma ScanExactly(s: seq<Byte>, pos: nat, n: nat)
    requires At(s, pos, PrintCount(Exactly(n)))
    ensures ScanCounts(s, pos) == Some(Counts(n, n, pos + |PrintCount(Exactly(n))|))
  {
    hide At, Boundary, Closed, IsCommandChar, PartBody, NatText, ScanInt, PrintCount;
    ExactlyText(n);
    NumberText(n);
    UnitsClosed();
    ScanNat(n);
    AtSplit(s, pos, [LBRACE], NatText(n) + [RBRACE]);
    CommandUnit(s, pos, LBRACE, LBRACE);
    AtSplit(s, pos + 1, NatText(n), [RBRACE]);
    OneNumber(s, pos + 1, n);
    assert [] + [NatText(n)] == [NatText(n)];
  }

  lemma ScanBetween(s: seq<Byte>, pos: nat, lo: nat, hi: nat)
    requires lo <= hi && At(s, pos, PrintCount(Between(lo, hi)))
    ensures ScanCounts(s, pos) == Some(Counts(lo, hi, pos + |PrintCount(Between(lo, hi))|))
  {
    hide At, Boundary, Closed, IsCommandChar, PartBody, NatText, ScanInt, PrintCount;
    BetweenText(lo, hi);
    NumberText(lo);
    NumberText(hi);
    UnitsClosed();
    ScanNat(lo);
    ScanNat(hi);
    var tail := [COMMA] + (NatText(hi) + [RBRACE]);
    AtSplit(s, pos, [LBRACE], NatText(lo) + tail);
    CommandUnit(s, pos, LBRACE, LBRACE);
    AtSplit(s, pos + 1, NatText(lo), tail);
    AtSplit(s, pos + 1 + |NatText(lo)|, [COMMA], NatText(hi) + [RBRACE]);
    AtSplit(s, pos + 2 + |NatText(lo)|, NatText(hi), [RBRACE]);
    TwoNumbers(s, pos + 1, lo, hi);
    assert [NatText(lo)] + [NatText(hi)] == [NatText(lo), NatText(hi)];
  }

  ghost predicate CountStart(x: Byte) { x == LBRACE || x == QUESTION || x == STAR || x == Decimal.PLUS }

  lemma ScanCount(s: seq<Byte>, pos: nat, k: Count)
    requires ValidCount(k) && At(s, pos, PrintCount(k))
    requires k.Once? ==> forall x: Byte | CountStart(x) :: !IsCommandChar(s, pos, x)
    ensures ScanCounts(s, pos) == Some(Counts(CountFrom(k), CountTo(k), pos + |PrintCount(k)|))
  {
    match k
    case Once =>
      assert CountStart(LBRACE) && CountStart(QUESTION) && CountStart(STAR) && CountStart(Decimal.PLUS);
    case Exactly(n) => ScanExactly(s, pos, n);
    case Between(lo, hi) => ScanBetween(s, pos, lo, hi);
    case _ =>
      forall x: Byte ensures IsCommandChar(s, pos, x) <==> PrintCount(k)[0] == x {
        PlainText(PrintCount(k), x);
        CommandAt(s, pos, PrintCount(k), 0, x);
      }
  }

  /** What may follow an item is never read as a count. */
  lemma StartsNoCount(r: Regex, x: Byte)
    requires Valid(r) && !r.Choice? && CountStart(x)
    ensures Print(r) != [] && !IsCommandChar(Print(r), 0, x)
  {
    match r
    case Item(a, k, rest) =>
      if a.Single? { LetterText(a.l, x); assert !IsCommandChar(PrintLetter(a.l), 0, x); }
      assert Print(r)[0] == PrintAtom(a)[0];
    case Group(inner) =>
  }

  // ---------------------------------------------- parentheses and separators

  lemma {:induction false} SkipRange(s: seq<Byte>, i: nat, j: nat, st: TopScan)
    requires i <= j <= |s| && st.depth >= 0
    requires forall k | i <= k < j ::
               !IsCommandChar(s, k, LPAREN) && !IsCommandChar(s, k, RPAREN) && !IsCommandChar(s, k, PIPE)
    ensures TopLoop(s, i, st) == TopLoop(s, j, st)
    decreases j - i
  {
    hide IsCommandChar;
    if i < j { SkipRange(s, i + 1, j, st); }
  }

  lemma SkipQuiet(s: seq<Byte>, i: nat, u: seq<Byte>, st: TopScan)
    requires st.depth >= 0 && At(s, i, u)
    requires NoCommand(u, LPAREN) && NoCommand(u, RPAREN) && NoCommand(u, PIPE)
    ensures TopLoop(s, i, st) == TopLoop(s, i + |u|, st)
  {
    hide IsCommandChar, Boundary;
    forall j | i <= j < i + |u|
      ensures !IsCommandChar(s, j, LPAREN) && !IsCommandChar(s, j, RPAREN) && !IsCommandChar(s, j, PIPE)
    {
      CommandAt(s, i, u, j - i, LPAREN);
      CommandAt(s, i, u, j - i, RPAREN);
      CommandAt(s, i, u, j - i, PIPE);
    }
    SkipRange(s, i, i + |u|, st);
  }

  lemma HeadText(a: Atom, k: Count, x: Byte)
    requires ValidAtom(a) && Outer(x)
    ensures Closed(PrintAtom(a) + PrintCount(k)) && NoCommand(PrintAtom(a) + PrintCount(k), x)
    ensures Closed(PrintAtom(a)) && PrintAtom(a) != []
  {
    hide *;
    AtomText(a, x);
    CountText(k, x);
    ClosedConcat(PrintAtom(a), PrintCount(k));
    NoCommandConcat(PrintAtom(a), PrintCount(k), x);
  }

  lemma SkipItem(s: seq<Byte>, i: nat, a: Atom, k: Count, st: TopScan)
    requires ValidAtom(a) && st.depth >= 0 && At(s, i, PrintAtom(a) + PrintCount(k))
    ensures TopLoop(s, i, st) == TopLoop(s, i + |PrintAtom(a)| + |PrintCount(k)|, st)
  {
    hide *;
    UnitsClosed();
    HeadText(a, k, LPAREN);
    HeadText(a, k, RPAREN);
    HeadText(a, k, PIPE);
    SkipQuiet(s, i, PrintAtom(a) + PrintCount(k), st);
  }

  lemma CommandUnit(s: seq<Byte>, i: nat, c: Byte, x: Byte)
    requires c != BACKSLASH && At(s, i, [c])
    ensures i < |s| && (IsCommandChar(s, i, x) <==> c == x)
  {
    PlainText([c], x);
    CommandAt(s, i, [c], 0, x);
  }

  lemma OpenStep(s: seq<Byte>, i: nat, st: TopScan)
    requires At(s, i, [LPAREN])
    ensures TopLoop(s, i, st) == TopLoop(s, i + 1, st.(depth := st.depth + 1))
  {
    CommandUnit(s, i, LPAREN, LPAREN);
    hide IsCommandChar, At;
  }

  lemma CloseStep(s: seq<Byte>, i: nat, st: TopScan)
    requires At(s, i, [RPAREN])
    ensures TopLoop(s, i, st) == TopLoop(s, i + 1, st.(depth := st.depth - 1,
              firstClose := if st.depth == 1 && st.firstClose == -1 then i else st.firstClose))
  {
    CommandUnit(s, i, RPAREN, RPAREN);
    CommandUnit(s, i, RPAREN, LPAREN);
    hide IsCommandChar, At;
  }

  lemma BarStep(s: seq<Byte>, i: nat, st: TopScan)
    requires At(s, i, [PIPE]) && st.depth >= 0
    ensures TopLoop(s, i, st) == TopLoop(s, i + 1, if st.depth == 0 then st.(seps := st.seps + [i]) else st)
  {
    CommandUnit(s, i, PIPE, PIPE);
    CommandUnit(s, i, PIPE, LPAREN);
    CommandUnit(s, i, PIPE, RPAREN);
    hide IsCommandChar, At;
  }

  lemma UnitsClosed()
    ensures Closed([LPAREN]) && Closed([RPAREN]) && Closed([PIPE])
    ensures Closed([RBRACKET]) && Closed([LBRACE]) && Closed([COMMA]) && Closed([MINUS])
    ensures Outer(LPAREN) && Outer(RPAREN) && Outer(PIPE) && Outer(SPACE)
  {
  }

  lemma GroupText(inner: Regex)
    ensures Print(Group(inner)) == [LPAREN] + (Print(inner) + [RPAREN])
  {
  }

  /** Splits "(" inner ")" at a position. */
  lemma GroupParts(s: seq<Byte>, i: nat, inner: Regex)
    requires Valid(inner) && At(s, i, Print(Group(inner)))
    ensures At(s, i, [LPAREN]) && At(s, i + 1, Print(inner)) && At(s, i + 1 + |Print(inner)|, [RPAREN])
    ensures |Print(Group(inner))| == |Print(inner)| + 2
  {
    hide *;
    UnitsClosed();
    GroupText(inner);
    PrintClosed(inner);
    AtSplit(s, i, [LPAREN], Print(inner) + [RPAREN]);
    AtSplit(s, i + 1, Print(inner), [RPAREN]);
  }

  function RestText(rest: Tail): seq<Byte> { if rest.End? then [] else Print(rest.next) }

  lemma ItemTextParts(r: Regex)
    requires r.Item?
    ensures Print(r) == (PrintAtom(r.atom) + PrintCount(r.count)) + RestText(r.rest)
  {
  }

  lemma ItemParts(s: seq<Byte>, i: nat, r: Regex)
    requires r.Item? && ValidAtom(r.atom) && At(s, i, Print(r))
    ensures At(s, i, PrintAtom(r.atom) + PrintCount(r.count))
    ensures At(s, i, PrintAtom(r.atom)) && At(s, i + |PrintAtom(r.atom)|, PrintCount(r.count))
    ensures At(s, i + |PrintAtom(r.atom)| + |PrintCount(r.count)|, RestText(r.rest))
    ensures |Print(r)| == |PrintAtom(r.atom)| + |PrintCount(r.count)| + |RestText(r.rest)|
  {
    hide *;
    UnitsClosed();
    HeadText(r.atom, r.count, SPACE);
    ItemTextParts(r);
    AtSplit(s, i, PrintAtom(r.atom) + PrintCount(r.count), RestText(r.rest));
    AtSplit(s, i, PrintAtom(r.atom), PrintCount(r.count));
  }

  lemma AlternativesText(alts: seq<Regex>)
    requires |alts| > 1
    ensures PrintAlternatives(alts) == Print(alts[0]) + ([PIPE] + PrintAlternatives(alts[1..]))
  {
  }

  lemma AlternativeParts(s: seq<Byte>, i: nat, alts: seq<Regex>)
    requires |alts| > 1 && Valid(alts[0]) && At(s, i, PrintAlternatives(alts))
    ensures At(s, i, Print(alts[0])) && At(s, i + |Print(alts[0])|, [PIPE])
    ensures At(s, i + |Print(alts[0])| + 1, PrintAlternatives(alts[1..]))
    ensures |PrintAlternatives(alts)| == |Print(alts[0])| + 1 + |PrintAlternatives(alts[1..])|
  {
    hide *;
    UnitsClosed();
    PrintClosed(alts[0]);
    AlternativesText(alts);
    AtSplit(s, i, Print(alts[0]), [PIPE] + PrintAlternatives(alts[1..]));
    AtSplit(s, i + |Print(alts[0])|, [PIPE], PrintAlternatives(alts[1..]));
  }

  /** Inside parentheses an expression leaves the scan as it found it. */
  lemma {:induction false} SkipNested(s: seq<Byte>, i: nat, r: Regex, st: TopScan)
    requires Valid(r) && st.depth >= 1 && At(s, i, Print(r))
    ensures TopLoop(s, i, st) == TopLoop(s, i + |Print(r)|, st)
    decreases r
  {
    hide At, Boundary, Closed, NoCommand, IsCommandChar, TopLoop, PrintAtom, PrintCount, ValidAtom;
    match r
    case Item(a, k, rest) =>
      ItemParts(s, i, r);
      SkipItem(s, i, a, k, st);
      if rest.Then? { SkipNested(s, i + |PrintAtom(a)| + |PrintCount(k)|, rest.next, st); }
    case Choice(alts) => SkipNestedAll(s, i, alts, st);
    case Group(inner) =>
      GroupParts(s, i, inner);
      OpenStep(s, i, st);
      SkipNested(s, i + 1, inner, st.(depth := st.depth + 1));
      CloseStep(s, i + 1 + |Print(inner)|, st.(depth := st.depth + 1));
  }

  lemma {:induction false} SkipNestedAll(s: seq<Byte>, i: nat, alts: seq<Regex>, st: TopScan)
    requires |alts| >= 1 && (forall k | 0 <= k < |alts| :: Valid(alts[k]))
    requires st.depth >= 1 && At(s, i, PrintAlternatives(alts))
    ensures TopLoop(s, i, st) == TopLoop(s, i + |PrintAlternatives(alts)|, st)
    decreases alts
  {
    hide At, Boundary, Closed, NoCommand, IsCommandChar, TopLoop, Print, Valid;
    if |alts| == 1 {
      SkipNested(s, i, alts[0], st);
    } else {
      AlternativeParts(s, i, alts);
      SkipNested(s, i, alts[0], st);
      var j := i + |Print(alts[0])|;
      BarStep(s, j, st);
      SkipNestedAll(s, j + 1, alts[1..], st);
    }
  }

  predicate EndsInGroup(r: Regex) {
    match r
    case Item(_, _, rest) => rest.Then? && EndsInGroup(rest.next)
    case Choice(_) => false
    case Group(_) => true
  }

  function Closing(st: TopScan, r: Regex, end: int): TopScan {
    if st.firstClose == -1 && EndsInGroup(r) then st.(firstClose := end - 1) else st
  }

  /** At top level only a final group is noticed. */
  lemma {:induction false} SkipTop(s: seq<Byte>, i: nat, r: Regex, st: TopScan)
    requires Valid(r) && !r.Choice? && st.depth == 0 && At(s, i, Print(r))
    ensures TopLoop(s, i, st) == TopLoop(s, i + |Print(r)|, Closing(st, r, i + |Print(r)|))
    decreases r
  {
    hide At, Boundary, Closed, NoCommand, IsCommandChar, TopLoop, PrintAtom, PrintCount, ValidAtom;
    match r
    case Item(a, k, rest) =>
      ItemParts(s, i, r);
      SkipItem(s, i, a, k, st);
      if rest.Then? { SkipTop(s, i + |PrintAtom(a)| + |PrintCount(k)|, rest.next, st); }
    case Group(inner) =>
      GroupParts(s, i, inner);
      OpenStep(s, i, st);
      SkipNested(s, i + 1, inner, st.(depth := 1));
      CloseStep(s, i + 1 + |Print(inner)|, st.(depth := 1));
  }

  /** Where the bars of a printed choice stand. */
  function Bars(alts: seq<Regex>, i: nat): (r: seq<nat>)
    ensures |alts| >= 1 ==> |r| == |alts| - 1
    ensures forall k | 0 <= k < |r| :: r[k] >= i
    decreases alts
  {
    if |alts| <= 1 then [] else [i + |Print(alts[0])|] + Bars(alts[1..], i + |Print(alts[0])| + 1)
  }

  lemma {:induction false} SkipAlternatives(s: seq<Byte>, i: nat, alts: seq<Regex>, st: TopScan)
    requires |alts| >= 1 && (forall k | 0 <= k < |alts| :: Valid(alts[k]) && !alts[k].Choice?)
    requires st.depth == 0 && At(s, i, PrintAlternatives(alts)) && i + |PrintAlternatives(alts)| == |s|
    ensures var r := TopLoop(s, i, st);
            r.Some? && r.value.depth == 0 && r.value.seps == st.seps + Bars(alts, i)
    decreases alts
  {
    hide At, Boundary, Closed, NoCommand, IsCommandChar, Print, Valid;
    if |alts| == 1 {
      SkipTop(s, i, alts[0], st);
      assert st.seps + [] == st.seps;
    } else {
      var j := i + |Print(alts[0])|;
      var next := SkipFirst(s, i, alts, st);
      hide TopLoop, PrintAlternatives;
      SkipAlternatives(s, j + 1, alts[1..], next);
      assert (st.seps + [j]) + Bars(alts[1..], j + 1) == st.seps + ([j] + Bars(alts[1..], j + 1));
    }
  }

  /** The first alternative and the bar behind it. */
  lemma SkipFirst(s: seq<Byte>, i: nat, alts: seq<Regex>, st: TopScan) returns (next: TopScan)
    requires |alts| >= 2 && (forall k | 0 <= k < |alts| :: Valid(alts[k]) && !alts[k].Choice?)
    requires st.depth == 0 && At(s, i, PrintAlternatives(alts)) && i + |PrintAlternatives(alts)| == |s|
    ensures var j := i + |Print(alts[0])|;
      && TopLoop(s, i, st) == TopLoop(s, j + 1, next) && next.depth == 0 && next.seps == st.seps + [j]
      && At(s, j + 1, PrintAlternatives(alts[1..])) && j + 1 + |PrintAlternatives(alts[1..])| == |s|
  {
    hide At, Boundary, Closed, NoCommand, IsCommandChar, Print, Valid, TopLoop;
    AlternativeParts(s, i, alts);
    SkipTop(s, i, alts[0], st);
    var j := i + |Print(alts[0])|;
    var st' := Closing(st, alts[0], j);
    BarStep(s, j, st');
    next := st'.(seps := st'.seps + [j]);
  }

  function Texts(alts: seq<Regex>): (r: seq<seq<Byte>>)
    ensures |r| == |alts|
  {
    if alts == [] then [] else [Print(alts[0])] + Texts(alts[1..])
  }

  lemma AtReads(s: seq<Byte>, i: nat, u: seq<Byte>)
    requires At(s, i, u)
    ensures i + |u| <= |s| && s[i..i + |u|] == u
  {
  }

  lemma LastPiece(s: seq<Byte>, i: nat, alts: seq<Regex>)
    requires |alts| == 1 && At(s, i, PrintAlternatives(alts)) && i + |PrintAlternatives(alts)| == |s|
    ensures Ascending(Bars(alts, i), |s|) && Pieces(s, Bars(alts, i), i) == Texts(alts)
  {
    AtReads(s, i, PrintAlternatives(alts));
    hide At, Boundary, Print;
    assert s[i..] == s[i..i + |PrintAlternatives(alts)|];
    assert alts[1..] == [];
    assert Texts(alts) == [Print(alts[0])];
  }

  lemma FirstPiece(s: seq<Byte>, i: nat, j: nat, bars: seq<nat>)
    requires i <= j < |s| && Ascending(bars, |s|) && (forall k | 0 <= k < |bars| :: j + 1 <= bars[k])
    ensures Ascending([j] + bars, |s|)
    ensures Pieces(s, [j] + bars, i) == [s[i..j]] + Pieces(s, bars, j + 1)
  {
    var all := [j] + bars;
    assert Ascending(all, |s|) by {
      forall k, m | 0 <= k < m < |all| ensures all[k] < all[m] { assert all[m] == bars[m - 1]; }
    }
    hide Ascending;
    assert all[1..] == bars;
  }

  lemma MoreTexts(alts: seq<Regex>)
    requires |alts| > 1
    ensures Texts(alts) == [Print(alts[0])] + Texts(alts[1..])
  {
  }

  lemma {:induction false} PiecesAreTexts(s: seq<Byte>, i: nat, alts: seq<Regex>)
    requires |alts| >= 1 && (forall k | 0 <= k < |alts| :: Valid(alts[k]))
    requires At(s, i, PrintAlternatives(alts)) && i + |PrintAlternatives(alts)| == |s|
    ensures Ascending(Bars(alts, i), |s|)
    ensures Pieces(s, Bars(alts, i), i) == Texts(alts)
    decreases alts
  {
    hide At, Boundary, Closed, NoCommand, IsCommandChar, Print, Valid;
    if |alts| == 1 {
      LastPiece(s, i, alts);
    } else {
      AlternativeParts(s, i, alts);
      var j := i + |Print(alts[0])|;
      AtReads(s, i, Print(alts[0]));
      AtReads(s, j, [PIPE]);
      PiecesAreTexts(s, j + 1, alts[1..]);
      hide PrintAlternatives, Texts;
      var bars := Bars(alts[1..], j + 1);
      assert Bars(alts, i) == [j] + bars;
      FirstPiece(s, i, j, bars);
      MoreTexts(alts);
    }
  }

  // ------------------------------------------------------------ the theorem

  lemma StrippedIsAll(r: Regex)
    requires Valid(r)
    ensures Parse(Print(r)) == ParseStripped(Print(r))
  {
    PrintClosed(r);
    StripNothing(Print(r), 0);
    assert Print(r)[0..] == Print(r);
    hide Print, ParseStripped;
  }

  /** Compiling the text of a valid expression yields exactly its tree: no
      character, set, count, alternative or group is misread. */
  lemma {:induction false} ParsePrint(r: Regex)
    requires Valid(r)
    ensures Parse(Print(r)) == Some(Denote(r))
    decreases r, 1
  {
    hide Parse, ParseStripped, Print;
    StrippedIsAll(r);
    match r
    case Item(a, k, rest) => ParseItem(r);
    case Choice(alts) => ParseChoice(alts);
    case Group(inner) => ParseGroup(inner);
  }

  lemma ChoiceScan(alts: seq<Regex>)
    requires Valid(Choice(alts))
    ensures var s := Print(Choice(alts));
            var top := TopLoop(s, 0, TopScan(0, -1, []));
            && s == PrintAlternatives(alts)
            && top.Some? && top.value.depth == 0 && top.value.seps == Bars(alts, 0)
            && Ascending(Bars(alts, 0), |s|) && Pieces(s, Bars(alts, 0), 0) == Texts(alts)
  {
    hide At, Boundary, TopLoop, Bars, Pieces, Texts, PrintAlternatives;
    var s := PrintAlternatives(alts);
    AtSelf(s);
    SkipAlternatives(s, 0, alts, TopScan(0, -1, []));
    assert [] + Bars(alts, 0) == Bars(alts, 0);
    PiecesAreTexts(s, 0, alts);
  }

  lemma {:induction false} ParseChoice(alts: seq<Regex>)
    requires Valid(Choice(alts))
    ensures ParseStripped(Print(Choice(alts))) == Some(Denote(Choice(alts)))
    decreases alts, 1
  {
    hide Print, TopLoop, Pieces, Texts, Bars, Ascending, Parse, ParseAll, DenoteAll;
    hide IsCommandChar, ScanCharSet, ScanCounts;
    ChoiceScan(alts);
    ParseTexts(alts, |Print(Choice(alts))|);
    assert |Bars(alts, 0)| == |alts| - 1;
  }

  lemma GroupScan(inner: Regex)
    requires Valid(inner)
    ensures var s := Print(Group(inner));
            && |s| == |Print(inner)| + 2
            && TopLoop(s, 0, TopScan(0, -1, [])) == Some(TopScan(0, |s| - 1, []))
            && IsCommandChar(s, 0, LPAREN) && IsCommandChar(s, |s| - 1, RPAREN)
            && s[1..|s| - 1] == Print(inner)
  {
    hide At, Boundary, Print, IsCommandChar;
    var s := Print(Group(inner));
    AtSelf(s);
    GroupParts(s, 0, inner);
    SkipTop(s, 0, Group(inner), TopScan(0, -1, []));
    CommandUnit(s, 0, LPAREN, LPAREN);
    CommandUnit(s, |s| - 1, RPAREN, RPAREN);
    GroupText(inner);
    assert s[1..|s| - 1] == Print(inner);
  }

  lemma {:induction false} ParseGroup(inner: Regex)
    requires Valid(inner)
    ensures ParseStripped(Print(Group(inner))) == Some(Denote(Group(inner)))
    decreases inner, 2
  {
    hide Print, TopLoop, Parse, IsCommandChar, ScanCharSet, ScanCounts, Pieces, ParseAll;
    GroupScan(inner);
    ParsePrint(inner);
  }

  /** What the constructor's scans see in the text of an item. */
  lemma ItemTop(r: Regex)
    requires Valid(r) && r.Item?
    ensures TopLoop(Print(r), 0, TopScan(0, -1, [])) == Some(Closing(TopScan(0, -1, []), r, |Print(r)|))
  {
    AtSelf(Print(r));
    hide At, Boundary, Print, TopLoop, Valid, EndsInGroup;
    SkipTop(Print(r), 0, r, TopScan(0, -1, []));
    EndLoop(Print(r), Closing(TopScan(0, -1, []), r, |Print(r)|));
  }

  lemma ItemHead(r: Regex)
    requires Valid(r) && r.Item?
    ensures var s := Print(r);
            var pos := |PrintAtom(r.atom)|;
            && !IsCommandChar(s, 0, LPAREN)
            && ScanCharSet(s, 0) == Some((AtomChars(r.atom), pos))
            && ScanCounts(s, pos) == Some(Counts(CountFrom(r.count), CountTo(r.count), pos + |PrintCount(r.count)|))
  {
    hide At, Boundary, Closed, NoCommand, Print, IsCommandChar, TopLoop, ScanCharSet, ScanCounts,
      PrintAtom, PrintCount, AtomChars, CountFrom, CountTo, CountStart, ValidAtom, ValidCount;
    var s := Print(r);
    AtSelf(s);
    ItemParts(s, 0, r);
    NotAtomCommand(s, r.atom);
    ScanAtom(s, 0, r.atom);
    NotCountCommand(s, |PrintAtom(r.atom)|, r.count, r.rest);
    ScanCount(s, |PrintAtom(r.atom)|, r.count);
  }

  lemma ItemRest(r: Regex)
    requires Valid(r) && r.Item?
    ensures var end := |PrintAtom(r.atom)| + |PrintCount(r.count)|;
            end + |RestText(r.rest)| == |Print(r)| && Print(r)[end..] == RestText(r.rest)
  {
    hide PrintAtom, PrintCount, Print, RestText;
    ItemTextParts(r);
  }

  lemma EndLoop(s: seq<Byte>, st: TopScan)
    ensures TopLoop(s, |s|, st) == Some(st)
  {
  }

  lemma NotAtomCommand(s: seq<Byte>, a: Atom)
    requires ValidAtom(a) && At(s, 0, PrintAtom(a))
    ensures !IsCommandChar(s, 0, LPAREN)
  {
    hide PrintAtom, At, ValidAtom;
    AtomText(a, LPAREN);
    CommandAt(s, 0, PrintAtom(a), 0, LPAREN);
  }

  lemma NotCountCommand(s: seq<Byte>, pos: nat, k: Count, rest: Tail)
    requires rest.Then? ==> Valid(rest.next) && !rest.next.Choice?
    requires At(s, pos, PrintCount(k)) && At(s, pos + |PrintCount(k)|, RestText(rest))
    requires rest.End? ==> pos + |PrintCount(k)| == |s|
    ensures k.Once? ==> forall x: Byte | CountStart(x) :: !IsCommandChar(s, pos, x)
  {
    hide At, Boundary, Print, Valid, CountStart, Slashes;
    if k.Once? && rest.Then? {
      forall x: Byte | CountStart(x) ensures !IsCommandChar(s, pos, x) {
        StartsNoCount(rest.next, x);
        CommandAt(s, pos, Print(rest.next), 0, x);
      }
    }
  }

  lemma {:induction false} ParseItem(r: Regex)
    requires Valid(r) && r.Item?
    ensures ParseStripped(Print(r)) == Some(Denote(r))
    decreases r, 0
  {
    hide Print, TopLoop, Parse, IsCommandChar, ScanCharSet, ScanCounts, Pieces, ParseAll, PrintAtom, PrintCount,
      AtomChars, EndsInGroup;
    ItemTop(r);
    ItemHead(r);
    ItemRest(r);
    if r.rest.Then? {
      PrintNonEmpty(r.rest.next);
      ParsePrint(r.rest.next);
    }
  }

  lemma PrintNonEmpty(r: Regex)
    requires Valid(r)
    ensures Print(r) != []
  {
    PrintClosed(r);
  }

  lemma {:induction false} ParseTexts(alts: seq<Regex>, bound: nat)
    requires forall k | 0 <= k < |alts| :: Valid(alts[k])
    requires forall k | 0 <= k < |alts| :: |Texts(alts)[k]| < bound
    ensures ParseAll(Texts(alts), bound) == Some(DenoteAll(alts))
    decreases alts, 0
  {
    hide Print, Parse, Valid, Denote;
    if alts != [] {
      ParsePrint(alts[0]);
      assert Texts(alts)[1..] == Texts(alts[1..]);
      forall k | 0 <= k < |alts[1..]| ensures |Texts(alts[1..])[k]| < bound {
        assert Texts(alts[1..])[k] == Texts(alts)[k + 1];
      }
      ParseTexts(alts[1..], bound);
    }
  }

  /** From text to verdict: a compiled expression accepts only what it means, and
      accepts all of it when its tree is follow-disjoint. */
  lemma CompiledMatchesMeaning(r: Regex, w: seq<Byte>)
    requires Valid(r) && |w| <= INT_MAX
    ensures Parse(Print(r)).Some?
    ensures Matches(Parse(Print(r)).value, w) ==> InRegex(r, w)
    ensures FollowDisjoint(Parse(Print(r)).value) ==> (Matches(Parse(Print(r)).value, w) <==> InRegex(r, w))
  {
    ParsePrint(r);
    ParseWellFormed(Print(r));
    DenoteMeans(r, w);
    if Matches(Denote(r), w) { MatchSound(Denote(r), w); }
    if FollowDisjoint(Denote(r)) { FollowDisjointExact(Denote(r)); }
  }
}
