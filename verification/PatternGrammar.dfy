/** The documented pattern grammar as syntax trees, their text, their meaning,
    and the proof that compiling the text yields the intended tree
    (support/testlib.h:662-696, 1393-1585). */
module PatternGrammar {
  import opened Bytes
  import opened Decimal
  import opened PatternTree
  import opened PatternParser

  /** One character of the text, written bare or after a backslash. */
  datatype Letter = Letter(c: Byte, escaped: bool)

  datatype SetItem = One(l: Letter) | Span(lo: Letter, hi: Letter)

  datatype Atom = Single(l: Letter) | Bracket(negated: bool, items: seq<SetItem>)

  datatype Count = Once | Optional | Star | Plus | Exactly(n: nat) | Between(lo: nat, hi: nat)

  /** A group may only end a sequence: the engine has no other place for it. */
  datatype Regex =
    | Item(atom: Atom, count: Count, rest: Tail)
    | Choice(alternatives: seq<Regex>)
    | Group(inner: Regex)

  datatype Tail = End | Then(next: Regex)

  // ------------------------------------------------------------- validity

  /** The characters that steer the scan of a sequence. */
  predicate IsSpecial(c: Byte) {
    || c == BACKSLASH || c == SPACE || c == LPAREN || c == RPAREN || c == PIPE
    || c == LBRACKET || c == LBRACE || c == QUESTION || c == STAR || c == Decimal.PLUS
  }

  predicate ValidOutside(l: Letter) { l.escaped || !IsSpecial(l.c) }

  /** In a bracket counts and further opening brackets are plain characters. */
  predicate ValidInside(l: Letter) {
    l.escaped ||
    !(l.c == BACKSLASH || l.c == SPACE || l.c == LPAREN || l.c == RPAREN || l.c == PIPE
      || l.c == RBRACKET || l.c == MINUS)
  }

  const BARE_MINUS: Letter := Letter(MINUS, false)

  const BARE_CARET: Letter := Letter(CARET, false)

  /** NUL marks "no pending character" in the scan of a set, so it cannot be listed or start a range. */
  predicate ValidItem(i: SetItem) {
    match i
    case One(l) => (ValidInside(l) || l == BARE_MINUS) && l.c != 0
    case Span(lo, hi) =>
      && (ValidInside(lo) || lo == BARE_MINUS) && (ValidInside(hi) || hi == BARE_MINUS)
      && lo.c != 0 && lo.c <= hi.c
  }

  function FirstLetter(i: SetItem): Letter {
    match i
    case One(l) => l
    case Span(lo, _) => lo
  }

  /** A bare minus sign may stand where no range can be meant: first in the bracket, behind a
      range (`free`), or last in the bracket. */
  predicate MinusPlaced(items: seq<SetItem>, free: bool) {
    items == [] ||
    (&& (FirstLetter(items[0]) == BARE_MINUS ==> free || (|items| == 1 && items[0].One?))
     && MinusPlaced(items[1..], items[0].Span?))
  }

  /** The items of a bracket; a bare caret in front would negate it. */
  predicate ValidItems(negated: bool, items: seq<SetItem>) {
    && (forall i | 0 <= i < |items| :: ValidItem(items[i]))
    && MinusPlaced(items, true)
    && (!negated && items != [] ==> FirstLetter(items[0]) != BARE_CARET)
  }

  predicate ValidAtom(a: Atom) {
    match a
    case Single(l) => ValidOutside(l)
    case Bracket(negated, items) => ValidItems(negated, items)
  }

  predicate ValidCount(k: Count) {
    match k
    case Exactly(n) => n <= INT_MAX
    case Between(lo, hi) => lo <= hi <= INT_MAX
    case _ => true
  }

  predicate Valid(r: Regex) {
    match r
    case Item(a, k, rest) => ValidAtom(a) && ValidCount(k) && (rest.Then? ==> !rest.next.Choice? && Valid(rest.next))
    case Choice(alts) => |alts| >= 2 && forall i | 0 <= i < |alts| :: !alts[i].Choice? && Valid(alts[i])
    case Group(inner) => Valid(inner)
  }

  // ----------------------------------------------------------------- text

  function PrintLetter(l: Letter): seq<Byte> {
    if l.escaped then [BACKSLASH, l.c] else [l.c]
  }

  function PrintItem(i: SetItem): seq<Byte> {
    match i
    case One(l) => PrintLetter(l)
    case Span(lo, hi) => PrintLetter(lo) + [MINUS] + PrintLetter(hi)
  }

  function PrintItems(items: seq<SetItem>): seq<Byte> {
    if items == [] then [] else PrintItem(items[0]) + PrintItems(items[1..])
  }

  function PrintAtom(a: Atom): seq<Byte> {
    match a
    case Single(l) => PrintLetter(l)
    case Bracket(neg, items) => [LBRACKET] + (if neg then [CARET] else []) + PrintItems(items) + [RBRACKET]
  }

  function PrintCount(k: Count): seq<Byte> {
    match k
    case Once => []
    case Optional => [QUESTION]
    case Star => [STAR]
    case Plus => [Decimal.PLUS]
    case Exactly(n) => [LBRACE] + NatText(n) + [RBRACE]
    case Between(lo, hi) => [LBRACE] + NatText(lo) + [COMMA] + NatText(hi) + [RBRACE]
  }

  function Print(r: Regex): seq<Byte>
    decreases r
  {
    match r
    case Item(a, k, rest) => PrintAtom(a) + PrintCount(k) + (if rest.End? then [] else Print(rest.next))
    case Choice(alts) => PrintAlternatives(alts)
    case Group(inner) => [LPAREN] + Print(inner) + [RPAREN]
  }

  function PrintAlternatives(alts: seq<Regex>): seq<Byte>
    decreases alts
  {
    if alts == [] then []
    else if |alts| == 1 then Print(alts[0])
    else Print(alts[0]) + [PIPE] + PrintAlternatives(alts[1..])
  }

  // -------------------------------------------------------------- meaning

  predicate Covers(i: SetItem, c: Byte) {
    match i
    case One(l) => c == l.c
    case Span(lo, hi) => lo.c <= c <= hi.c
  }

  /** A negated set admits every other byte but 0xFF. */
  predicate Admits(a: Atom, c: Byte) {
    match a
    case Single(l) => c == l.c
    case Bracket(neg, items) =>
      var listed := exists i | 0 <= i < |items| :: Covers(items[i], c);
      if neg then !listed && c != -1 else listed
  }

  predicate HasCount(k: Count, n: nat) {
    match k
    case Once => n == 1
    case Optional => n <= 1
    case Star => true
    case Plus => n >= 1
    case Exactly(m) => n == m
    case Between(lo, hi) => lo <= n <= hi
  }

  ghost predicate ItemSplits(a: Atom, k: Count, rest: Tail, w: seq<Byte>, n: nat)
    requires n <= |w|
    decreases rest, 0
  {
    && HasCount(k, n)
    && (forall i | 0 <= i < n :: Admits(a, w[i]))
    && (if rest.End? then n == |w| else InRegex(rest.next, w[n..]))
  }

  /** What the expression means, said without trees or greediness. */
  ghost predicate InRegex(r: Regex, w: seq<Byte>)
    decreases r, 1
  {
    match r
    case Item(a, k, rest) => exists n: nat | n <= |w| :: ItemSplits(a, k, rest, w, n)
    case Choice(alts) => exists i | 0 <= i < |alts| :: InRegex(alts[i], w)
    case Group(inner) => InRegex(inner, w)
  }

  // -------------------------------------------------------- intended tree

  function ItemChars(i: SetItem): seq<Byte>
    requires ValidItem(i)
  {
    match i
    case One(l) => [l.c]
    case Span(lo, hi) => CharRange(lo.c, hi.c)
  }

  function ItemsChars(items: seq<SetItem>): seq<Byte>
    requires forall i | 0 <= i < |items| :: ValidItem(items[i])
  {
    if items == [] then [] else ItemChars(items[0]) + ItemsChars(items[1..])
  }

  function AtomChars(a: Atom): seq<Byte>
    requires ValidAtom(a)
  {
    match a
    case Single(l) => [l.c]
    case Bracket(neg, items) => if neg then Complement(ItemsChars(items)) else SortBytes(ItemsChars(items))
  }

  function CountFrom(k: Count): int {
    match k
    case Once => 1
    case Optional => 0
    case Star => 0
    case Plus => 1
    case Exactly(n) => n
    case Between(lo, _) => lo
  }

  function CountTo(k: Count): int {
    match k
    case Once => 1
    case Optional => 1
    case Star => INT_MAX
    case Plus => INT_MAX
    case Exactly(n) => n
    case Between(_, hi) => hi
  }

  function Denote(r: Regex): Pattern
    requires Valid(r)
    decreases r
  {
    match r
    case Item(a, k, rest) =>
      Node(AtomChars(a), CountFrom(k), CountTo(k), if rest.End? then [] else [Denote(rest.next)])
    case Choice(alts) => Node([], 0, 0, DenoteAll(alts))
    case Group(inner) => Node([], 0, 0, [Denote(inner)])
  }

  function DenoteAll(alts: seq<Regex>): (r: seq<Pattern>)
    requires forall i | 0 <= i < |alts| :: Valid(alts[i])
    ensures |r| == |alts|
    ensures forall i | 0 <= i < |alts| :: r[i] == Denote(alts[i])
    decreases alts
  {
    if alts == [] then [] else [Denote(alts[0])] + DenoteAll(alts[1..])
  }

  // ------------------------------------------------- tree language = meaning

  lemma {:induction false} ItemsCharsMembers(items: seq<SetItem>, c: Byte)
    requires forall i | 0 <= i < |items| :: ValidItem(items[i])
    ensures c in ItemsChars(items) <==> exists i | 0 <= i < |items| :: Covers(items[i], c)
  {
    if items != [] {
      ItemsCharsMembers(items[1..], c);
      assert c in ItemChars(items[0]) <==> Covers(items[0], c) by {
        if Covers(items[0], c) && items[0].Span? {
          assert CharRange(items[0].lo.c, items[0].hi.c)[c as int - items[0].lo.c as int] == c;
        }
      }
      if i :| 0 <= i < |items| && Covers(items[i], c) {
        if i > 0 { assert Covers(items[1..][i - 1], c); }
      }
      if j :| 0 <= j < |items[1..]| && Covers(items[1..][j], c) { assert Covers(items[j + 1], c); }
    }
  }

  lemma {:induction false} ComplementBelowMembers(chars: seq<Byte>, code: nat, c: Byte)
    requires code <= 255 && Sorted(chars)
    ensures c in ComplementBelow(chars, code) <==>
            c !in chars && (if c >= 0 then c as int < code else c as int + 256 < code)
  {
    if code > 0 {
      ComplementBelowMembers(chars, code - 1, c);
      BinarySearchExact(chars, CodeChar(code - 1));
    }
  }

  lemma SortBytesMembers(chars: seq<Byte>, c: Byte)
    ensures c in SortBytes(chars) <==> c in chars
  {
    SameMembers(SortBytes(chars), chars, c);
  }

  /** Negation by trying the codes 0..254 leaves exactly the unlisted bytes other than 0xFF. */
  lemma AtomCharsMembers(a: Atom, c: Byte)
    requires ValidAtom(a)
    ensures c in AtomChars(a) <==> Admits(a, c)
  {
    match a
    case Single(l) =>
    case Bracket(neg, items) =>
      var chars := ItemsChars(items);
      ItemsCharsMembers(items, c);
      SortBytesMembers(chars, c);
      SortBytesMembers(ComplementBelow(SortBytes(chars), 255), c);
      ComplementBelowMembers(SortBytes(chars), 255, c);
  }

  lemma PrefixAgrees(a: Atom, w: seq<Byte>, n: nat)
    requires ValidAtom(a) && n <= |w|
    ensures AllIn(w[..n], AtomChars(a)) <==> forall i | 0 <= i < n :: Admits(a, w[i])
  {
    forall i | 0 <= i < n ensures w[..n][i] in AtomChars(a) <==> Admits(a, w[i]) {
      AtomCharsMembers(a, w[i]);
    }
  }

  lemma SplitAgrees(p: Pattern, a: Atom, k: Count, rest: Tail, w: seq<Byte>, n: nat)
    requires ValidAtom(a) && ValidCount(k) && n <= |w| <= INT_MAX
    requires p.chars == AtomChars(a) && p.from == CountFrom(k) && p.to == CountTo(k)
    requires if rest.End? then p.children == []
             else |p.children| == 1 && (InLanguage(p.children[0], w[n..]) <==> InRegex(rest.next, w[n..]))
    ensures SplitsAt(p, w, n) <==> ItemSplits(a, k, rest, w, n)
  {
    PrefixAgrees(a, w, n);
    assert CountAllowed(p, n) <==> HasCount(k, n);
    if rest.Then? { assert InTail(p, w[n..]) <==> InLanguage(p.children[0], w[n..]); }
  }

  /** The compiled tree denotes what the expression means. */
  lemma {:induction false} DenoteMeans(r: Regex, w: seq<Byte>)
    requires Valid(r) && |w| <= INT_MAX
    ensures InLanguage(Denote(r), w) <==> InRegex(r, w)
    decreases r
  {
    match r
    case Item(a, k, rest) =>
      var p := Denote(r);
      forall n: nat | n <= |w| ensures SplitsAt(p, w, n) <==> ItemSplits(a, k, rest, w, n) {
        if rest.Then? { DenoteMeans(rest.next, w[n..]); }
        SplitAgrees(p, a, k, rest, w, n);
      }
      ItemMeans(r, p, w);
    case Choice(alts) =>
      var children := DenoteAll(alts);
      forall i | 0 <= i < |alts| ensures InLanguage(children[i], w) <==> InRegex(alts[i], w) {
        DenoteMeans(alts[i], w);
      }
      ChoiceMeans(alts, children, w);
    case Group(inner) =>
      DenoteMeans(inner, w);
      var p := Node([], 0, 0, [Denote(inner)]);
      EmptyNodeLanguage(p, w);
      assert InTail(p, w) <==> InLanguage(p.children[0], w);
  }

  lemma ItemSplitOf(r: Regex, w: seq<Byte>) returns (n: nat)
    requires r.Item? && InRegex(r, w)
    ensures n <= |w| && ItemSplits(r.atom, r.count, r.rest, w, n)
  {
    n :| n <= |w| && ItemSplits(r.atom, r.count, r.rest, w, n);
  }

  lemma ItemMeans(r: Regex, p: Pattern, w: seq<Byte>)
    requires r.Item?
    requires forall n: nat | n <= |w| :: SplitsAt(p, w, n) <==> ItemSplits(r.atom, r.count, r.rest, w, n)
    ensures InLanguage(p, w) <==> InRegex(r, w)
  {
    if InLanguage(p, w) { var n := SplitOf(p, w); assert ItemSplits(r.atom, r.count, r.rest, w, n); }
    if InRegex(r, w) { var n := ItemSplitOf(r, w); assert SplitsAt(p, w, n); }
  }

  lemma ChoiceMeans(alts: seq<Regex>, children: seq<Pattern>, w: seq<Byte>)
    requires |alts| == |children| >= 1
    requires forall i | 0 <= i < |alts| :: InLanguage(children[i], w) <==> InRegex(alts[i], w)
    ensures InLanguage(Node([], 0, 0, children), w) <==> InRegex(Choice(alts), w)
  {
    var p := Node([], 0, 0, children);
    EmptyNodeLanguage(p, w);
    if i :| 0 <= i < |alts| && InRegex(alts[i], w) { assert InLanguage(p.children[i], w); }
    if InTail(p, w) { var i :| 0 <= i < |p.children| && InLanguage(p.children[i], w); assert InRegex(alts[i], w); }
  }

  lemma EmptyNodeLanguage(p: Pattern, w: seq<Byte>)
    requires p.to == 0
    ensures InLanguage(p, w) <==> InTail(p, w)
  {
    assert w[0..] == w;
    if InLanguage(p, w) { var n := SplitOf(p, w); }
    if InTail(p, w) { assert SplitsAt(p, w, 0); }
  }
}
