/** The pattern of the huge-integer checker: "0|-?[1-9][0-9]*" (support/checkers/hcmp.cpp:6-10). */
module HugeIntegers {
  import opened Bytes
  import opened Decimal
  import opened PatternTree
  import opened PatternParser
  import opened PatternGrammar
  import PatternRoundTrip

  const PNUM_TEXT: seq<Byte> := Ascii("0|-?[1-9][0-9]*")

  function Bare(c: Byte): Letter { Letter(c, false) }

  function DigitSet(lo: Byte, hi: Byte): Atom { Bracket(false, [Span(Bare(lo), Bare(hi))]) }

  function TailExpr(): Regex { Item(DigitSet(ZERO, NINE), Count.Star, End) }

  function DigitsExpr(): Regex { Item(DigitSet(ZERO + 1, NINE), Once, Then(TailExpr())) }

  function SignedExpr(): Regex { Item(Single(Bare(Decimal.MINUS)), Optional, Then(DigitsExpr())) }

  function ZeroExpr(): Regex { Item(Single(Bare(ZERO)), Once, End) }

  function PnumExpr(): Regex { Choice([ZeroExpr(), SignedExpr()]) }

  predicate IsNumeric(p: seq<Byte>) {
    Parse(PNUM_TEXT).Some? && Matches(Parse(PNUM_TEXT).value, p)
  }

  lemma DigitSetValid(lo: Byte, hi: Byte)
    requires IsDigit(lo) && IsDigit(hi) && lo <= hi
    ensures ValidAtom(DigitSet(lo, hi))
  {
    var items := [Span(Bare(lo), Bare(hi))];
    assert items[1..] == [];
    assert ValidItem(items[0]);
  }

  lemma SetText(lo: Byte, hi: Byte)
    ensures PrintAtom(DigitSet(lo, hi)) == [LBRACKET, lo, Decimal.MINUS, hi, RBRACKET]
  {
    var i := Span(Bare(lo), Bare(hi));
    assert PrintItem(i) == [lo, Decimal.MINUS, hi];
    assert [i][1..] == [];
    assert PrintItems([i]) == [lo, Decimal.MINUS, hi];
  }

  lemma TailText()
    ensures Valid(TailExpr()) && Print(TailExpr()) == [91, 48, 45, 57, 93, 42]
  {
    SetText(ZERO, NINE);
    hide PrintAtom;
  }

  lemma DigitsText()
    ensures Valid(DigitsExpr()) && Print(DigitsExpr()) == [91, 49, 45, 57, 93, 91, 48, 45, 57, 93, 42]
  {
    TailText();
    SetText(ZERO + 1, NINE);
    hide PrintAtom;
    assert Print(DigitsExpr()) == PrintAtom(DigitSet(ZERO + 1, NINE)) + [] + Print(TailExpr());
  }

  lemma SignedText()
    ensures Valid(SignedExpr())
    ensures Print(SignedExpr()) == [45, 63, 91, 49, 45, 57, 93, 91, 48, 45, 57, 93, 42]
  {
    DigitsText();
    DigitsShape();
    LiteralText(Decimal.MINUS);
    hide PrintAtom, DigitsExpr;
    assert Print(SignedExpr()) == PrintAtom(Single(Bare(Decimal.MINUS))) + [63] + Print(DigitsExpr());
  }

  lemma PnumLiteral()
    ensures PNUM_TEXT == [48, 124, 45, 63, 91, 49, 45, 57, 93, 91, 48, 45, 57, 93, 42]
  {
    var t := "0|-?[1-9][0-9]*";
    assert IsAscii(t);
  }

  lemma ZeroText()
    ensures Valid(ZeroExpr()) && Print(ZeroExpr()) == [48] && !ZeroExpr().Choice?
  {
    LiteralText(ZERO);
  }

  lemma PnumText()
    ensures Valid(PnumExpr()) && Print(PnumExpr()) == PNUM_TEXT
  {
    SignedText();
    SignedShape();
    ZeroText();
    PnumLiteral();
    TwoValid(ZeroExpr(), SignedExpr());
    hide PrintAtom, SignedExpr, ZeroExpr, PNUM_TEXT, Valid;
    PrintTwo(ZeroExpr(), SignedExpr());
  }

  lemma TwoValid(a: Regex, b: Regex)
    requires Valid(a) && Valid(b) && !a.Choice? && !b.Choice?
    ensures Valid(Choice([a, b]))
  {
  }

  lemma PrintTwo(a: Regex, b: Regex)
    requires Valid(a) && Valid(b) && !a.Choice? && !b.Choice?
    ensures Print(Choice([a, b])) == Print(a) + [PIPE] + Print(b)
  {
    var alts := [a, b];
    assert alts[1..] == [b];
    assert PrintAlternatives(alts[1..]) == Print(b);
    assert PrintAlternatives(alts) == Print(a) + [PIPE] + PrintAlternatives(alts[1..]);
  }

  lemma SignedShape()
    ensures !SignedExpr().Choice?
  {
  }

  lemma LiteralText(c: Byte)
    ensures PrintAtom(Single(Bare(c))) == [c]
  {
  }

  function PnumTree(): Pattern {
    PnumText();
    Denote(PnumExpr())
  }

  lemma PnumCompiles()
    ensures Parse(PNUM_TEXT) == Some(PnumTree())
  {
    hide Parse, PNUM_TEXT, Print, Valid, PnumExpr;
    PnumText();
    PatternRoundTrip.ParsePrint(PnumExpr());
  }

  lemma LeafDisjoint(a: Atom, k: Count)
    requires ValidAtom(a) && ValidCount(k)
    ensures Valid(Item(a, k, End)) && FollowDisjoint(Denote(Item(a, k, End)))
    ensures Denote(Item(a, k, End)).chars == AtomChars(a)
  {
    hide AtomChars;
    var p := Denote(Item(a, k, End));
    assert TailFirst(p) == {};
  }

  lemma FixedNode(chars: seq<Byte>, child: Pattern)
    requires FollowDisjoint(child)
    ensures FollowDisjoint(Node(chars, 1, 1, [child]))
    ensures FirstChars(Node(chars, 1, 1, [child])) == set c | c in chars
  {
  }

  lemma DigitsDisjoint()
    ensures Valid(DigitsExpr()) && FollowDisjoint(Denote(DigitsExpr()))
    ensures forall c: Byte :: c in FirstChars(Denote(DigitsExpr())) ==> IsDigit(c)
  {
    var a := DigitSet(ZERO + 1, NINE);
    DigitsText();
    assert ValidAtom(a) by { DigitSetValid(ZERO + 1, NINE); }
    forall c: Byte ensures c in AtomChars(a) ==> IsDigit(c) {
      AtomCharsMembers(a, c);
      assert c in AtomChars(a) ==> Covers(Span(Bare(ZERO + 1), Bare(NINE)), c);
    }
    LeafDisjoint(DigitSet(ZERO, NINE), Count.Star);
    hide AtomChars, DigitSet;
    FixedNode(AtomChars(a), Denote(TailExpr()));
    assert Denote(DigitsExpr()) == Node(AtomChars(a), 1, 1, [Denote(TailExpr())]);
  }

  /** A node whose set is disjoint from what its one child can start with. */
  lemma OneChildDisjoint(chars: seq<Byte>, from: int, to: int, child: Pattern)
    requires FollowDisjoint(child) && forall c | c in chars :: c !in FirstChars(child)
    ensures FollowDisjoint(Node(chars, from, to, [child]))
  {
    hide FirstChars;
    var p := Node(chars, from, to, [child]);
    assert TailFirst(p) <= FirstChars(child);
  }

  lemma SignedTree()
    ensures Valid(SignedExpr()) && Valid(DigitsExpr())
    ensures Denote(SignedExpr()) == Node([Decimal.MINUS], 0, 1, [Denote(DigitsExpr())])
  {
    SignedText();
    DigitsText();
    SingleChars(Decimal.MINUS);
    hide DigitsExpr, AtomChars, Print;
  }

  lemma SignedDisjoint()
    ensures Valid(SignedExpr()) && FollowDisjoint(Denote(SignedExpr()))
  {
    SignedTree();
    DigitsDisjoint();
    var child := Denote(DigitsExpr());
    assert forall c | c in [Decimal.MINUS] :: !IsDigit(c);
    hide *;
    OneChildDisjoint([Decimal.MINUS], 0, 1, child);
  }

  lemma DigitsShape()
    ensures !DigitsExpr().Choice?
  {
  }

  /** In this pattern no set shares a character with what may follow it. */
  lemma PnumDisjoint()
    ensures FollowDisjoint(PnumTree())
  {
    LeafDisjoint(Single(Bare(ZERO)), Once);
    SignedDisjoint();
    PnumShape();
    hide *;
    var children := [Denote(ZeroExpr()), Denote(SignedExpr())];
    assert children[0] == Denote(ZeroExpr()) && children[1] == Denote(SignedExpr());
    NoSetDisjoint(Node([], 0, 0, children));
  }

  lemma PnumShape()
    ensures Valid(ZeroExpr()) && Valid(SignedExpr()) && ZeroExpr() == Item(Single(Bare(ZERO)), Once, End)
    ensures PnumTree() == Node([], 0, 0, [Denote(ZeroExpr()), Denote(SignedExpr())])
  {
    PnumText();
    SignedText();
    assert Valid(ZeroExpr());
    hide SignedExpr, Print, Valid;
    var alts := [ZeroExpr(), SignedExpr()];
    assert alts[0] == ZeroExpr() && alts[1] == SignedExpr();
    assert Denote(PnumExpr()) == Node([], 0, 0, DenoteAll(alts));
  }

  /** A node without a set is as disjoint as its children. */
  lemma NoSetDisjoint(p: Pattern)
    requires p.to == 0 && forall i | 0 <= i < |p.children| :: FollowDisjoint(p.children[i])
    ensures FollowDisjoint(p)
  {
  }

  lemma SingleChars(c: Byte)
    requires !IsSpecial(c)
    ensures AtomChars(Single(Bare(c))) == [c]
  {
  }

  lemma TailMeans(w: seq<Byte>)
    ensures InRegex(TailExpr(), w) <==> AllDigits(w)
  {
    forall c: Byte ensures Admits(DigitSet(ZERO, NINE), c) <==> IsDigit(c) {
      assert Covers(Span(Bare(ZERO), Bare(NINE)), c) <==> IsDigit(c);
      assert [Span(Bare(ZERO), Bare(NINE))][0] == Span(Bare(ZERO), Bare(NINE));
    }
    hide Admits;
    if AllDigits(w) { assert ItemSplits(DigitSet(ZERO, NINE), Count.Star, End, w, |w|); }
  }

  lemma DigitsMean(w: seq<Byte>)
    ensures InRegex(DigitsExpr(), w) <==> AllDigits(w) && w != [] && w[0] != ZERO
  {
    var a := DigitSet(ZERO + 1, NINE);
    forall c: Byte ensures Admits(a, c) <==> IsDigit(c) && c != ZERO {
      assert Covers(Span(Bare(ZERO + 1), Bare(NINE)), c) <==> IsDigit(c) && c != ZERO;
      assert [Span(Bare(ZERO + 1), Bare(NINE))][0] == Span(Bare(ZERO + 1), Bare(NINE));
    }
    hide Admits, TailExpr;
    if w != [] {
      TailMeans(w[1..]);
      assert ItemSplits(a, Once, Then(TailExpr()), w, 1) <==> Admits(a, w[0]) && AllDigits(w[1..]);
      assert AllDigits(w) <==> IsDigit(w[0]) && AllDigits(w[1..]) by {
        assert forall i | 0 < i < |w| :: w[i] == w[1..][i - 1];
      }
    }
  }

  lemma SignedMeans(w: seq<Byte>)
    ensures InRegex(SignedExpr(), w) <==>
            var d := Magnitude(w); AllDigits(d) && d != [] && d[0] != ZERO
  {
    var a := Single(Bare(Decimal.MINUS));
    var rest := Then(DigitsExpr());
    hide DigitsExpr;
    DigitsMean(w);
    assert w[0..] == w;
    assert ItemSplits(a, Optional, rest, w, 0) <==> InRegex(DigitsExpr(), w);
    if w != [] {
      DigitsMean(w[1..]);
      assert ItemSplits(a, Optional, rest, w, 1) <==> w[0] == Decimal.MINUS && InRegex(DigitsExpr(), w[1..]);
    }
    assert InRegex(SignedExpr(), w) <==>
           ItemSplits(a, Optional, rest, w, 0) || (w != [] && ItemSplits(a, Optional, rest, w, 1)) by {
      if InRegex(SignedExpr(), w) {
        var n := ItemSplitOf(SignedExpr(), w);
        assert n <= 1;
      }
    }
  }

  lemma ZeroMeans(w: seq<Byte>)
    ensures InRegex(ZeroExpr(), w) <==> w == [ZERO]
  {
    if w == [ZERO] { assert ItemSplits(Single(Bare(ZERO)), Once, End, w, 1); }
  }

  /** The pattern means the canonical decimal integers. */
  lemma PnumMeans(w: seq<Byte>)
    ensures InRegex(PnumExpr(), w) <==> Canonical(w)
  {
    ZeroMeans(w);
    SignedMeans(w);
    var alts := [ZeroExpr(), SignedExpr()];
    hide ZeroExpr, SignedExpr;
    assert PnumExpr() == Choice(alts);
    assert InRegex(Choice(alts), w) <==> InRegex(alts[0], w) || InRegex(alts[1], w);
  }

  /** The compiled pattern, run by the greedy matcher, accepts exactly the canonical
      decimal integers of any length a token can have. */
  lemma NumericIffCanonical(w: seq<Byte>)
    requires |w| <= INT_MAX
    ensures IsNumeric(w) <==> Canonical(w)
  {
    hide Parse, Matches, InRegex, FollowDisjoint, Canonical, PnumExpr, Denote, Print, Valid, PNUM_TEXT;
    PnumText();
    PnumCompiles();
    PnumDisjoint();
    PatternRoundTrip.CompiledMatchesMeaning(PnumExpr(), w);
    PnumMeans(w);
  }
}
