/** Parentheses in pattern texts, and the grammar in ASCII (support/testlib.h:662-696, 1531-1585). */
module PatternSyntax {
  import opened Bytes
  import opened Decimal
  import opened PatternTree
  import opened PatternParser
  import opened PatternGrammar
  import opened PatternRoundTrip

  /** Opening minus closing parentheses, escaped ones not counted, among the first `i` characters. */
  function DepthAt(s: seq<Byte>, i: nat): int
    requires i <= |s|
  {
    if i == 0 then 0
    else DepthAt(s, i - 1) + (if IsCommandChar(s, i - 1, 40) then 1 else if IsCommandChar(s, i - 1, 41) then -1 else 0)
  }

  /** Something else than a parenthesis behind more closing than opening ones. */
  predicate Stray(s: seq<Byte>, i: nat) {
    i < |s| && !IsCommandChar(s, i, 40) && !IsCommandChar(s, i, 41) && DepthAt(s, i) < 0
  }

  lemma {:induction false} ScanDepth(s: seq<Byte>, i: nat, st: TopScan)
    requires i <= |s| && st.depth == DepthAt(s, i)
    ensures TopLoop(s, i, st).None? <==> exists j: nat :: i <= j && Stray(s, j)
    ensures TopLoop(s, i, st).Some? ==> TopLoop(s, i, st).value.depth == DepthAt(s, |s|)
    decreases |s| - i
  {
    hide IsCommandChar;
    if i < |s| {
      var next := TopStep(s, i, st);
      if next.None? {
        assert Stray(s, i);
      } else {
        ScanDepth(s, i + 1, next.value);
        assert !Stray(s, i);
      }
    }
  }

  /** A text whose parentheses are not balanced is refused, and so is one in which an ordinary
      character comes behind more closing than opening ones. */
  lemma UnbalancedRefused(s: seq<Byte>)
    requires DepthAt(StripSpaces(s, 0), |StripSpaces(s, 0)|) != 0 || exists i: nat :: Stray(StripSpaces(s, 0), i)
    ensures Parse(s).None?
  {
    StripShortens(s, 0);
    ScanDepth(StripSpaces(s, 0), 0, TopScan(0, -1, []));
    hide StripSpaces, TopLoop, Stray, ScanCharSet, ScanCounts, Pieces, IsCommandChar;
  }

  /** There is no pattern for the empty text, nor with an empty alternative. */
  lemma EmptyRefused(s: seq<Byte>)
    requires |s| == 0
    ensures Parse(s).None? && Parse([124]).None?
  {
    var bar: seq<Byte> := [124];
    assert IsCommandChar(bar, 0, PIPE) && !IsCommandChar(bar, 0, SPACE);
    assert StripSpaces(bar, 1) == [] && StripSpaces(bar, 0) == bar;
    assert StripSpaces(s, 0) == [];
    assert TopLoop(s, 0, TopScan(0, -1, [])) == Some(TopScan(0, -1, []));
    assert ParseStripped(s).None?;
    BarScan(bar);
    assert Pieces(bar, [0], 0)[0] == s;
    assert ParseAll(Pieces(bar, [0], 0), 1).None?;
  }

  lemma BarScan(bar: seq<Byte>)
    requires bar == [124]
    ensures TopLoop(bar, 0, TopScan(0, -1, [])) == Some(TopScan(0, -1, [0]))
  {
    assert IsCommandChar(bar, 0, PIPE) && !IsCommandChar(bar, 0, LPAREN) && !IsCommandChar(bar, 0, RPAREN);
    var none: seq<nat> := [];
    assert none + [0] == [0];
    assert TopStep(bar, 0, TopScan(0, -1, none)) == Some(TopScan(0, -1, [0]));
    assert TopLoop(bar, 1, TopScan(0, -1, [0])) == Some(TopScan(0, -1, [0]));
  }

  /** Each construct of the grammar as it is typed. */
  lemma GrammarInAscii(l: Letter, a: Regex, b: Regex)
    requires l == Letter(120, false)
    ensures PrintLetter(Letter(42, true)) == Ascii("\\*")
    ensures PrintAtom(Bracket(false, [One(l)])) == Ascii("[x]") && PrintAtom(Bracket(true, [One(l)])) == Ascii("[^x]")
    ensures PrintAtom(Bracket(false, [Span(l, Letter(122, false))])) == Ascii("[x-z]")
    ensures PrintCount(Optional) == Ascii("?") && PrintCount(Star) == Ascii("*") && PrintCount(Plus) == Ascii("+")
    ensures PrintCount(Exactly(3)) == Ascii("{3}") && PrintCount(Between(2, 15)) == Ascii("{2,15}")
    ensures Print(Group(a)) == Ascii("(") + Print(a) + Ascii(")")
    ensures Print(Choice([a, b])) == Print(a) + Ascii("|") + Print(b)
  {
    BracketsInAscii(l);
    CountsInAscii();
    EscapeInAscii();
    hide PrintLetter, PrintAtom, PrintCount, PrintItems;
    BothInAscii(a, b);
    assert Ascii("(") == [40] && Ascii(")") == [41];
  }

  lemma BothInAscii(a: Regex, b: Regex)
    ensures Print(Choice([a, b])) == Print(a) + Ascii("|") + Print(b)
  {
    var alts := [a, b];
    assert alts[1..] == [b];
    assert PrintAlternatives([b]) == Print(b);
    assert Print(Choice(alts)) == PrintAlternatives(alts);
    assert Ascii("|") == [124];
  }

  lemma EscapeInAscii()
    ensures PrintLetter(Letter(42, true)) == Ascii("\\*")
  {
    assert Ascii("\\*") == [92, 42];
  }

  lemma CountsInAscii()
    ensures PrintCount(Optional) == Ascii("?") && PrintCount(Star) == Ascii("*") && PrintCount(Plus) == Ascii("+")
    ensures PrintCount(Exactly(3)) == Ascii("{3}") && PrintCount(Between(2, 15)) == Ascii("{2,15}")
  {
    assert NatText(2) == [50] && NatText(3) == [51];
    assert NatText(1) == [49];
    assert NatText(15) == [49, 53];
    hide NatText;
    assert IsAscii("{3}") && Ascii("{3}") == [123, 51, 125];
    assert IsAscii("{2,15}") && Ascii("{2,15}") == [123, 50, 44, 49, 53, 125];
    assert Ascii("?") == [63] && Ascii("*") == [42] && Ascii("+") == [43];
  }

  lemma BracketsInAscii(l: Letter)
    requires l == Letter(120, false)
    ensures PrintAtom(Bracket(false, [One(l)])) == Ascii("[x]") && PrintAtom(Bracket(true, [One(l)])) == Ascii("[^x]")
    ensures PrintAtom(Bracket(false, [Span(l, Letter(122, false))])) == Ascii("[x-z]")
  {
    BracketBytes();
    ItemBytes(l);
    hide PrintItems, Ascii;
  }

  lemma BracketBytes()
    ensures Ascii("[x]") == [91, 120, 93] && Ascii("[^x]") == [91, 94, 120, 93]
    ensures Ascii("[x-z]") == [91, 120, 45, 122, 93]
  {
    assert IsAscii("[x]") && IsAscii("[^x]") && IsAscii("[x-z]");
  }

  lemma ItemBytes(l: Letter)
    requires l == Letter(120, false)
    ensures PrintItems([One(l)]) == [120] && PrintItems([Span(l, Letter(122, false))]) == [120, 45, 122]
  {
    var one, span := [One(l)], [Span(l, Letter(122, false))];
    assert one[1..] == [] && span[1..] == [];
    assert PrintItems([]) == [];
  }
}
