/** Tokens of a text: its maximal runs of non-blank bytes
    (what support/testlib.h:3371-3417 and 4168-4180 enumerate together). */
module TokenText {
  import opened Bytes

  predicate Blank(c: Byte) { IsBlank(c as int) }

  predicate AllBlank(t: seq<Byte>) { forall i | 0 <= i < |t| :: Blank(t[i]) }

  predicate NoBlank(t: seq<Byte>) { forall i | 0 <= i < |t| :: !Blank(t[i]) }

  function DropBlanks(t: seq<Byte>): (r: seq<Byte>)
    ensures |r| <= |t|
    ensures r == [] || !Blank(r[0])
  {
    if t != [] && Blank(t[0]) then DropBlanks(t[1..]) else t
  }

  /** The non-blank run a text starts with. */
  function Word(t: seq<Byte>): (r: seq<Byte>)
    ensures |r| <= |t| && r == t[..|r|] && NoBlank(r)
    ensures |r| < |t| ==> Blank(t[|r|])
  {
    if t != [] && !Blank(t[0]) then [t[0]] + Word(t[1..]) else []
  }

  function Tokens(t: seq<Byte>): seq<seq<Byte>>
    decreases |t|
  {
    var u := DropBlanks(t);
    if u == [] then [] else [Word(u)] + Tokens(u[|Word(u)|..])
  }

  const BOM: seq<Byte> := [-17, -69, -65]

  function StripBom(t: seq<Byte>): seq<Byte> {
    if |t| >= 3 && t[..3] == BOM then t[3..] else t
  }

  // ------------------------------------------------------- layout and tokens

  /** A token is a non-empty run of non-blank bytes. */
  predicate IsToken(w: seq<Byte>) { w != [] && NoBlank(w) }

  /** Blank gaps around the tokens; only the first and the last may be empty. */
  predicate Gaps(gaps: seq<seq<Byte>>, n: nat) {
    && |gaps| == n + 1
    && (forall i | 0 <= i < |gaps| :: AllBlank(gaps[i]))
    && (forall i | 0 < i < n :: gaps[i] != [])
  }

  function Lay(gaps: seq<seq<Byte>>, toks: seq<seq<Byte>>): seq<Byte>
    requires |gaps| == |toks| + 1
  {
    if toks == [] then gaps[0] else gaps[0] + toks[0] + Lay(gaps[1..], toks[1..])
  }

  lemma {:induction false} DropBlanksSkips(g: seq<Byte>, t: seq<Byte>)
    requires AllBlank(g)
    ensures DropBlanks(g + t) == DropBlanks(t)
  {
    if g == [] {
      assert g + t == t;
    } else {
      assert (g + t)[1..] == g[1..] + t;
      DropBlanksSkips(g[1..], t);
    }
  }

  lemma {:induction false} WordOf(w: seq<Byte>, t: seq<Byte>)
    requires NoBlank(w) && (t == [] || Blank(t[0]))
    ensures Word(w + t) == w
  {
    if w == [] {
      assert w + t == t;
    } else {
      assert (w + t)[1..] == w[1..] + t;
      WordOf(w[1..], t);
    }
  }

  /** Whatever the blank layout, the tokens written are the tokens found. */
  lemma {:induction false} TokensOfLayout(gaps: seq<seq<Byte>>, toks: seq<seq<Byte>>)
    requires Gaps(gaps, |toks|) && (forall i | 0 <= i < |toks| :: IsToken(toks[i]))
    ensures Tokens(Lay(gaps, toks)) == toks
    decreases |toks|
  {
    var t := Lay(gaps, toks);
    if toks == [] {
      DropBlanksSkips(gaps[0], []);
      assert gaps[0] + [] == gaps[0];
    } else {
      var rest := Lay(gaps[1..], toks[1..]);
      assert t == gaps[0] + (toks[0] + rest);
      DropBlanksSkips(gaps[0], toks[0] + rest);
      assert rest == [] || Blank(rest[0]) by {
        if |toks| == 1 { assert rest == gaps[1]; } else { assert gaps[1] != [] && rest[0] == gaps[1][0]; }
      }
      WordOf(toks[0], rest);
      assert (toks[0] + rest)[|toks[0]|..] == rest;
      TokensOfLayout(gaps[1..], toks[1..]);
    }
  }

  function LeadingBlanks(t: seq<Byte>): (g: seq<Byte>)
    ensures AllBlank(g) && t == g + DropBlanks(t)
  {
    if t != [] && Blank(t[0]) then [t[0]] + LeadingBlanks(t[1..]) else []
  }

  /** Tokens are tokens, and the text after a token is over or starts with a blank. */
  lemma TokensStep(t: seq<Byte>)
    requires DropBlanks(t) != []
    ensures var u := DropBlanks(t);
            var rest := u[|Word(u)|..];
            && Tokens(t) == [Word(u)] + Tokens(rest) && IsToken(Word(u))
            && u == Word(u) + rest && |rest| < |t|
            && (rest != [] ==> Blank(rest[0]))
  {
  }

  lemma {:induction false} TokensAreTokens(t: seq<Byte>)
    ensures forall i | 0 <= i < |Tokens(t)| :: IsToken(Tokens(t)[i])
    decreases |t|
  {
    if DropBlanks(t) != [] {
      TokensStep(t);
      TokensAreTokens(DropBlanks(t)[|Word(DropBlanks(t))|..]);
    }
  }

  /** Conversely every text is its own tokens in some layout: no byte is lost, none is invented. */
  lemma {:induction false} LayoutOf(t: seq<Byte>) returns (gaps: seq<seq<Byte>>)
    ensures Gaps(gaps, |Tokens(t)|) && Lay(gaps, Tokens(t)) == t
    ensures t != [] && Tokens(t) != [] && Blank(t[0]) ==> gaps[0] != []
    decreases |t|
  {
    var u := DropBlanks(t);
    var g := LeadingBlanks(t);
    if u == [] {
      gaps := [g];
    } else {
      TokensStep(t);
      var w := Word(u);
      var rest := u[|w|..];
      var more := LayoutOf(rest);
      gaps := [g] + more;
      hide *;
      LayStep(g, w, more, Tokens(rest));
      Rejoin(t, g, u, w, rest);
    }
  }

  lemma Rejoin(t: seq<Byte>, g: seq<Byte>, u: seq<Byte>, w: seq<Byte>, rest: seq<Byte>)
    requires t == g + u && u == w + rest && IsToken(w)
    ensures g + w + rest == t
    ensures t != [] && Blank(t[0]) ==> g != []
  {
    assert (g + w) + rest == g + (w + rest);
    if g == [] { assert t[0] == w[0]; }
  }

  lemma LayStep(g: seq<Byte>, w: seq<Byte>, more: seq<seq<Byte>>, toks: seq<seq<Byte>>)
    requires AllBlank(g) && Gaps(more, |toks|) && (toks != [] ==> more[0] != [])
    ensures Gaps([g] + more, |toks| + 1)
    ensures Lay([g] + more, [w] + toks) == g + w + Lay(more, toks)
  {
    var gaps := [g] + more;
    assert gaps[1..] == more && ([w] + toks)[1..] == toks;
    forall i | 0 < i < |toks| + 1 ensures gaps[i] != [] { assert gaps[i] == more[i - 1]; }
  }

  /** Tab, line feed, carriage return and space, and no other byte, are blank. */
  lemma BlankExactly(c: Byte)
    ensures Blank(c) <==> c in {9, 10, 13, 32}
  {
  }

  /** Two words with one of these bytes between them are two tokens; with any other byte
      between them they are one. */
  lemma OneByteSeparates(a: seq<Byte>, c: Byte, b: seq<Byte>)
    requires a != [] && b != [] && forall x | x in a + b :: x !in {9, 10, 13, 32}
    ensures Tokens(a + [c] + b) == if c in {9, 10, 13, 32} then [a, b] else [a + [c] + b]
  {
    assert NoBlank(a) by { forall i | 0 <= i < |a| ensures !Blank(a[i]) { assert a[i] in a + b; } }
    assert NoBlank(b) by { forall i | 0 <= i < |b| ensures !Blank(b[i]) { assert b[i] in a + b; } }
    if Blank(c) {
      TokensOfLayout([[], [c], []], [a, b]);
      hide Tokens;
      LayPair(a, c, b);
    } else {
      TokensOfLayout([[], []], [a + [c] + b]);
      hide Tokens;
      LayOne(a + [c] + b);
    }
  }

  lemma LayOne(w: seq<Byte>)
    ensures Lay([[], []], [w]) == w
  {
    var gaps: seq<seq<Byte>>, toks := [[], []], [w];
    assert gaps[1..] == [[]] && toks[1..] == [];
    assert Lay(gaps, toks) == [] + w + Lay(gaps[1..], toks[1..]);
  }

  lemma LayPair(a: seq<Byte>, c: Byte, b: seq<Byte>)
    ensures Lay([[], [c], []], [a, b]) == a + [c] + b
  {
    var gaps: seq<seq<Byte>>, toks := [[], [c], []], [a, b];
    assert gaps[1..] == [[c], []] && toks[1..] == [b] && gaps[1..][1..] == [[]] && toks[1..][1..] == [];
    assert Lay([[c], []], [b]) == [c] + b + [];
    assert Lay(gaps, toks) == [] + a + Lay([[c], []], [b]);
  }
}
