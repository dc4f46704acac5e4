/** Random generation from a pattern tree, over an arbitrary stream of draws
    (support/testlib.h:1372-1391, 835-851). */
module PatternGenerator {
  import opened Bytes
  import opened PatternTree

  /** `Broken`: a fatal error, or a draw outside its range (which `next` never yields). */
  datatype Generated = Out(text: seq<Byte>, rest: seq<nat>) | Broken

  /** `rnd.next(n)`: the next draw, provided it lies in [0, n). */
  function Draw(n: int, draws: seq<nat>): Option<nat> {
    if n <= 0 || draws == [] || draws[0] >= n then None else Some(draws[0])
  }

  function DrawChars(chars: seq<Byte>, count: nat, draws: seq<nat>): Generated {
    if count == 0 then Out([], draws)
    else
      var d := Draw(|chars|, draws);
      if d.None? then Broken
      else
        var tail := DrawChars(chars, count - 1, draws[1..]);
        if tail.Broken? then Broken else Out([chars[d.value]] + tail.text, tail.rest)
  }

  function Repeat(p: Pattern, draws: seq<nat>): Generated {
    if p.to > 0 then
      var d := Draw(p.to - p.from + 1, draws);
      if d.None? then Broken
      else
        var count := d.value + p.from;
        DrawChars(p.chars, if count < 0 then 0 else count, draws[1..])
    else Out([], draws)
  }

  function Next(p: Pattern, draws: seq<nat>): Generated
    decreases p
  {
    if p.to == INT_MAX then Broken
    else
      var head := Repeat(p, draws);
      if head.Broken? then Broken
      else if |p.children| == 0 then head
      else
        var d := Draw(|p.children|, head.rest);
        if d.None? then Broken
        else
          var tail := Next(p.children[d.value], head.rest[1..]);
          if tail.Broken? then Broken else Out(head.text + tail.text, tail.rest)
  }

  // ------------------------------------------------- which draw gives what

  /** Each draw picks the character at its own index; nothing comes out exactly when a draw is
      missing or out of range. */
  lemma {:induction false} DrawCharsSelect(chars: seq<Byte>, count: nat, draws: seq<nat>)
    ensures var g := DrawChars(chars, count, draws);
      && (g.Out? <==> count <= |draws| && forall i | 0 <= i < count :: draws[i] < |chars|)
      && (g.Out? ==> |g.text| == count <= |draws| && g.rest == draws[count..]
                     && forall i | 0 <= i < count :: draws[i] < |chars| && g.text[i] == chars[draws[i]])
  {
    if count > 0 && draws != [] {
      DrawCharsSelect(chars, count - 1, draws[1..]);
      assert draws == [draws[0]] + draws[1..];
      if count <= |draws| { assert draws[1..][count - 1..] == draws[count..]; }
      assert forall i | 0 <= i < |draws| - 1 :: draws[1..][i] == draws[i + 1];
      var g := DrawChars(chars, count, draws);
      if g.Out? {
        forall i | 0 <= i < count ensures draws[i] < |chars| && g.text[i] == chars[draws[i]] {
          if i > 0 { assert draws[i] == draws[1..][i - 1]; }
        }
      } else {
        if count <= |draws| && draws[0] < |chars| { DrawsOutOfRange(chars, count, draws); }
      }
    }
  }

  lemma DrawsOutOfRange(chars: seq<Byte>, count: nat, draws: seq<nat>)
    requires 0 < count <= |draws| && exists i :: 0 <= i < count - 1 && draws[1..][i] >= |chars|
    ensures exists i :: 0 <= i < count && draws[i] >= |chars|
  {
    var i :| 0 <= i < count - 1 && draws[1..][i] >= |chars|;
    assert draws[i + 1] >= |chars|;
  }

  /** The first draw is the repeat count above the least one, each of the next ones picks a
      character, the one after them an alternative, which continues with the rest. */
  lemma NextSelects(p: Pattern, draws: seq<nat>)
    requires 0 <= p.from && 0 < p.to && Next(p, draws).Out?
    ensures p.to != INT_MAX && draws != [] && p.from + draws[0] <= p.to
    ensures var count := p.from + draws[0]; var g := Next(p, draws);
      && 1 + count <= |draws| && count <= |g.text|
      && (forall i | 0 <= i < count :: draws[1 + i] < |p.chars| && g.text[i] == p.chars[draws[1 + i]])
      && (p.children == [] ==> |g.text| == count && g.rest == draws[1 + count..])
      && (p.children != [] ==>
            && 1 + count < |draws| && draws[1 + count] < |p.children|
            && Next(p.children[draws[1 + count]], draws[2 + count..]) == Out(g.text[count..], g.rest))
  {
    var count := p.from + draws[0];
    DrawCharsSelect(p.chars, count, draws[1..]);
    hide DrawChars;
    assert draws[1..][count..] == draws[1 + count..];
    assert forall i | 0 <= i < count :: draws[1..][i] == draws[1 + i];
    if p.children != [] {
      assert draws[1 + count..][0] == draws[1 + count] && draws[1 + count..][1..] == draws[2 + count..];
      var w := Repeat(p, draws).text;
      var tail := Next(p.children[draws[1 + count]], draws[2 + count..]).text;
      assert (w + tail)[count..] == tail;
    }
  }

  // ---------------------------------------------------------- it is sound

  lemma {:induction false} DrawCharsDraws(chars: seq<Byte>, count: nat, draws: seq<nat>)
    requires DrawChars(chars, count, draws).Out?
    ensures var w := DrawChars(chars, count, draws).text; |w| == count && AllIn(w, chars)
  {
    if count > 0 { DrawCharsDraws(chars, count - 1, draws[1..]); }
  }

  lemma RepeatAllowed(p: Pattern, draws: seq<nat>)
    requires Repeat(p, draws).Out?
    ensures var w := Repeat(p, draws).text; CountAllowed(p, |w|) && AllIn(w, p.chars)
  {
    if p.to > 0 {
      var count := Draw(p.to - p.from + 1, draws).value + p.from;
      DrawCharsDraws(p.chars, if count < 0 then 0 else count, draws[1..]);
    }
  }

  /** Whatever the draws, a generated string belongs to the pattern's language. */
  lemma {:induction false} NextSound(p: Pattern, draws: seq<nat>)
    requires Next(p, draws).Out?
    ensures InLanguage(p, Next(p, draws).text)
    decreases p
  {
    var head := Repeat(p, draws);
    var w := Next(p, draws).text;
    RepeatAllowed(p, draws);
    var k := |head.text|;
    assert w[..k] == head.text;
    if p.children != [] {
      var i := Draw(|p.children|, head.rest).value;
      NextSound(p.children[i], head.rest[1..]);
      assert w[k..] == Next(p.children[i], head.rest[1..]).text;
      assert InTail(p, w[k..]);
    }
    assert SplitsAt(p, w, k);
  }

  // ------------------------------------------------------- it is complete

  /** Patterns generation is meant for: no unbounded repeat, no negative count. */
  predicate Generable(p: Pattern) {
    && p.to != INT_MAX && 0 <= p.from
    && (forall i | 0 <= i < |p.children| :: Generable(p.children[i]))
  }

  /** The draws that spell `w`. */
  lemma {:induction false} SpellChars(chars: seq<Byte>, w: seq<Byte>, rest: seq<nat>) returns (draws: seq<nat>)
    requires AllIn(w, chars)
    ensures DrawChars(chars, |w|, draws) == Out(w, rest)
  {
    if w == [] {
      draws := rest;
    } else {
      var tail := SpellChars(chars, w[1..], rest);
      draws := [IndexOf(chars, w[0])] + tail;
      assert draws[1..] == tail;
      assert [w[0]] + w[1..] == w;
    }
  }

  /** Every string of the language is produced by some draws, which it uses up exactly. */
  lemma {:induction false} NextReaches(p: Pattern, w: seq<Byte>, rest: seq<nat>) returns (draws: seq<nat>)
    requires Generable(p) && InLanguage(p, w)
    ensures Next(p, draws) == Out(w, rest)
    decreases p
  {
    var k := SplitOf(p, w);
    var after := rest;
    if p.children != [] {
      var i :| 0 <= i < |p.children| && InLanguage(p.children[i], w[k..]);
      var tail := NextReaches(p.children[i], w[k..], rest);
      after := [i] + tail;
      assert after[1..] == tail;
    }
    if p.to > 0 {
      var spelt := SpellChars(p.chars, w[..k], after);
      draws := [k - p.from] + spelt;
      assert draws[1..] == spelt;
    } else {
      draws := after;
    }
    assert Repeat(p, draws) == Out(w[..k], after);
    assert w[..k] + w[k..] == w;
  }

  /** Generation and language agree; under follow-disjointness generation and matching agree. */
  lemma GeneratedIffInLanguage(p: Pattern, w: seq<Byte>)
    requires Generable(p)
    ensures InLanguage(p, w) <==> exists draws :: Next(p, draws) == Out(w, [])
    ensures WellFormed(p) && FollowDisjoint(p) ==>
              (Matches(p, w) <==> exists draws :: Next(p, draws) == Out(w, []))
  {
    if InLanguage(p, w) { var draws := NextReaches(p, w, []); }
    if draws :| Next(p, draws) == Out(w, []) { NextSound(p, draws); }
    if WellFormed(p) && FollowDisjoint(p) { FollowDisjointExact(p); }
  }
}
