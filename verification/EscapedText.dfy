/** Escaped fields and their separation by semicolons (support/testlib.h:6002-6035, 6066-6084). */
module EscapedText {
  import opened Bytes

  const SEMICOLON: Byte := 59
  const LETTER_N: Byte := 110

  function WithoutCR(s: seq<Byte>): seq<Byte> {
    if s == [] then [] else (if s[0] == CR then [] else [s[0]]) + WithoutCR(s[1..])
  }

  function EscapedByte(c: Byte): seq<Byte> {
    if c == CR then []
    else if c == LF then [BACKSLASH, LETTER_N]
    else if c == BACKSLASH || c == SEMICOLON then [BACKSLASH, c]
    else [c]
  }

  function Escaped(s: seq<Byte>): seq<Byte> {
    if s == [] then [] else EscapedByte(s[0]) + Escaped(s[1..])
  }

  /** Unknown escapes and a backslash at the end stand for themselves. */
  function Unescaped(s: seq<Byte>): seq<Byte> {
    if s == [] then []
    else if s[0] == BACKSLASH && |s| > 1 && s[1] == LETTER_N then [LF] + Unescaped(s[2..])
    else if s[0] == BACKSLASH && |s| > 1 && (s[1] == SEMICOLON || s[1] == BACKSLASH) then [s[1]] + Unescaped(s[2..])
    else [s[0]] + Unescaped(s[1..])
  }

  lemma UnescapeByte(c: Byte, s: seq<Byte>)
    ensures Unescaped(EscapedByte(c) + s) == (if c == CR then [] else [c]) + Unescaped(s)
  {
    var t := EscapedByte(c) + s;
    if c == CR {
      assert t == s;
    } else if c == LF || c == BACKSLASH || c == SEMICOLON {
      assert t[2..] == s;
    } else {
      assert t[1..] == s;
    }
  }

  /** Unescaping gives the text back, without its carriage returns. */
  lemma {:induction false} EscapeRoundTrip(s: seq<Byte>)
    ensures Unescaped(Escaped(s)) == WithoutCR(s)
  {
    if s != [] {
      EscapeRoundTrip(s[1..]);
      UnescapeByte(s[0], Escaped(s[1..]));
    }
  }

  /** Two texts have the same escaped form exactly when they differ in carriage returns only. */
  lemma EscapedSame(s: seq<Byte>, t: seq<Byte>)
    ensures Escaped(s) == Escaped(t) <==> WithoutCR(s) == WithoutCR(t)
  {
    EscapeRoundTrip(s);
    EscapeRoundTrip(t);
    EscapedWithoutCR(s);
    EscapedWithoutCR(t);
  }

  lemma {:induction false} EscapedWithoutCR(s: seq<Byte>)
    ensures Escaped(WithoutCR(s)) == Escaped(s)
  {
    if s != [] {
      EscapedWithoutCR(s[1..]);
      var w := WithoutCR(s[1..]);
      if s[0] != CR {
        assert WithoutCR(s) == [s[0]] + w && ([s[0]] + w)[1..] == w;
      } else {
        assert WithoutCR(s) == [] + w == w;
        assert Escaped(s) == [] + Escaped(s[1..]) == Escaped(s[1..]);
      }
    }
  }

  /** Carriage returns and nothing else are dropped, the rest stays in its order. */
  lemma {:induction false} WithoutCRExactly(s: seq<Byte>, c: Byte)
    ensures multiset(WithoutCR(s))[c] == if c == 13 then 0 else multiset(s)[c]
    ensures 13 !in s ==> WithoutCR(s) == s
  {
    if s != [] {
      WithoutCRExactly(s[1..], c);
      assert s == [s[0]] + s[1..];
    }
  }

  lemma EscapedCons(c: Byte, s: seq<Byte>)
    ensures Escaped([c] + s) == EscapedByte(c) + Escaped(s)
  {
    hide EscapedByte;
    assert ([c] + s)[1..] == s;
  }

  lemma {:induction false} EscapedConcat(a: seq<Byte>, b: seq<Byte>)
    ensures Escaped(a + b) == Escaped(a) + Escaped(b)
  {
    if a == [] {
      assert a + b == b;
    } else {
      hide *;
      var c, t := a[0], a[1..];
      EscapedConcat(t, b);
      EscapedCons(c, t + b);
      EscapedCons(c, t);
      Apart(a, b);
      Regrouped(EscapedByte(c), Escaped(t), Escaped(b));
    }
  }

  lemma Apart(a: seq<Byte>, b: seq<Byte>)
    requires a != []
    ensures a == [a[0]] + a[1..] && a + b == [a[0]] + (a[1..] + b)
  {
  }

  lemma Regrouped(a: seq<Byte>, b: seq<Byte>, c: seq<Byte>)
    ensures a + (b + c) == (a + b) + c
  {
  }

  /** A text is escaped byte by byte: a line feed becomes backslash and n, a carriage return
      nothing, backslash and semicolon get a backslash in front, all others stay. */
  lemma EscapedInBytes(a: seq<Byte>, c: Byte, b: seq<Byte>)
    ensures Escaped(a + [c] + b) == Escaped(a)
      + (if c == 10 then [92, 110] else if c == 13 then [] else if c in {92, 59} then [92, c] else [c])
      + Escaped(b)
  {
    var one := [c];
    assert one[1..] == [];
    assert Escaped(one) == EscapedByte(c) + [] == EscapedByte(c);
    EscapedConcat(a + one, b);
    EscapedConcat(a, one);
    hide Escaped;
  }

  /** Only backslash n, backslash semicolon and two backslashes are escapes … */
  lemma EscapesRead(c: Byte, s: seq<Byte>)
    ensures Unescaped([92, 110] + s) == [10] + Unescaped(s)
    ensures c in {59, 92} ==> Unescaped([92, c] + s) == [c] + Unescaped(s)
  {
    var n, e: seq<Byte> := [92, 110] + s, [92, c] + s;
    assert n[2..] == s && e[2..] == s;
  }

  /** … and any other backslash, also one at the end, stands for itself, like every other byte. */
  lemma OthersStay(c: Byte, s: seq<Byte>)
    requires c != 92
    ensures Unescaped([c] + s) == [c] + Unescaped(s)
    ensures c !in {110, 59} ==> Unescaped([92, c] + s) == [92] + ([c] + Unescaped(s))
    ensures Unescaped([]) == [] && Unescaped([92]) == [92]
  {
    var e, p: seq<Byte> := [92, c] + s, [c] + s;
    assert e[1..] == p && p[1..] == s;
    var last: seq<Byte> := [92];
    assert last[1..] == [];
  }

  // ------------------------------------------------------------ separation

  function WithHead(p: seq<Byte>, items: seq<seq<Byte>>): (r: seq<seq<Byte>>)
    requires items != []
    ensures |r| == |items|
  {
    [p + items[0]] + items[1..]
  }

  /** The items of a line: cut at semicolons that no backslash escapes. */
  function Items(s: seq<Byte>): (r: seq<seq<Byte>>)
    ensures r != []
  {
    if s == [] then [[]]
    else if s[0] == BACKSLASH then
      if |s| == 1 then [s] else WithHead(s[..2], Items(s[2..]))
    else if s[0] == SEMICOLON then [[]] + Items(s[1..])
    else WithHead(s[..1], Items(s[1..]))
  }

  /** An item that can stand between semicolons: escapes are complete, semicolons escaped. */
  predicate Closed(f: seq<Byte>) {
    f == [] ||
    (if f[0] == BACKSLASH then |f| > 1 && Closed(f[2..]) else f[0] != SEMICOLON && Closed(f[1..]))
  }

  lemma {:induction false} ClosedItem(f: seq<Byte>, rest: seq<Byte>)
    requires Closed(f)
    ensures Items(f + [SEMICOLON] + rest) == [f] + Items(rest)
    ensures Items(f) == [f]
  {
    var s := f + [SEMICOLON] + rest;
    if f == [] {
      assert s == [SEMICOLON] + rest && s[1..] == rest;
    } else if f[0] == BACKSLASH {
      ClosedItem(f[2..], rest);
      assert s[2..] == f[2..] + [SEMICOLON] + rest && s[..2] == f[..2];
      assert f == f[..2] + f[2..];
    } else {
      ClosedItem(f[1..], rest);
      assert s[1..] == f[1..] + [SEMICOLON] + rest && s[..1] == f[..1];
      assert f == f[..1] + f[1..];
    }
  }

  lemma {:induction false} EscapedClosed(s: seq<Byte>)
    ensures Closed(Escaped(s))
  {
    if s != [] {
      EscapedClosed(s[1..]);
      var e := Escaped(s[1..]);
      var t := EscapedByte(s[0]) + e;
      if s[0] == CR {
        assert t == e;
      } else if s[0] == LF || s[0] == BACKSLASH || s[0] == SEMICOLON {
        assert t[2..] == e;
      } else {
        assert t[1..] == e;
      }
    }
  }

  predicate Plain(s: seq<Byte>) { BACKSLASH !in s && SEMICOLON !in s && CR !in s && LF !in s }

  lemma {:induction false} PlainClosed(s: seq<Byte>)
    requires Plain(s)
    ensures Closed(s)
  {
    if s != [] { PlainClosed(s[1..]); }
  }

  /** An escaped field has neither kind of line end in it. */
  lemma {:induction false} EscapedOneLine(s: seq<Byte>)
    ensures LF !in Escaped(s) && CR !in Escaped(s)
  {
    if s != [] { EscapedOneLine(s[1..]); }
  }

  function Join(items: seq<seq<Byte>>): seq<Byte>
    requires items != []
  {
    if |items| == 1 then items[0] else items[0] + [SEMICOLON] + Join(items[1..])
  }

  /** Closed items are separated again whatever they hold. */
  lemma {:induction false} ItemsOfJoin(items: seq<seq<Byte>>)
    requires items != [] && forall i | 0 <= i < |items| :: Closed(items[i])
    ensures Items(Join(items)) == items
  {
    if |items| > 1 {
      ItemsOfJoin(items[1..]);
      ClosedItem(items[0], Join(items[1..]));
      assert items == [items[0]] + items[1..];
    } else {
      ClosedItem(items[0], []);
      assert items == [items[0]];
    }
  }

  /** Splitting loses nothing: the items joined by semicolons are the line. */
  lemma {:induction false} JoinOfItems(s: seq<Byte>)
    ensures Join(Items(s)) == s
    decreases |s|
  {
    if s != [] {
      hide Join, WithHead;
      if s[0] == BACKSLASH && |s| > 1 {
        JoinOfItems(s[2..]);
        JoinHead(s[..2], Items(s[2..]));
        assert s == s[..2] + s[2..];
      } else if s[0] == SEMICOLON {
        JoinOfItems(s[1..]);
        JoinEmpty(Items(s[1..]));
        assert s == [SEMICOLON] + s[1..];
      } else if s[0] != BACKSLASH {
        JoinOfItems(s[1..]);
        JoinHead(s[..1], Items(s[1..]));
        assert s == s[..1] + s[1..];
      } else {
        JoinOne(s);
      }
    } else {
      JoinOne(s);
    }
  }

  lemma JoinOne(s: seq<Byte>)
    ensures Join([s]) == s
  {
  }

  lemma JoinEmpty(items: seq<seq<Byte>>)
    requires items != []
    ensures Join([[]] + items) == [SEMICOLON] + Join(items)
  {
    assert ([[]] + items)[1..] == items;
  }

  /** All items are closed, except maybe the last one of a line that ends in a backslash. */
  predicate ClosedUpTo(s: seq<Byte>, items: seq<seq<Byte>>)
    requires items != []
  {
    && (forall i | 0 <= i < |items| - 1 :: Closed(items[i]))
    && (Closed(items[|items| - 1]) || (s != [] && s[|s| - 1] == 92))
  }

  lemma ClosedHead(p: seq<Byte>, s: seq<Byte>, items: seq<seq<Byte>>)
    requires items != [] && ClosedUpTo(s, items) && Closed(p + items[0]) == Closed(items[0])
    ensures ClosedUpTo(p + s, WithHead(p, items))
  {
    hide Closed;
    if s != [] { assert (p + s)[|p + s| - 1] == s[|s| - 1]; }
  }

  lemma ClosedEmpty(s: seq<Byte>, items: seq<seq<Byte>>)
    requires items != [] && ClosedUpTo(s, items)
    ensures ClosedUpTo([SEMICOLON] + s, [[]] + items)
  {
    assert Closed([]);
    hide Closed;
    if s != [] { assert ([SEMICOLON] + s)[|s|] == s[|s| - 1]; }
  }

  /** What splitting does at the front. */
  lemma ItemsFront(s: seq<Byte>)
    requires s != []
    ensures s[0] == BACKSLASH && |s| > 1 ==>
              Items(s) == WithHead([s[0], s[1]], Items(s[2..])) && s == [s[0], s[1]] + s[2..]
    ensures s[0] == SEMICOLON ==> Items(s) == [[]] + Items(s[1..]) && s == [SEMICOLON] + s[1..]
    ensures s[0] != BACKSLASH && s[0] != SEMICOLON ==>
              Items(s) == WithHead([s[0]], Items(s[1..])) && s == [s[0]] + s[1..]
  {
    assert s[..1] == [s[0]] && (|s| > 1 ==> s[..2] == [s[0], s[1]]);
    hide WithHead;
  }

  /** No item has a semicolon that is not escaped, and only a backslash at the end of the line
      leaves an escape unfinished. */
  lemma {:induction false} ItemsClosed(s: seq<Byte>)
    ensures ClosedUpTo(s, Items(s))
    decreases |s|
  {
    if |s| >= 2 || (|s| == 1 && s[0] != BACKSLASH) {
      hide *;
      ItemsFront(s);
      if s[0] == BACKSLASH {
        ItemsClosed(s[2..]);
        HeadClosed(s[0], s[1], Items(s[2..]));
        ClosedHead([s[0], s[1]], s[2..], Items(s[2..]));
      } else if s[0] == SEMICOLON {
        ItemsClosed(s[1..]);
        ClosedEmpty(s[1..], Items(s[1..]));
      } else {
        ItemsClosed(s[1..]);
        FirstClosed(s[0], Items(s[1..]));
        ClosedHead([s[0]], s[1..], Items(s[1..]));
      }
    }
  }

  lemma HeadClosed(a: Byte, b: Byte, items: seq<seq<Byte>>)
    requires a == BACKSLASH && items != []
    ensures Closed([a, b] + items[0]) == Closed(items[0])
  {
    assert ([a, b] + items[0])[2..] == items[0];
  }

  lemma FirstClosed(a: Byte, items: seq<seq<Byte>>)
    requires a != BACKSLASH && a != SEMICOLON && items != []
    ensures Closed([a] + items[0]) == Closed(items[0])
  {
    assert ([a] + items[0])[1..] == items[0];
  }

  lemma JoinHead(p: seq<Byte>, items: seq<seq<Byte>>)
    requires items != []
    ensures Join(WithHead(p, items)) == p + Join(items)
  {
    var w := WithHead(p, items);
    if |items| > 1 {
      assert w[1..] == items[1..];
      assert (p + items[0]) + [SEMICOLON] + Join(items[1..]) == p + (items[0] + [SEMICOLON] + Join(items[1..]));
    }
  }

  lemma {:induction false} JoinOneLine(items: seq<seq<Byte>>)
    requires items != [] && forall i | 0 <= i < |items| :: LF !in items[i] && CR !in items[i]
    ensures LF !in Join(items) && CR !in Join(items)
  {
    if |items| > 1 {
      JoinOneLine(items[1..]);
    }
  }

  // ------------------------------------------------------------------ loops

  lemma EscapeStep(s: seq<Byte>, i: nat, before: seq<Byte>)
    requires i < |s|
    ensures before + Escaped(s[i..]) == before + EscapedByte(s[i]) + Escaped(s[i + 1..])
  {
    assert s[i..][1..] == s[i + 1..];
  }

  /** `escapeTestResultString` */
  method EscapeTestResultString(s: seq<Byte>) returns (result: seq<Byte>)
    ensures result == Escaped(s)
  {
    result := [];
    assert s[0..] == s;
    for i := 0 to |s|
      invariant Escaped(s) == result + Escaped(s[i..])
    {
      EscapeStep(s, i, result);
      hide Escaped;
      ghost var next := result + EscapedByte(s[i]);
      if s[i] == CR {
        assert next == result;
        continue;
      }
      if s[i] == LF {
        result := result + [BACKSLASH, LETTER_N];
        continue;
      }
      ghost var was := result;
      if s[i] == BACKSLASH || s[i] == SEMICOLON {
        result := result + [BACKSLASH];
        assert was + [BACKSLASH, s[i]] == result + [s[i]];
      }
      result := result + [s[i]];
      assert result == next;
    }
  }

  lemma UnescapeStep(s: seq<Byte>, i: nat, before: seq<Byte>)
    requires i < |s|
    ensures before + Unescaped(s[i..]) ==
      if s[i] == BACKSLASH && i + 1 < |s| && s[i + 1] == LETTER_N then before + [LF] + Unescaped(s[i + 2..])
      else if s[i] == BACKSLASH && i + 1 < |s| && (s[i + 1] == SEMICOLON || s[i + 1] == BACKSLASH)
      then before + [s[i + 1]] + Unescaped(s[i + 2..])
      else before + [s[i]] + Unescaped(s[i + 1..])
  {
    var rest := s[i..];
    assert rest[1..] == s[i + 1..] && (i + 1 < |s| ==> rest[2..] == s[i + 2..]);
  }

  /** `unescapeTestResultString` */
  method UnescapeTestResultString(s: seq<Byte>) returns (result: seq<Byte>)
    ensures result == Unescaped(s)
  {
    result := [];
    var i := 0;
    assert s[0..] == s;
    while i < |s|
      invariant i <= |s| && Unescaped(s) == result + Unescaped(s[i..])
    {
      UnescapeStep(s, i, result);
      hide Unescaped;
      if s[i] == BACKSLASH && i + 1 < |s| {
        if s[i + 1] == LETTER_N {
          result := result + [LF];
          i := i + 2;
          continue;
        } else if s[i + 1] == SEMICOLON || s[i + 1] == BACKSLASH {
          result := result + [s[i + 1]];
          i := i + 2;
          continue;
        }
      }
      result := result + [s[i]];
      i := i + 1;
    }
  }

  /** The items still to come, the first one begun as `t`. */
  function Later(t: seq<Byte>, s: seq<Byte>, i: nat): seq<seq<Byte>> {
    WithHead(t, if i <= |s| then Items(s[i..]) else [[]])
  }

  lemma LaterStep(items: seq<seq<Byte>>, t: seq<Byte>, s: seq<Byte>, i: nat)
    requires i < |s|
    ensures items + Later(t, s, i) ==
      if s[i] == BACKSLASH then items + Later(if i + 1 < |s| then t + [s[i]] + [s[i + 1]] else t + [s[i]], s, i + 2)
      else if s[i] == SEMICOLON then (items + [t]) + Later([], s, i + 1)
      else items + Later(t + [s[i]], s, i + 1)
  {
    var rest := s[i..];
    assert rest[..1] == [s[i]] && rest[1..] == s[i + 1..];
    if s[i] == BACKSLASH {
      if i + 1 < |s| {
        assert rest[2..] == s[i + 2..] && rest[..2] == [s[i], s[i + 1]];
        var x := Items(s[i + 2..]);
        assert t + ([s[i], s[i + 1]] + x[0]) == (t + [s[i]] + [s[i + 1]]) + x[0];
      } else {
        assert rest == [s[i]];
        assert (t + [s[i]]) + [] == t + [s[i]];
      }
    } else if s[i] == SEMICOLON {
      var x := Items(s[i + 1..]);
      assert t + [] == t && [] + x[0] == x[0] && x == [x[0]] + x[1..];
      assert Items(rest) == [[]] + x && ([[]] + x)[1..] == x;
    } else {
      var x := Items(s[i + 1..]);
      assert t + ([s[i]] + x[0]) == (t + [s[i]]) + x[0];
    }
  }

  lemma LaterEnds(items: seq<seq<Byte>>, t: seq<Byte>, s: seq<Byte>, i: nat)
    requires i >= |s|
    ensures items + Later(t, s, i) == items + [t]
  {
    assert i == |s| ==> s[i..] == [];
    assert t + [] == t;
  }

  lemma LaterStarts(s: seq<Byte>)
    ensures [] + Later([], s, 0) == Items(s)
  {
    var x := Items(s);
    assert s[0..] == s && [] + x[0] == x[0] && x == [x[0]] + x[1..];
  }

  /** The first loop of `deserializeTestResult`. */
  method Split(s: seq<Byte>) returns (items: seq<seq<Byte>>)
    ensures items == Items(s)
  {
    hide Later, Items;
    items := [];
    var t: seq<Byte> := [];
    var i := 0;
    LaterStarts(s);
    while i < |s|
      invariant i <= |s| + 1 && Items(s) == items + Later(t, s, i)
      decreases |s| + 1 - i
    {
      LaterStep(items, t, s, i);
      if s[i] == BACKSLASH {
        t := t + [s[i]];
        if i + 1 < |s| {
          t := t + [s[i + 1]];
        }
        i := i + 2;
        continue;
      } else {
        if s[i] == SEMICOLON {
          items := items + [t];
          t := [];
        } else {
          t := t + [s[i]];
        }
      }
      i := i + 1;
    }
    LaterEnds(items, t, s, i);
    items := items + [t];
  }
}
