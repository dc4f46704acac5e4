/** Bytes as the program sees them: on x64 a C++ `char` is signed, so byte 0xFF
    is -1 and never equals the end-of-file symbol 255. */
module Bytes {

  newtype Byte = c: int | -128 <= c < 128

  const EOFC: int := 255
  const INT_MAX: int := 0x7FFF_FFFF

  const TAB: Byte := 9
  const LF: Byte := 10
  const CR: Byte := 13
  const SPACE: Byte := 32
  const BACKSLASH: Byte := 92

  datatype Option<+T> = None | Some(value: T)

  /** `isBlanks`, on the `int` a reader returns. */
  predicate IsBlank(c: int) {
    c == LF as int || c == CR as int || c == SPACE as int || c == TAB as int
  }

  predicate IsAscii(s: string) {
    forall i | 0 <= i < |s| :: s[i] as int < 128
  }

  /** The bytes of an ASCII literal. */
  function Ascii(s: string): seq<Byte>
    requires IsAscii(s)
  {
    seq(|s|, i requires 0 <= i < |s| => s[i] as int as Byte)
  }

  predicate SortedBy<T>(s: seq<T>, key: T -> int) {
    forall i, j | 0 <= i < j < |s| :: key(s[i]) <= key(s[j])
  }

  function Insert<T>(x: T, s: seq<T>, key: T -> int): seq<T> {
    if s == [] then [x]
    else if key(x) <= key(s[0]) then [x] + s
    else [s[0]] + Insert(x, s[1..], key)
  }

  /** The sorted rearrangement, which is all `std::sort` promises. */
  function Sort<T>(s: seq<T>, key: T -> int): seq<T> {
    if s == [] then [] else Insert(s[0], Sort(s[1..], key), key)
  }

  lemma SortedPrepend<T>(x: T, s: seq<T>, key: T -> int)
    requires SortedBy(s, key) && (forall k | 0 <= k < |s| :: key(x) <= key(s[k]))
    ensures SortedBy([x] + s, key)
  {
    var r := [x] + s;
    forall i, j | 0 <= i < j < |r| ensures key(r[i]) <= key(r[j]) {
      assert r[j] == s[j - 1];
    }
  }

  lemma {:induction false} InsertKeepsSorted<T>(x: T, s: seq<T>, key: T -> int)
    requires SortedBy(s, key)
    ensures SortedBy(Insert(x, s, key), key)
    ensures multiset(Insert(x, s, key)) == multiset(s) + multiset{x}
  {
    if s == [] {
    } else if key(x) <= key(s[0]) {
      SortedPrepend(x, s, key);
    } else {
      var tail := s[1..];
      assert s == [s[0]] + tail;
      InsertKeepsSorted(x, tail, key);
      var t := Insert(x, tail, key);
      forall k | 0 <= k < |t| ensures key(s[0]) <= key(t[k]) {
        assert t[k] in multiset(t);
        assert t[k] == x || t[k] in multiset(tail);
      }
      SortedPrepend(s[0], t, key);
    }
  }

  lemma SameSize<T>(a: seq<T>, b: seq<T>)
    requires multiset(a) == multiset(b)
    ensures |a| == |b|
  {
    assert |a| == |multiset(a)| && |b| == |multiset(b)|;
  }

  lemma {:induction false} SortSorts<T>(s: seq<T>, key: T -> int)
    ensures SortedBy(Sort(s, key), key)
    ensures multiset(Sort(s, key)) == multiset(s)
    ensures |Sort(s, key)| == |s|
  {
    if s != [] {
      hide SortedBy, Insert;
      SortSorts(s[1..], key);
      InsertKeepsSorted(s[0], Sort(s[1..], key), key);
      assert s == [s[0]] + s[1..];
      SameSize(Sort(s, key), s);
    }
  }

  lemma SameMembers<T>(a: seq<T>, b: seq<T>, x: T)
    requires multiset(a) == multiset(b)
    ensures x in a <==> x in b
  {
    assert x in a <==> x in multiset(a);
    assert x in b <==> x in multiset(b);
  }

  /** Where a member stands first. */
  function IndexOf<T(==)>(s: seq<T>, x: T): (k: nat)
    requires x in s
    ensures k < |s| && s[k] == x
  {
    if s[0] == x then 0 else 1 + IndexOf(s[1..], x)
  }

  function ByteKey(c: Byte): int { c as int }

  predicate Sorted(s: seq<Byte>) { SortedBy(s, ByteKey) }

  // ------------------------------------------------------------- arithmetic

  lemma MultipleBounds(n: int, d: int)
    requires n > 0
    ensures d >= 1 ==> n * d >= n
    ensures d <= -1 ==> n * d <= -n
  {
    if d >= 1 { assert n * (d - 1) >= 0; }
    if d <= -1 { assert n * (-1 - d) >= 0; }
  }

  /** Quotient and remainder are unique. */
  lemma DivUnique(x: int, n: int, q: int, r: int)
    requires n > 0 && 0 <= r < n && x == n * q + r
    ensures x / n == q && x % n == r
  {
    var d := x / n - q;
    assert n * d == r - x % n by { assert x == n * (x / n) + x % n; assert n * d == n * (x / n) - n * q; }
    MultipleBounds(n, d);
  }
}
