/** Test result records as lines of text (support/testlib.h:5908-6116). Points are the exact
    real that the `double` holds; `sscanf` reads decimals without exponents. */
module TestResults {
  import opened Bytes
  import opened Decimal
  import opened PlainDecimals
  import opened EscapedText
  import opened LineText

  datatype Verdict =
    | Skipped | Accepted | WrongAnswer | RuntimeError | TimeLimitExceeded | IdlenessLimitExceeded
    | MemoryLimitExceeded | CompilationError | Crashed | Failed

  /** A `double`: not a number, or a sign and a magnitude. */
  datatype Points = NoPoints | Points(minus: bool, size: real)

  datatype TestResult = TestResult(
    testIndex: int, testset: seq<Byte>, group: seq<Byte>, verdict: Verdict, points: Points,
    timeConsumed: int, memoryConsumed: int, input: seq<Byte>, output: seq<Byte>, answer: seq<Byte>,
    exitCode: int, checkerComment: seq<Byte>)

  /** The field types of the program. */
  predicate Typed(tr: TestResult) {
    && IsInt32(tr.testIndex) && IsInt64(tr.timeConsumed) && IsInt64(tr.memoryConsumed) && IsInt32(tr.exitCode)
    && (tr.points.Points? ==> tr.points.size >= 0.0)
  }

  // --------------------------------------------------------------- verdicts

  /** Capital letters and underscores. */
  predicate Upper(s: string) { forall i | 0 <= i < |s| :: 'A' <= s[i] <= '_' && s[i] != '\\' }

  function Name(v: Verdict): string {
    match v
    case Skipped => "SKIPPED"
    case Accepted => "OK"
    case WrongAnswer => "WRONG_ANSWER"
    case RuntimeError => "RUNTIME_ERROR"
    case TimeLimitExceeded => "TIME_LIMIT_EXCEEDED"
    case IdlenessLimitExceeded => "IDLENESS_LIMIT_EXCEEDED"
    case MemoryLimitExceeded => "MEMORY_LIMIT_EXCEEDED"
    case CompilationError => "COMPILATION_ERROR"
    case Crashed => "CRASHED"
    case Failed => "FAILED"
  }

  lemma ShortNames(v: Verdict)
    ensures |Name(v)| <= 13 ==> Upper(Name(v)) && Name(v) != []
  {
  }

  lemma LongNames(v: Verdict)
    ensures |Name(v)| > 13 ==> Upper(Name(v))
  {
  }

  lemma NameUpper(v: Verdict)
    ensures Upper(Name(v)) && Name(v) != []
  {
    ShortNames(v);
    LongNames(v);
    hide Name, Upper;
  }

  function SerializeVerdict(v: Verdict): seq<Byte> {
    NameUpper(v);
    Ascii(Name(v))
  }

  function DeserializeVerdict(s: seq<Byte>): Option<Verdict> {
    if s == SerializeVerdict(Skipped) then Some(Skipped)
    else if s == SerializeVerdict(Accepted) then Some(Accepted)
    else if s == SerializeVerdict(WrongAnswer) then Some(WrongAnswer)
    else if s == SerializeVerdict(RuntimeError) then Some(RuntimeError)
    else if s == SerializeVerdict(TimeLimitExceeded) then Some(TimeLimitExceeded)
    else if s == SerializeVerdict(IdlenessLimitExceeded) then Some(IdlenessLimitExceeded)
    else if s == SerializeVerdict(MemoryLimitExceeded) then Some(MemoryLimitExceeded)
    else if s == SerializeVerdict(CompilationError) then Some(CompilationError)
    else if s == SerializeVerdict(Crashed) then Some(Crashed)
    else if s == SerializeVerdict(Failed) then Some(Failed)
    else None
  }

  lemma NamesDiffer(v: Verdict, w: Verdict)
    requires SerializeVerdict(v) == SerializeVerdict(w)
    ensures v == w
  {
    var a, b := Name(v), Name(w);
    NameUpper(v);
    NameUpper(w);
    assert |Ascii(a)| == |a| && |Ascii(b)| == |b|;
    assert Ascii(a)[0] == a[0] as int as Byte && Ascii(b)[0] == b[0] as int as Byte;
    hide Ascii;
  }

  lemma VerdictPlain(v: Verdict)
    ensures Plain(SerializeVerdict(v)) && SerializeVerdict(v) != []
  {
    var a := Name(v);
    NameUpper(v);
    hide Name;
    var s := Ascii(a);
    forall i | 0 <= i < |s| ensures 65 <= s[i] <= 95 && s[i] != BACKSLASH { assert s[i] == a[i] as int as Byte; }
  }

  /** Names and verdicts correspond one to one. */
  lemma VerdictRoundTrip(v: Verdict, s: seq<Byte>)
    ensures DeserializeVerdict(s) == Some(v) <==> s == SerializeVerdict(v)
  {
    hide SerializeVerdict;
    if s == SerializeVerdict(v) {
      assert DeserializeVerdict(s).Some?;
      NamesDiffer(v, DeserializeVerdict(s).value);
    }
  }

  // ----------------------------------------------------------------- points

  /** The nearest integer, the even one of two. */
  function Nearest(x: real): int {
    var f := x.Floor;
    var d := x - f as real;
    if d < 0.5 || (d == 0.5 && f % 2 == 0) then f else f + 1
  }

  function ThreeDigits(r: nat): seq<Byte>
    requires r < 1000
  {
    [DigitChar(r / 100), DigitChar(r / 10 % 10), DigitChar(r % 10)]
  }

  /** What is printed: the sign, the whole part and three decimals. */
  function Sign(minus: bool): seq<Byte> { if minus then [MINUS] else [] }

  function Thousandths(p: Points): nat
    requires p.Points? && p.size >= 0.0
  {
    Nearest(p.size * 1000.0)
  }

  function WholeText(p: Points): seq<Byte>
    requires p.Points? && p.size >= 0.0
  {
    NatText(Thousandths(p) / 1000)
  }

  function FractionText(p: Points): seq<Byte>
    requires p.Points? && p.size >= 0.0
  {
    ThreeDigits(Thousandths(p) % 1000)
  }

  const BUFFER: nat := 63

  /** `serializePoints`: the buffer holds 63 characters. */
  function SerializePoints(p: Points): seq<Byte>
    requires p.Points? ==> p.size >= 0.0
  {
    if p.NoPoints? then []
    else
      var text := Sign(p.minus) + Joined(WholeText(p), FractionText(p));
      if |text| > BUFFER then text[..BUFFER] else text
  }

  function BehindPoint(rest: seq<Byte>): (f: seq<Byte>)
    ensures AllDigits(f)
  {
    if rest != [] && rest[0] == POINT then DigitRun(rest[1..]) else []
  }

  /** Digits, and maybe a point and digits, with at least one digit. */
  function ParseUnsigned(minus: bool, u: seq<Byte>): Option<Points> {
    var w := DigitRun(u);
    DigitRunPrefix(u);
    var f := BehindPoint(u[|w|..]);
    if w == [] && f == [] then None else Some(Points(minus, WholeValue(w) + FractionValue(f)))
  }

  /** `deserializePoints` */
  function DeserializePoints(s: seq<Byte>): Option<Points> {
    if s == [] then Some(NoPoints)
    else
      var t := DropSpaces(s);
      if t != [] && (t[0] == MINUS || t[0] == PLUS) then ParseUnsigned(t[0] == MINUS, t[1..])
      else ParseUnsigned(false, t)
  }

  lemma {:induction false} DigitRunPrefix(u: seq<Byte>)
    ensures DigitRun(u) <= u
  {
    if u != [] && IsDigit(u[0]) { DigitRunPrefix(u[1..]); }
  }

  lemma {:induction false} DigitRunStops(w: seq<Byte>, rest: seq<Byte>)
    requires AllDigits(w) && (rest != [] ==> !IsDigit(rest[0]))
    ensures DigitRun(w + rest) == w
  {
    if w == [] {
      assert w + rest == rest;
    } else {
      DigitRunStops(w[1..], rest);
      assert (w + rest)[1..] == w[1..] + rest;
    }
  }

  /** The points at the printed precision. */
  function Rounded(p: Points): Points
    requires p.Points? ==> p.size >= 0.0
  {
    if p.NoPoints? then p else Points(p.minus, Thousandths(p) as real / 1000.0)
  }

  lemma NearestWithin(x: real)
    ensures -0.5 <= Nearest(x) as real - x <= 0.5
  {
  }

  lemma RoundedNear(p: Points)
    requires p.Points? && p.size >= 0.0
    ensures -0.0005 <= Rounded(p).size - p.size <= 0.0005
    ensures Rounded(Rounded(p)) == Rounded(p)
  {
    var k := Thousandths(p);
    assert (k as real / 1000.0) * 1000.0 == k as real;
    assert Nearest(k as real) == k;
    NearestWithin(p.size * 1000.0);
    hide Nearest;
  }

  predicate AllZeros(s: seq<Byte>) { forall i | 0 <= i < |s| :: s[i] == ZERO }

  /** The room for digits beside the sign. */
  function Room(p: Points): nat
    requires p.Points?
  {
    if p.minus then BUFFER - 1 else BUFFER
  }

  /** The last decimal that the buffer still holds, in thousandths, for a number with this
      whole part. */
  function LastPlace(whole: nat, room: nat): (r: nat)
    requires room >= 4
    ensures r > 0
  {
    if whole < Pow10(room - 4) then 1
    else if whole < Pow10(room - 3) then 10
    else if whole < Pow10(room - 2) then 100
    else 1000
  }

  /** The whole part fits the buffer, and no thousandths stand behind the last place left. */
  predicate Fits(p: Points)
    requires p.Points? ==> p.size >= 0.0
  {
    p.NoPoints? ||
    (var k := Thousandths(p);
     k / 1000 < Pow10(Room(p)) && k % LastPlace(k / 1000, Room(p)) == 0)
  }

  /** The part of the decimals that the buffer still holds. */
  function Kept(p: Points): nat
    requires p.Points? && p.size >= 0.0
  {
    var room := BUFFER - |Sign(p.minus)| - |WholeText(p)| - 1;
    if room < 0 then 0 else if room > 3 then 3 else room
  }

  /** The same seen on the printed text. */
  predicate TextFits(p: Points)
    requires p.Points? && p.size >= 0.0
  {
    |Sign(p.minus)| + |WholeText(p)| <= BUFFER && AllZeros(FractionText(p)[Kept(p)..])
  }

  // ---------------------------------------------------------------- records

  function Stoi(s: seq<Byte>): Option<int> {
    match ScanInt(s)
    case Some(v) => if IsInt32(v) then Some(v) else None
    case None => None
  }

  /** The twelve fields of a line. */
  function Fields(tr: TestResult): (r: seq<seq<Byte>>)
    requires Typed(tr)
    ensures |r| == 12
  {
    [IntText(tr.testIndex), Escaped(tr.testset), Escaped(tr.group), SerializeVerdict(tr.verdict),
     SerializePoints(tr.points), IntText(tr.timeConsumed), IntText(tr.memoryConsumed), Escaped(tr.input),
     Escaped(tr.output), Escaped(tr.answer), IntText(tr.exitCode), Escaped(tr.checkerComment)]
  }

  function Serialize(tr: TestResult): seq<Byte>
    requires Typed(tr)
  {
    Join(Fields(tr))
  }

  /** A record from its fields; None when the program fails. */
  function FromItems(items: seq<seq<Byte>>): Option<TestResult> {
    if |items| != 12 then None
    else
      var index, verdict, points := Stoi(items[0]), DeserializeVerdict(items[3]), DeserializePoints(items[4]);
      var time, memory, code := Stoll(items[5]), Stoll(items[6]), Stoi(items[10]);
      if index.None? || verdict.None? || points.None? || time.None? || memory.None? || code.None? then None
      else Some(TestResult(index.value, Unescaped(items[1]), Unescaped(items[2]), verdict.value, points.value,
                           time.value, memory.value, Unescaped(items[7]), Unescaped(items[8]), Unescaped(items[9]),
                           code.value, Unescaped(items[11])))
  }

  function Deserialize(s: seq<Byte>): Option<TestResult> { FromItems(Items(s)) }

  /** What comes back: no carriage returns in the texts, points as printed. */
  function Cleaned(tr: TestResult): TestResult
    requires Typed(tr)
  {
    tr.(testset := WithoutCR(tr.testset), group := WithoutCR(tr.group), points := Rounded(tr.points),
        input := WithoutCR(tr.input), output := WithoutCR(tr.output), answer := WithoutCR(tr.answer),
        checkerComment := WithoutCR(tr.checkerComment))
  }

  // ------------------------------------------------------ points round trip

  lemma ThreeValue(r: nat)
    requires r < 1000
    ensures AllDigits(ThreeDigits(r)) && FractionValue(ThreeDigits(r)) == r as real / 1000.0
  {
    var s := ThreeDigits(r);
    assert s[1..][1..] == [s[2]] && s[1..][1..][1..] == [];
    var a, b, c := r / 100, r / 10 % 10, r % 10;
    assert r == 100 * a + 10 * b + c;
    assert Digit(s[0]) == a as real && Digit(s[1]) == b as real && Digit(s[2]) == c as real;
    assert FractionValue(s[1..][1..]) == c as real / 10.0;
    assert FractionValue(s[1..]) == (b as real + c as real / 10.0) / 10.0;
  }

  /** Whole and decimal digits denote the rounded size. */
  lemma PrintedValue(p: Points)
    requires p.Points? && p.size >= 0.0
    ensures AllDigits(WholeText(p)) && WholeText(p) != [] && (|WholeText(p)| > 1 ==> WholeText(p)[0] != ZERO)
    ensures AllDigits(FractionText(p)) && |FractionText(p)| == 3
    ensures WholeValue(WholeText(p)) + FractionValue(FractionText(p)) == Rounded(p).size
  {
    var k := Thousandths(p);
    NatTextShape(k / 1000);
    ThreeValue(k % 1000);
    assert k == 1000 * (k / 1000) + k % 1000;
    if k / 1000 == 0 { assert |NatText(0)| == 1; }
  }

  lemma ReadSign(minus: bool, u: seq<Byte>)
    requires u != [] && IsDigit(u[0])
    ensures DeserializePoints(Sign(minus) + u) == ParseUnsigned(minus, u)
  {
    var s := Sign(minus) + u;
    assert if minus then s[1..] == u && s[0] == MINUS else s == u;
    assert DropSpaces(s) == s;
    hide ParseUnsigned;
  }

  lemma ReadUnsigned(minus: bool, w: seq<Byte>, rest: seq<Byte>)
    requires AllDigits(w) && w != [] && (rest != [] ==> !IsDigit(rest[0]))
    ensures DeserializePoints(Sign(minus) + (w + rest)) ==
            Some(Points(minus, WholeValue(w) + FractionValue(BehindPoint(rest))))
  {
    hide *;
    FrontOf(w, rest);
    ReadSign(minus, w + rest);
    ParseDigits(minus, w, rest);
  }

  lemma FrontOf(w: seq<Byte>, rest: seq<Byte>)
    requires AllDigits(w) && w != []
    ensures IsDigit((w + rest)[0])
  {
  }

  lemma ParseDigits(minus: bool, w: seq<Byte>, rest: seq<Byte>)
    requires AllDigits(w) && w != [] && (rest != [] ==> !IsDigit(rest[0]))
    ensures ParseUnsigned(minus, w + rest) == Some(Points(minus, WholeValue(w) + FractionValue(BehindPoint(rest))))
  {
    DigitRunStops(w, rest);
    hide DigitRun, FractionValue, DigitsValue, BehindPoint;
    assert (w + rest)[|w|..] == rest;
  }

  lemma ReadWhole(minus: bool, w: seq<Byte>)
    requires AllDigits(w) && w != []
    ensures DeserializePoints(Sign(minus) + w) == Some(Points(minus, WholeValue(w)))
  {
    ReadUnsigned(minus, w, []);
    assert w + [] == w;
    hide DeserializePoints;
  }

  /** Reading a sign, digits, a point and digits. */
  lemma ReadPrinted(minus: bool, w: seq<Byte>, f: seq<Byte>)
    requires AllDigits(w) && w != [] && AllDigits(f)
    ensures DeserializePoints(Sign(minus) + Joined(w, f)) == Some(Points(minus, WholeValue(w) + FractionValue(f)))
  {
    hide *;
    PointThenDigits(f);
    JoinedAs(w, f);
    ReadUnsigned(minus, w, [POINT] + f);
  }

  lemma JoinedAs(w: seq<Byte>, f: seq<Byte>)
    ensures Joined(w, f) == w + ([POINT] + f)
  {
  }

  lemma PointThenDigits(f: seq<Byte>)
    requires AllDigits(f)
    ensures var rest := [POINT] + f; rest != [] && !IsDigit(rest[0]) && BehindPoint(rest) == f
  {
    DigitRunAll(f);
    assert ([POINT] + f)[1..] == f;
  }

  lemma {:induction false} PrefixSmaller(w: seq<Byte>, k: nat)
    requires AllDigits(w) && 1 <= k < |w| && w[0] != ZERO
    ensures DigitsValue(w[..k]) < DigitsValue(w)
  {
    var v := w[..|w| - 1];
    LeadingDigitPositive(v);
    if k < |v| {
      PrefixSmaller(v, k);
      assert v[..k] == w[..k];
    } else {
      assert w[..k] == v;
    }
  }

  lemma {:induction false} FractionSum(a: seq<Byte>, b: seq<Byte>)
    requires AllDigits(b)
    ensures FractionValue(a + b) >= FractionValue(a)
    ensures FractionValue(a + b) == FractionValue(a) <==> AllZeros(b)
  {
    if a == [] {
      assert a + b == b;
      ZeroFraction(b);
    } else {
      FractionSum(a[1..], b);
      assert (a + b)[1..] == a[1..] + b;
    }
  }

  lemma {:induction false} ZeroFraction(b: seq<Byte>)
    requires AllDigits(b)
    ensures FractionValue(b) >= 0.0
    ensures FractionValue(b) == 0.0 <==> AllZeros(b)
  {
    if b != [] {
      ZeroFraction(b[1..]);
      assert b == [b[0]] + b[1..];
    }
  }

  lemma {:induction false} NatTextLengthExact(n: nat, k: nat)
    requires k >= 1
    ensures |NatText(n)| <= k <==> n < Pow10(k)
    decreases k
  {
    if n >= 10 {
      NatTextShape(n / 10);
      if k > 1 { NatTextLengthExact(n / 10, k - 1); } else { assert Pow10(0) == 1; }
    }
  }

  /** The place of the last of `i` decimals, in thousandths. */
  function PlaceOf(i: nat): (r: nat)
    requires i <= 3
    ensures r > 0
  {
    if i == 3 then 1 else if i == 2 then 10 else if i == 1 then 100 else 1000
  }

  lemma ZeroPlaces(r: nat, a: nat, b: nat, c: nat)
    requires a < 10 && b < 10 && c < 10 && r == 100 * a + 10 * b + c
    ensures r % 10 == 0 <==> c == 0
    ensures r % 100 == 0 <==> b == 0 && c == 0
    ensures r == 0 <==> a == 0 && b == 0 && c == 0
  {
    assert r % 100 == 10 * b + c;
  }

  lemma PlaceOfThousand(k: nat)
    ensures k % 10 == k % 1000 % 10 && k % 100 == k % 1000 % 100
  {
    var q, r := k / 1000, k % 1000;
    DivUnique(k, 10, 100 * q + r / 10, r % 10);
    DivUnique(k, 100, 10 * q + r / 100, r % 100);
  }

  /** The decimals behind the `i`-th are zero when its place divides. */
  lemma ZeroDigits(k: nat, i: nat)
    requires i <= 3
    ensures AllZeros(ThreeDigits(k % 1000)[i..]) <==> k % PlaceOf(i) == 0
  {
    var r := k % 1000;
    PlaceOfThousand(k);
    ZeroPlaces(r, r / 100, r / 10 % 10, r % 10);
    var s := ThreeDigits(r);
    var t := s[i..];
    assert (s[0] == ZERO <==> r / 100 == 0) && (s[1] == ZERO <==> r / 10 % 10 == 0) && (s[2] == ZERO <==> r % 10 == 0);
    hide ThreeDigits;
    assert AllZeros(t) <==> forall j | i <= j < 3 :: s[j] == ZERO by {
      if AllZeros(t) { forall j | i <= j < 3 ensures s[j] == ZERO { assert t[j - i] == s[j]; } }
    }
  }

  lemma LastPlaceKept(p: Points)
    requires p.Points? && p.size >= 0.0
    ensures var whole := Thousandths(p) / 1000;
      && (|WholeText(p)| <= Room(p) <==> whole < Pow10(Room(p)))
      && (|WholeText(p)| <= Room(p) ==> LastPlace(whole, Room(p)) == PlaceOf(Kept(p)))
  {
    var room := Room(p);
    assert room == BUFFER - |Sign(p.minus)|;
    hide Pow10, NatText, Thousandths, Sign, Room;
    PlaceByLength(Thousandths(p) / 1000, room);
  }

  lemma PlaceByLength(whole: nat, room: nat)
    requires room > 4
    ensures var d := |NatText(whole)|;
      && (d <= room <==> whole < Pow10(room))
      && LastPlace(whole, room) ==
           if d <= room - 4 then 1 else if d <= room - 3 then 10 else if d <= room - 2 then 100 else 1000
  {
    NatTextLengthExact(whole, room);
    NatTextLengthExact(whole, room - 2);
    NatTextLengthExact(whole, room - 3);
    NatTextLengthExact(whole, room - 4);
    hide Pow10, NatText;
  }

  lemma FitsText(p: Points)
    requires p.Points? && p.size >= 0.0
    ensures Fits(p) <==> TextFits(p)
  {
    LastPlaceKept(p);
    ZeroDigits(Thousandths(p), Kept(p));
    hide Pow10, WholeText, Thousandths, ThreeDigits, AllZeros, LastPlace, PlaceOf, Kept;
  }

  /** Points come back at their printed precision exactly when they fit the print buffer. */
  lemma PointsRoundTrip(p: Points)
    requires p.Points? ==> p.size >= 0.0
    ensures DeserializePoints(SerializePoints(p)).Some?
    ensures DeserializePoints(SerializePoints(p)) == Some(Rounded(p)) <==> Fits(p)
  {
    if p.Points? {
      PrintedValue(p);
      FitsText(p);
      hide Rounded, WholeText, FractionText, DeserializePoints, FractionValue, Fits, TextFits;
      PointsCut(p, WholeText(p), FractionText(p));
    }
  }

  lemma PointsCut(p: Points, w: seq<Byte>, f: seq<Byte>)
    requires p.Points? && p.size >= 0.0 && w == WholeText(p) && f == FractionText(p)
    requires AllDigits(w) && w != [] && (|w| > 1 ==> w[0] != ZERO) && AllDigits(f) && |f| == 3
    requires WholeValue(w) + FractionValue(f) == Rounded(p).size
    ensures DeserializePoints(SerializePoints(p)).Some?
    ensures DeserializePoints(SerializePoints(p)) == Some(Rounded(p)) <==> TextFits(p)
  {
    hide WholeText, FractionText, DeserializePoints, FractionValue, DigitsValue, Thousandths;
    var sign := Sign(p.minus);
    var text := sign + Joined(w, f);
    var head := |sign| + |w|;
    if head > BUFFER {
      var v := w[..BUFFER - |sign|];
      assert text[..BUFFER] == sign + v;
      ReadWhole(p.minus, v);
      PrefixSmaller(w, |v|);
      ZeroFraction(f);
    } else {
      var g, h := f[..Kept(p)], f[Kept(p)..];
      assert f == g + h;
      FractionSum(g, h);
      ReadPrinted(p.minus, w, g);
      ReadWhole(p.minus, w);
      if head == BUFFER {
        assert text[..BUFFER] == sign + w && g == [];
        ZeroFraction(f);
      } else {
        assert SerializePoints(p) == sign + Joined(w, g);
      }
    }
  }

  lemma {:induction false} PowerSum(a: nat, b: nat)
    ensures Pow10(a + b) == Pow10(a) * Pow10(b)
  {
    if a > 0 { PowerSum(a - 1, b); }
  }

  lemma PowerOfTen63()
    ensures Pow10(63) == 1000000000000000000000000000000000000000000000000000000000000000
  {
    SevenZeros();
    hide Pow10;
    PowerSum(7, 7);
    PowerSum(14, 7);
    PowerSum(21, 21);
    PowerSum(42, 21);
  }

  lemma SevenZeros()
    ensures Pow10(7) == 10000000
  {
    assert Pow10(3) == 1000;
  }

  /** The failing case exists: two to the 210, which a `double` holds, has 64 digits before
      the point, and does not come back. */
  lemma HugePointsLost()
    ensures var p := Points(false, 1645504557321206042154969182557350504982735865633579863348609024.0);
      !Fits(p) && DeserializePoints(SerializePoints(p)) != Some(Rounded(p))
  {
    var p := Points(false, 1645504557321206042154969182557350504982735865633579863348609024.0);
    PowerOfTen63();
    PointsRoundTrip(p);
  }

  // ----------------------------------------------------- records round trip

  lemma {:induction false} DigitsPlain(s: seq<Byte>)
    requires forall i | 0 <= i < |s| :: IsDigit(s[i]) || s[i] == MINUS || s[i] == POINT
    ensures Plain(s)
  {
  }

  lemma IntTextPlain(v: int)
    ensures Plain(IntText(v)) && IntText(v) != []
  {
    NatTextShape(if v < 0 then -v else v);
    hide NatText;
    DigitsPlain(IntText(v));
  }

  lemma PointsPlain(p: Points)
    requires p.Points? ==> p.size >= 0.0
    ensures Plain(SerializePoints(p))
  {
    if p.Points? {
      PrintedValue(p);
      hide WholeText, FractionText;
      DigitsPlain(SerializePoints(p));
    }
  }

  lemma ScanIntText(v: int)
    ensures ScanInt(IntText(v)) == Some(v)
  {
    var n := if v < 0 then -v else v;
    NatTextShape(n);
    var d := NatText(n);
    var s := IntText(v);
    assert IsDigit(d[0]);
    assert DropSpaces(s) == s && (v < 0 ==> s[1..] == d);
    DigitRunAll(d);
    hide NatText, DigitRun, DropSpaces;
  }

  predicate SafeItem(f: seq<Byte>) { Closed(f) && LF !in f && CR !in f }

  lemma PlainSafe(f: seq<Byte>)
    requires Plain(f)
    ensures SafeItem(f)
  {
    PlainClosed(f);
  }

  lemma EscapedSafe(s: seq<Byte>)
    ensures SafeItem(Escaped(s))
  {
    EscapedClosed(s);
    EscapedOneLine(s);
  }

  /** Every field stands safely between semicolons and on one line. */
  lemma FieldsSafe(tr: TestResult)
    requires Typed(tr)
    ensures forall i | 0 <= i < 12 :: SafeItem(Fields(tr)[i])
  {
    IntTextPlain(tr.testIndex);
    IntTextPlain(tr.timeConsumed);
    IntTextPlain(tr.memoryConsumed);
    IntTextPlain(tr.exitCode);
    VerdictPlain(tr.verdict);
    PointsPlain(tr.points);
    hide Plain, SafeItem, IntText, Escaped, SerializePoints, SerializeVerdict;
    EscapedSafe(tr.testset);
    EscapedSafe(tr.group);
    EscapedSafe(tr.input);
    EscapedSafe(tr.output);
    EscapedSafe(tr.answer);
    EscapedSafe(tr.checkerComment);
    PlainSafe(IntText(tr.testIndex));
    PlainSafe(IntText(tr.timeConsumed));
    PlainSafe(IntText(tr.memoryConsumed));
    PlainSafe(IntText(tr.exitCode));
    PlainSafe(SerializeVerdict(tr.verdict));
    PlainSafe(SerializePoints(tr.points));
  }

  /** A line splits into exactly its twelve fields, and is one non-empty line. */
  lemma LineShape(tr: TestResult)
    requires Typed(tr)
    ensures Items(Serialize(tr)) == Fields(tr) && |Items(Serialize(tr))| == 12
    ensures LF !in Serialize(tr) && CR !in Serialize(tr) && Serialize(tr) != []
  {
    FieldsSafe(tr);
    var fields := Fields(tr);
    hide Fields;
    forall i | 0 <= i < |fields| ensures Closed(fields[i]) && LF !in fields[i] && CR !in fields[i] {
      assert SafeItem(fields[i]);
    }
    ItemsOfJoin(fields);
    JoinOneLine(fields);
  }

  lemma FieldsRead(tr: TestResult)
    requires Typed(tr)
    ensures Stoi(IntText(tr.testIndex)) == Some(tr.testIndex) && Stoi(IntText(tr.exitCode)) == Some(tr.exitCode)
    ensures Stoll(IntText(tr.timeConsumed)) == Some(tr.timeConsumed)
    ensures Stoll(IntText(tr.memoryConsumed)) == Some(tr.memoryConsumed)
    ensures DeserializeVerdict(SerializeVerdict(tr.verdict)) == Some(tr.verdict)
  {
    ScanIntText(tr.testIndex);
    ScanIntText(tr.exitCode);
    ScanIntText(tr.timeConsumed);
    ScanIntText(tr.memoryConsumed);
    VerdictRoundTrip(tr.verdict, SerializeVerdict(tr.verdict));
  }

  /** A record comes back with only carriage returns removed from its texts and its points
      at their printed precision, exactly when the points fit the print buffer. */
  lemma RecordRoundTrip(tr: TestResult)
    requires Typed(tr)
    ensures Deserialize(Serialize(tr)).Some?
    ensures Deserialize(Serialize(tr)) == Some(Cleaned(tr)) <==> Fits(tr.points)
  {
    LineShape(tr);
    FieldsRead(tr);
    PointsRoundTrip(tr.points);
    EscapeRoundTrip(tr.testset);
    EscapeRoundTrip(tr.group);
    EscapeRoundTrip(tr.input);
    EscapeRoundTrip(tr.output);
    EscapeRoundTrip(tr.answer);
    EscapeRoundTrip(tr.checkerComment);
    hide Items, Serialize, Stoi, Stoll, DeserializePoints, DeserializeVerdict, SerializePoints, SerializeVerdict;
    hide Escaped, Unescaped, WithoutCR, IntText, Rounded, Fits;
  }

  // ------------------------------------------------------------------ files

  /** The lines that `getline` delivers. */
  function GetLines(t: seq<Byte>): seq<seq<Byte>>
    decreases |t|
  {
    if t == [] then []
    else if OneLine(t) then [t]
    else [FirstPiece(t)] + GetLines(t[|FirstPiece(t)| + 1..])
  }

  /** The records on the non-empty lines; None when one of them fails. */
  function ParseLines(lines: seq<seq<Byte>>): Option<seq<TestResult>> {
    if lines == [] then Some([])
    else if lines[0] == [] then ParseLines(lines[1..])
    else
      var tr, rest := Deserialize(lines[0]), ParseLines(lines[1..]);
      if tr.None? || rest.None? then None else Some([tr.value] + rest.value)
  }

  predicate AllTyped(trs: seq<TestResult>) { forall i | 0 <= i < |trs| :: Typed(trs[i]) }

  predicate AllFit(trs: seq<TestResult>)
    requires AllTyped(trs)
  {
    forall i | 0 <= i < |trs| :: Fits(trs[i].points)
  }

  /** One line for each record. */
  function FileOf(trs: seq<TestResult>): seq<Byte>
    requires AllTyped(trs)
  {
    if trs == [] then [] else Serialize(trs[0]) + [LF] + FileOf(trs[1..])
  }

  function CleanedAll(trs: seq<TestResult>): seq<TestResult>
    requires AllTyped(trs)
  {
    if trs == [] then [] else [Cleaned(trs[0])] + CleanedAll(trs[1..])
  }

  lemma {:induction false} PieceOf(line: seq<Byte>, rest: seq<Byte>)
    requires LF !in line
    ensures FirstPiece(line + [LF] + rest) == line && !OneLine(line + [LF] + rest)
    ensures (line + [LF] + rest)[|line| + 1..] == rest
  {
    if line != [] {
      PieceOf(line[1..], rest);
      assert (line + [LF] + rest)[1..] == line[1..] + [LF] + rest;
    } else {
      assert line + [LF] + rest == [LF] + rest;
    }
  }

  lemma {:induction false} AsReadWithoutCR(p: seq<Byte>, ended: bool)
    requires CR !in p
    ensures AsRead(p, ended) == p
  {
    if p != [] {
      AsReadWithoutCR(p[1..], ended);
      assert p == [p[0]] + p[1..];
    }
  }

  /** The first line as `getline` and as `readLine` see it. */
  lemma FirstLine(line: seq<Byte>, rest: seq<Byte>)
    requires LF !in line && CR !in line
    ensures GetLines(line + [LF] + rest) == [line] + GetLines(rest)
    ensures LinesRead(line + [LF] + rest) == [line] + LinesRead(rest)
  {
    var t := line + [LF] + rest;
    PieceOf(line, rest);
    LineOfPiece(t);
    AsReadWithoutCR(line, true);
    hide FirstPiece, OneLine, LineOf, AfterLine, AsRead;
    assert t != [];
  }

  /** Files round trip, whether read through `getline` or through `readLine` by a scorer:
      the records come back cleaned exactly when the points of each fit the print buffer. */
  lemma {:induction false} FileRoundTrip(trs: seq<TestResult>)
    requires AllTyped(trs)
    ensures GetLines(FileOf(trs)) == LinesRead(FileOf(trs))
    ensures ParseLines(GetLines(FileOf(trs))).Some?
    ensures ParseLines(GetLines(FileOf(trs))) == Some(CleanedAll(trs)) <==> AllFit(trs)
  {
    if trs != [] {
      var line, rest := Serialize(trs[0]), trs[1..];
      FileRoundTrip(rest);
      LineShape(trs[0]);
      RecordRoundTrip(trs[0]);
      FirstLine(line, FileOf(rest));
      FitTail(trs);
      hide Serialize, Deserialize, Cleaned, Typed, Fits, GetLines, LinesRead, AllFit;
      assert FileOf(trs) == line + [LF] + FileOf(rest);
      var lines := GetLines(FileOf(rest));
      assert ([line] + lines)[1..] == lines;
      HeadTail(Deserialize(line).value, ParseLines(lines).value, Cleaned(trs[0]), CleanedAll(rest));
    }
  }

  lemma FitTail(trs: seq<TestResult>)
    requires AllTyped(trs) && trs != []
    ensures AllTyped(trs[1..]) && (AllFit(trs) <==> Fits(trs[0].points) && AllFit(trs[1..]))
  {
    if Fits(trs[0].points) && AllFit(trs[1..]) {
      forall i | 0 <= i < |trs| ensures Fits(trs[i].points) {
        if i > 0 { assert trs[i] == trs[1..][i - 1]; }
      }
    }
    if AllFit(trs) {
      forall i | 0 <= i < |trs[1..]| ensures Fits(trs[1..][i].points) { assert trs[1..][i] == trs[i + 1]; }
    }
  }

  lemma HeadTail(a: TestResult, s: seq<TestResult>, b: TestResult, t: seq<TestResult>)
    ensures [a] + s == [b] + t <==> a == b && s == t
  {
    if [a] + s == [b] + t {
      assert ([a] + s)[0] == a && ([b] + t)[0] == b;
      assert ([a] + s)[1..] == s && ([b] + t)[1..] == t;
    }
  }

  // ------------------------------------------------------------------ loops

  lemma {:induction false} JoinSnoc(items: seq<seq<Byte>>, x: seq<Byte>)
    requires items != []
    ensures Join(items + [x]) == Join(items) + [SEMICOLON] + x
  {
    if |items| == 1 {
      assert (items + [x])[1..] == [x];
    } else {
      JoinSnoc(items[1..], x);
      assert (items + [x])[1..] == items[1..] + [x];
    }
  }

  /** One more field behind the first `k`. */
  method AddItem(result: seq<Byte>, x: seq<Byte>, ghost f: seq<seq<Byte>>, ghost k: nat) returns (r: seq<Byte>)
    requires 0 < k < |f| && result == Join(f[..k]) && x == f[k]
    ensures r == Join(f[..k + 1])
  {
    JoinSnoc(f[..k], x);
    assert f[..k + 1] == f[..k] + [x];
    r := result + [SEMICOLON] + x;
  }

  /** `serializeTestResult` */
  method SerializeTestResult(tr: TestResult) returns (result: seq<Byte>)
    requires Typed(tr)
    ensures result == Serialize(tr)
  {
    hide Join, Escaped, IntText, SerializeVerdict, SerializePoints;
    ghost var f := Fields(tr);
    var testset := EscapeTestResultString(tr.testset);
    var group := EscapeTestResultString(tr.group);
    var input := EscapeTestResultString(tr.input);
    var output := EscapeTestResultString(tr.output);
    var answer := EscapeTestResultString(tr.answer);
    var comment := EscapeTestResultString(tr.checkerComment);
    result := IntText(tr.testIndex);
    FirstField(f);
    result := AddItem(result, testset, f, 1);
    result := AddItem(result, group, f, 2);
    result := AddItem(result, SerializeVerdict(tr.verdict), f, 3);
    result := AddItem(result, SerializePoints(tr.points), f, 4);
    result := AddItem(result, IntText(tr.timeConsumed), f, 5);
    result := AddItem(result, IntText(tr.memoryConsumed), f, 6);
    result := AddItem(result, input, f, 7);
    result := AddItem(result, output, f, 8);
    result := AddItem(result, answer, f, 9);
    result := AddItem(result, IntText(tr.exitCode), f, 10);
    result := AddItem(result, comment, f, 11);
    assert f[..12] == f;
  }

  /** `deserializeTestResult` */
  method DeserializeTestResult(s: seq<Byte>) returns (r: Option<TestResult>)
    ensures r == Deserialize(s)
  {
    hide Items, Stoi, Stoll, DeserializePoints, DeserializeVerdict, Unescaped;
    var items := Split(s);
    if |items| != 12 { return None; }
    var index, verdict, points := Stoi(items[0]), DeserializeVerdict(items[3]), DeserializePoints(items[4]);
    var time, memory, code := Stoll(items[5]), Stoll(items[6]), Stoi(items[10]);
    if index.None? || verdict.None? || points.None? || time.None? || memory.None? || code.None? { return None; }
    var testset := UnescapeTestResultString(items[1]);
    var group := UnescapeTestResultString(items[2]);
    var input := UnescapeTestResultString(items[7]);
    var output := UnescapeTestResultString(items[8]);
    var answer := UnescapeTestResultString(items[9]);
    var comment := UnescapeTestResultString(items[11]);
    return Some(TestResult(index.value, testset, group, verdict.value, points.value, time.value, memory.value,
                           input, output, answer, code.value, comment));
  }

  function Prepended(done: seq<TestResult>, later: Option<seq<TestResult>>): Option<seq<TestResult>> {
    match later
    case None => None
    case Some(s) => Some(done + s)
  }

  lemma ParseStep(done: seq<TestResult>, line: seq<Byte>, later: seq<seq<Byte>>)
    ensures Prepended(done, ParseLines([line] + later)) ==
      if line == [] then Prepended(done, ParseLines(later))
      else if Deserialize(line).None? then None
      else Prepended(done + [Deserialize(line).value], ParseLines(later))
  {
    assert ([line] + later)[1..] == later;
    hide Deserialize;
    if line != [] && Deserialize(line).Some? && ParseLines(later).Some? {
      var x, s := Deserialize(line).value, ParseLines(later).value;
      assert done + ([x] + s) == done + [x] + s;
    }
  }

  lemma FirstField(f: seq<seq<Byte>>)
    requires f != []
    ensures Join(f[..1]) == f[0]
  {
  }

  lemma LineTaken(t: seq<Byte>)
    requires t != []
    ensures var line := FirstPiece(t);
      var rest := if |line| == |t| then [] else t[|line| + 1..];
      GetLines(t) == [line] + GetLines(rest)
  {
    assert GetLines([]) == [];
    assert OneLine(t) ==> FirstPiece(t) == t;
  }

  lemma NothingLeft()
    ensures ParseLines(GetLines([])) == Some([])
  {
  }

  /** `readTestResults`: the loop over the lines of the file. */
  method ReadTestResults(content: seq<Byte>) returns (r: Option<seq<TestResult>>)
    ensures r == ParseLines(GetLines(content))
  {
    hide Deserialize, ParseLines, GetLines, FirstPiece;
    NothingLeft();
    var result: seq<TestResult> := [];
    var rest := content;
    assert ParseLines(GetLines(content)) == Prepended([], ParseLines(GetLines(content))) by {
      var all := ParseLines(GetLines(content));
      if all.Some? { assert [] + all.value == all.value; }
    }
    while rest != []
      invariant ParseLines(GetLines(content)) == Prepended(result, ParseLines(GetLines(rest)))
      decreases |rest|
    {
      LineTaken(rest);
      var line := FirstPiece(rest);
      rest := if |line| == |rest| then [] else rest[|line| + 1..];
      ParseStep(result, line, GetLines(rest));
      if line != [] {
        var tr := DeserializeTestResult(line);
        if tr.None? { return None; }
        result := result + [tr.value];
      }
    }
    assert result + [] == result;
    return Some(result);
  }
}
