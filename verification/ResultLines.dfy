/** The lines of test results in numbers and letters: which field stands where, how points
    look, and which lines are read (support/testlib.h:5921-5961, 5978-6000, 6037-6116). */
module ResultLines {
  import opened Bytes
  import opened Decimal
  import opened PlainDecimals
  import opened EscapedText
  import opened TestResults

  predicate ReadsAs(name: string, v: Verdict) { IsAscii(name) && DeserializeVerdict(Ascii(name)) == Some(v) }

  /** The names of the verdicts. */
  lemma VerdictNames()
    ensures ReadsAs("SKIPPED", Skipped)
    ensures ReadsAs("OK", Accepted)
    ensures ReadsAs("WRONG_ANSWER", WrongAnswer)
    ensures ReadsAs("RUNTIME_ERROR", RuntimeError)
    ensures ReadsAs("TIME_LIMIT_EXCEEDED", TimeLimitExceeded)
    ensures ReadsAs("IDLENESS_LIMIT_EXCEEDED", IdlenessLimitExceeded)
    ensures ReadsAs("MEMORY_LIMIT_EXCEEDED", MemoryLimitExceeded)
    ensures ReadsAs("COMPILATION_ERROR", CompilationError)
    ensures ReadsAs("CRASHED", Crashed)
    ensures ReadsAs("FAILED", Failed)
  {
    hide ReadsAs;
    Named(Skipped, "SKIPPED");
    Named(Accepted, "OK");
    Named(WrongAnswer, "WRONG_ANSWER");
    Named(RuntimeError, "RUNTIME_ERROR");
    Named(TimeLimitExceeded, "TIME_LIMIT_EXCEEDED");
    Named(IdlenessLimitExceeded, "IDLENESS_LIMIT_EXCEEDED");
    Named(MemoryLimitExceeded, "MEMORY_LIMIT_EXCEEDED");
    Named(CompilationError, "COMPILATION_ERROR");
    Named(Crashed, "CRASHED");
    Named(Failed, "FAILED");
  }

  lemma Named(v: Verdict, name: string)
    requires Name(v) == name
    ensures ReadsAs(name, v)
  {
    hide Name;
    NameUpper(v);
    VerdictRoundTrip(v, Ascii(name));
  }

  /** The numbers, the verdict and the points of a line, by place. */
  lemma NumberPlaces(tr: TestResult)
    requires Typed(tr)
    ensures var f := Items(Serialize(tr));
      && |f| == 12
      && Stoi(f[0]) == Some(tr.testIndex) && DeserializeVerdict(f[3]) == Some(tr.verdict)
      && (f[4] == [] <==> tr.points.NoPoints?)
      && Stoll(f[5]) == Some(tr.timeConsumed) && Stoll(f[6]) == Some(tr.memoryConsumed)
      && Stoi(f[10]) == Some(tr.exitCode)
  {
    LineShape(tr);
    FieldsRead(tr);
    NoText(tr.points);
    hide Items, Serialize, Stoi, Stoll, DeserializeVerdict, SerializePoints, SerializeVerdict, Escaped, IntText;
  }

  /** The texts of a line, by place. */
  lemma TextPlaces(tr: TestResult)
    requires Typed(tr)
    ensures var f := Items(Serialize(tr));
      && |f| == 12
      && Unescaped(f[1]) == WithoutCR(tr.testset) && Unescaped(f[2]) == WithoutCR(tr.group)
      && Unescaped(f[7]) == WithoutCR(tr.input) && Unescaped(f[8]) == WithoutCR(tr.output)
      && Unescaped(f[9]) == WithoutCR(tr.answer) && Unescaped(f[11]) == WithoutCR(tr.checkerComment)
  {
    LineShape(tr);
    EscapeRoundTrip(tr.testset);
    EscapeRoundTrip(tr.group);
    EscapeRoundTrip(tr.input);
    EscapeRoundTrip(tr.output);
    EscapeRoundTrip(tr.answer);
    EscapeRoundTrip(tr.checkerComment);
    hide Items, Serialize, SerializePoints, SerializeVerdict, Escaped, Unescaped, WithoutCR, IntText;
  }

  lemma NoText(p: Points)
    requires p.Points? ==> p.size >= 0.0
    ensures SerializePoints(p) == [] <==> p.NoPoints?
  {
    hide WholeText, FractionText;
  }

  /** The nearest integer, and of two equally near ones the even one. */
  lemma NearestExactly(x: real, k: int)
    ensures k == Nearest(x) <==>
      || -0.5 < k as real - x < 0.5
      || ((k as real - x == 0.5 || k as real - x == -0.5) && k % 2 == 0)
  {
    var f := x.Floor;
    var d := x - f as real;
    assert 0.0 <= d < 1.0;
    assert k as real - x == (k - f) as real - d;
  }

  /** As long as the buffer holds them: an optional minus sign, the whole part without a
      needless zero, a point and three decimals, together the size rounded to thousandths. */
  lemma PointsText(p: Points)
    requires p.Points? && p.size >= 0.0
    ensures var w, f := WholeText(p), FractionText(p);
      && AllDigits(w) && w != [] && (|w| > 1 ==> w[0] != 48) && AllDigits(f) && |f| == 3
      && WholeValue(w) + FractionValue(f) == Nearest(p.size * 1000.0) as real / 1000.0
      && var text := (if p.minus then [45] else []) + w + [46] + f;
         SerializePoints(p) == if |text| <= 63 then text else text[..63]
  {
    PrintedValue(p);
    var w, f := WholeText(p), FractionText(p);
    hide WholeText, FractionText, WholeValue, FractionValue, Nearest;
    assert Sign(p.minus) + Joined(w, f) == (if p.minus then [45] else []) + w + [46] + f;
  }

  /** A number is refused when it does not fit its type. */
  lemma NumbersFit(v: int)
    ensures Stoi(IntText(v)) == if -0x8000_0000 <= v < 0x8000_0000 then Some(v) else None
    ensures Stoll(IntText(v)) ==
            if -0x8000_0000_0000_0000 <= v < 0x8000_0000_0000_0000 then Some(v) else None
  {
    ScanIntText(v);
  }

  predicate AllSpaces(b: seq<Byte>) { forall i | 0 <= i < |b| :: b[i] in {9, 10, 11, 12, 13, 32} }

  lemma {:induction false} SpacesDropped(b: seq<Byte>, t: seq<Byte>)
    requires AllSpaces(b) && t != [] && t[0] !in {9, 10, 11, 12, 13, 32}
    ensures DropSpaces(b + t) == t
  {
    if b == [] {
      assert b + t == t;
    } else {
      SpacesDropped(b[1..], t);
      assert (b + t)[1..] == b[1..] + t;
    }
  }

  /** A number is read behind white space and one optional sign up to the first byte that is
      no digit; without a digit there is none. */
  lemma NumbersRead(b: seq<Byte>, sign: seq<Byte>, d: seq<Byte>, rest: seq<Byte>)
    requires AllSpaces(b) && sign in {[], [43], [45]} && AllDigits(d) && (rest != [] ==> !IsDigit(rest[0]))
    requires d == [] ==> rest != [] && rest[0] !in {9, 10, 11, 12, 13, 32} && (sign == [] ==> rest[0] !in {43, 45})
    ensures ScanInt(b + (sign + (d + rest))) ==
      if d == [] then None else Some(if sign == [45] then -(DigitsValue(d) as int) else DigitsValue(d))
  {
    var u := d + rest;
    var t := sign + u;
    FrontByte(sign, d, rest);
    SpacesDropped(b, t);
    DigitRunStops(d, rest);
    hide DigitsValue, DropSpaces, DigitRun;
    if sign == [] { assert t == u; } else { assert t[1..] == u; }
  }

  lemma FrontByte(sign: seq<Byte>, d: seq<Byte>, rest: seq<Byte>)
    requires sign in {[], [43], [45]} && AllDigits(d)
    requires d == [] ==> rest != [] && rest[0] !in {9, 10, 11, 12, 13, 32} && (sign == [] ==> rest[0] !in {43, 45})
    ensures var t := sign + (d + rest);
      && t != [] && t[0] !in {9, 10, 11, 12, 13, 32} && (t[0] == 45 <==> sign == [45]) && (t[0] == 43 <==> sign == [43])
  {
    if d != [] { assert IsDigit(d[0]); }
  }

  /** Only lines with exactly twelve items are records. */
  lemma TwelveItems(s: seq<Byte>)
    ensures |Items(s)| != 12 ==> Deserialize(s) == None
  {
  }

  function NonEmpty(lines: seq<seq<Byte>>): seq<seq<Byte>> {
    if lines == [] then [] else (if lines[0] == [] then [] else [lines[0]]) + NonEmpty(lines[1..])
  }

  /** The records `r` are those on the lines `ls`, if each has one. */
  predicate AreRecords(ls: seq<seq<Byte>>, r: Option<seq<TestResult>>) {
    && (r.Some? <==> forall i | 0 <= i < |ls| :: Deserialize(ls[i]).Some?)
    && (r.Some? ==> |r.value| == |ls| && forall i | 0 <= i < |ls| :: Deserialize(ls[i]) == Some(r.value[i]))
  }

  /** A file is read exactly when every non-empty line is a record, and then gives these
      records in their order; empty lines are skipped. */
  lemma {:induction false} RecordsOfLines(lines: seq<seq<Byte>>)
    ensures AreRecords(NonEmpty(lines), ParseLines(lines))
  {
    hide Deserialize;
    if lines != [] {
      RecordsOfLines(lines[1..]);
      var ls, tail := NonEmpty(lines), NonEmpty(lines[1..]);
      if lines[0] == [] {
        assert ls == tail;
      } else {
        assert ls == [lines[0]] + tail;
        RecordsCons(lines[0], tail, ParseLines(lines[1..]), ParseLines(lines));
      }
    }
  }

  lemma RecordsCons(
      line: seq<Byte>, tail: seq<seq<Byte>>, later: Option<seq<TestResult>>, r: Option<seq<TestResult>>)
    requires AreRecords(tail, later)
    requires r == if Deserialize(line).None? || later.None? then None else Some([Deserialize(line).value] + later.value)
    ensures AreRecords([line] + tail, r)
  {
    hide Deserialize;
    var ls := [line] + tail;
    assert ls[0] == line && forall i | 0 <= i < |tail| :: ls[i + 1] == tail[i];
    if later.None? {
      var i :| 0 <= i < |tail| && Deserialize(tail[i]).None?;
      assert Deserialize(ls[i + 1]).None?;
    }
  }
}
