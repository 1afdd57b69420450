/** Concrete ranges: the range list of the unit test in
    `monosetup/src/mono.rs`, edge cases of the parser, orderings between
    exact, tilde, caret and wildcard values, and the effect of first-seen
    ties on the fold. */
module Examples {
  import opened Wrappers
  import opened Text
  import opened Orderings
  import opened Versions
  import opened ParseFacts
  import opened VersionOrder
  import opened Mono

  /** The ranges listed in `test_version_comp`, in order, 3 to a row. The
      rows carry no meaning of their own: `Render` is evaluated on literal
      entries, and the solver's cost for that grows faster than the length
      of the list, so each row is checked apart and the rows are joined by
      `RendersConcat`. */
  const TestRanges: seq<string> :=
    Ranges0 + Ranges1 + Ranges2 + Ranges3 + Ranges4 + Ranges5 + Ranges6 + Ranges7 + Ranges8
  const Ranges0: seq<string> := ["1.1.3", "1.0.3", "^2.3.1"]
  const Ranges1: seq<string> := ["^1.3.3", "2.4.4", "4.3.0"]
  const Ranges2: seq<string> := ["^0.10.3", "^1.3.4", "1.7.4"]
  const Ranges3: seq<string> := ["2.8.5", "4.18.2", "6.0.1"]
  const Ranges4: seq<string> := ["5.0.1", "1.4.1", "^1.4.5-lts.1"]
  const Ranges5: seq<string> := ["0.12.0", "1.0.2", "9.3.4"]
  const Ranges6: seq<string> := ["^0.5.3", "0.1.13", "4.6.2"]
  const Ranges7: seq<string> := ["3.2.2", "3.0.4", "1.0.1"]
  const Ranges8: seq<string> := ["0.3.0"]

  /** A range written as an optional operator, one to three decimal
      components and an appendix ("" for none). */
  datatype TestEntry = TestEntry(op: Option<char>, ns: seq<u8>, appendix: string)

  predicate WellFormed(e: TestEntry) {
    && 1 <= |e.ns| <= 3
    && (e.op.None? || e.op.value == '~' || e.op.value == '^')
    && (e.appendix == "" || e.appendix[0] == '-')
  }

  /** The range without its appendix. */
  function Base(e: TestEntry): string
    requires |e.ns| >= 1
  {
    (if e.op.Some? then [e.op.value] else "") + Join(Decimals(e.ns))
  }

  function Render(e: TestEntry): string
    requires |e.ns| >= 1
  {
    Base(e) + e.appendix
  }

  /** The version a well-formed entry denotes. */
  function Expected(e: TestEntry): Version {
    Version(Get(e.ns, 0), Get(e.ns, 1), Get(e.ns, 2),
      if e.appendix == "" then None else Some(e.appendix),
      if e.op == Some('~') then Patch else if e.op == Some('^') then Minor else Exact)
  }

  lemma DecimalsParse(ns: seq<u8>)
    requires 1 <= |ns| <= 3
    ensures '-' !in Join(Decimals(ns))
    ensures Parse(Join(Decimals(ns))) == Success(Version(Get(ns, 0), Get(ns, 1), Get(ns, 2), None, Exact))
  {
    DecimalsJoin(ns);
    ExactRoundTrip(ns);
  }

  lemma LedDecimalsParse(lead: char, ns: seq<u8>)
    requires lead == '~' || lead == '^'
    requires 1 <= |ns| <= 3
    ensures '-' !in [lead] + Join(Decimals(ns))
    ensures Parse([lead] + Join(Decimals(ns))) ==
      Success(Version(Get(ns, 0), Get(ns, 1), Get(ns, 2), None, if lead == '~' then Patch else Minor))
  {
    DecimalsJoin(ns);
    RangeRoundTrip(lead, ns);
  }

  lemma BaseParses(e: TestEntry)
    requires WellFormed(e)
    ensures '-' !in Base(e)
    ensures Parse(Base(e)) == Success(Expected(e).(appendix := None))
  {
    match e.op
    case None =>
      assert Base(e) == Join(Decimals(e.ns));
      DecimalsParse(e.ns);
    case Some(lead) =>
      assert Base(e) == [lead] + Join(Decimals(e.ns));
      LedDecimalsParse(lead, e.ns);
  }

  /** A dash-led suffix on a dash-free range becomes its appendix. */
  lemma ParseWithAppendix(b: string, a: string, v: Version)
    requires '-' !in b && Parse(b) == Success(v)
    requires |a| >= 1 && a[0] == '-'
    ensures Parse(b + a) == Success(v.(appendix := Some(a)))
  {
    var t := a[1..];
    assert b + a == b + "-" + t by { assert a == "-" + t; }
    AppendixSplit(b, t);
  }

  /** Every well-formed entry, rendered, parses to the version it denotes. */
  lemma EntryParses(e: TestEntry)
    requires WellFormed(e)
    ensures Parse(Render(e)) == Success(Expected(e))
  {
    var v := Expected(e).(appendix := None);
    BaseParses(e);
    if e.appendix == "" {
      assert Render(e) == Base(e) && Expected(e) == v;
    } else {
      ParseWithAppendix(Base(e), e.appendix, v);
      assert v.(appendix := Some(e.appendix)) == Expected(e);
    }
  }

  /** The fields of each range of `TestRanges`, row by row. */
  const TestTable: seq<TestEntry> :=
    Table0 + Table1 + Table2 + Table3 + Table4 + Table5 + Table6 + Table7 + Table8
  const Table0: seq<TestEntry> := [
    TestEntry(None, [1, 1, 3], ""),
    TestEntry(None, [1, 0, 3], ""),
    TestEntry(Some('^'), [2, 3, 1], "")]
  const Table1: seq<TestEntry> := [
    TestEntry(Some('^'), [1, 3, 3], ""),
    TestEntry(None, [2, 4, 4], ""),
    TestEntry(None, [4, 3, 0], "")]
  const Table2: seq<TestEntry> := [
    TestEntry(Some('^'), [0, 10, 3], ""),
    TestEntry(Some('^'), [1, 3, 4], ""),
    TestEntry(None, [1, 7, 4], "")]
  const Table3: seq<TestEntry> := [
    TestEntry(None, [2, 8, 5], ""),
    TestEntry(None, [4, 18, 2], ""),
    TestEntry(None, [6, 0, 1], "")]
  const Table4: seq<TestEntry> := [
    TestEntry(None, [5, 0, 1], ""),
    TestEntry(None, [1, 4, 1], ""),
    TestEntry(Some('^'), [1, 4, 5], "-lts.1")]
  const Table5: seq<TestEntry> := [
    TestEntry(None, [0, 12, 0], ""),
    TestEntry(None, [1, 0, 2], ""),
    TestEntry(None, [9, 3, 4], "")]
  const Table6: seq<TestEntry> := [
    TestEntry(Some('^'), [0, 5, 3], ""),
    TestEntry(None, [0, 1, 13], ""),
    TestEntry(None, [4, 6, 2], "")]
  const Table7: seq<TestEntry> := [
    TestEntry(None, [3, 2, 2], ""),
    TestEntry(None, [3, 0, 4], ""),
    TestEntry(None, [1, 0, 1], "")]
  const Table8: seq<TestEntry> := [
    TestEntry(None, [0, 3, 0], "")]

  /** `ranges` is `table` rendered, element by element. */
  predicate Renders(ranges: seq<string>, table: seq<TestEntry>)
    decreases |table|
  {
    && |ranges| == |table|
    && (|table| == 0 ||
        (&& WellFormed(table[0]) && ranges[0] == Render(table[0])
         && Renders(ranges[1..], table[1..])))
  }

  lemma {:induction false} RendersAt(ranges: seq<string>, table: seq<TestEntry>, i: nat)
    requires Renders(ranges, table) && i < |table|
    ensures WellFormed(table[i]) && ranges[i] == Render(table[i])
    decreases i
  {
    if i > 0 {
      RendersAt(ranges[1..], table[1..], i - 1);
    }
  }

  lemma {:induction false} RendersConcat(a: seq<string>, b: seq<string>, ta: seq<TestEntry>, tb: seq<TestEntry>)
    requires Renders(a, ta) && Renders(b, tb)
    ensures Renders(a + b, ta + tb)
    decreases |ta|
  {
    if |ta| > 0 {
      RendersConcat(a[1..], b, ta[1..], tb);
      assert (a + b)[1..] == a[1..] + b;
      assert (ta + tb)[1..] == ta[1..] + tb;
    } else {
      assert a + b == b && ta + tb == tb;
    }
  }

  // One lemma per row of literals; see `TestRanges`.

  lemma RowRenders0()
    ensures Renders(Ranges0, Table0)
  {
  }

  lemma RowRenders1()
    ensures Renders(Ranges1, Table1)
  {
  }

  lemma RowRenders2()
    ensures Renders(Ranges2, Table2)
  {
  }

  lemma RowRenders3()
    ensures Renders(Ranges3, Table3)
  {
  }

  lemma RowRenders4()
    ensures Renders(Ranges4, Table4)
  {
  }

  lemma RowRenders5()
    ensures Renders(Ranges5, Table5)
  {
  }

  lemma RowRenders6()
    ensures Renders(Ranges6, Table6)
  {
  }

  lemma RowRenders7()
    ensures Renders(Ranges7, Table7)
  {
  }

  lemma RowRenders8()
    ensures Renders(Ranges8, Table8)
  {
  }

  lemma TableRenders()
    ensures Renders(TestRanges, TestTable)
  {
    RowRenders0();
    RowRenders1();
    RowRenders2();
    RowRenders3();
    RowRenders4();
    RowRenders5();
    RowRenders6();
    RowRenders7();
    RowRenders8();
    var r, t := Ranges0, Table0;
    RendersConcat(r, Ranges1, t, Table1);
    r, t := r + Ranges1, t + Table1;
    RendersConcat(r, Ranges2, t, Table2);
    r, t := r + Ranges2, t + Table2;
    RendersConcat(r, Ranges3, t, Table3);
    r, t := r + Ranges3, t + Table3;
    RendersConcat(r, Ranges4, t, Table4);
    r, t := r + Ranges4, t + Table4;
    RendersConcat(r, Ranges5, t, Table5);
    r, t := r + Ranges5, t + Table5;
    RendersConcat(r, Ranges6, t, Table6);
    r, t := r + Ranges6, t + Table6;
    RendersConcat(r, Ranges7, t, Table7);
    r, t := r + Ranges7, t + Table7;
    RendersConcat(r, Ranges8, t, Table8);
    r, t := r + Ranges8, t + Table8;
  }

  /** Every range of the unit test's list parses, to the fields listed in
      `TestTable`. */
  lemma TestRangesParse()
    ensures |TestTable| == |TestRanges|
    ensures forall i :: 0 <= i < |TestRanges| ==> Parse(TestRanges[i]) == Success(Expected(TestTable[i]))
  {
    TableRenders();
    forall i | 0 <= i < |TestRanges| ensures Parse(TestRanges[i]) == Success(Expected(TestTable[i])) {
      RendersAt(TestRanges, TestTable, i);
      EntryParses(TestTable[i]);
    }
  }

  /** The appendix of "^1.4.5-lts.1" is "-lts.1"; the rest is a caret range. */
  lemma CaretWithAppendix(s: string)
    requires s == "^1.4.5-lts.1"
    ensures Parse(s) == Success(Version(Some(1), Some(4), Some(5), Some("-lts.1"), Minor))
  {
    var k := 2;
    RowRenders4();
    RendersAt(Ranges4, Table4, k);
    EntryParses(Table4[k]);
    assert Ranges4[k] == s;
  }

  /** A range must start with an operator, a digit or a wildcard. */
  lemma NoLeaderFails(s: string)
    requires s == "" || s == "abc" || s == "=1.2.3"
    ensures Parse(s).Failure?
  {
  }

  /** `parse::<u8>` needs a digit after its optional '+'. */
  lemma LonePlusFails(s: string)
    requires s == "+"
    ensures ParseU8(s).Failure?
  {
  }

  /** A '+' and leading zeros are accepted and ignored. */
  lemma PlusLeadingZeros(s: string)
    requires s == "+007"
    ensures ParseU8(s) == Success(7)
  {
    var d := s[1..];
    assert s == "+" + d;
    assert d == "007";
    var z1, z2 := d[..1], d[..2];
    assert z2[..1] == z1 && d[..|d| - 1] == z2;
    assert DigitsValue(z1) == 0;
    assert DigitsValue(z2) == 0;
    assert DigitsValue(d) == 7;
    ParseU8Digits(d);
  }

  /** An operator with no version after it is rejected. */
  lemma LoneTildeFails(s: string)
    requires s == "~"
    ensures Parse(s).Failure?
  {
    ParseTildeCaret(s);
    assert Split(s[1..]) == [""];
  }

  /** A fourth numeric component is rejected. */
  lemma FourComponentsFail(s: string)
    requires s == "1.2.3.4"
    ensures Parse(s).Failure?
  {
    var ns: seq<u8> := [1, 2, 3, 4];
    assert s == Join(Decimals(ns)) by {
      assert Decimal(1) == "1" && Decimal(2) == "2" && Decimal(3) == "3" && Decimal(4) == "4";
      assert Decimals(ns) == ["1", "2", "3", "4"];
      assert Join(["2", "3", "4"]) == "2.3.4";
    }
    DecimalsJoin(ns);
    ParseDigitLed(s);
    assert Split(s)[1] == "2" && Split(s)[2] == "3";
  }

  // Orderings between exact, tilde, caret and wildcard values.

  const Exact123 := Version(Some(1), Some(2), Some(3), None, Exact)
  const Tilde123 := Version(Some(1), Some(2), Some(3), None, Patch)
  const Caret120 := Version(Some(1), Some(2), Some(0), None, Minor)
  const Caret123 := Version(Some(1), Some(2), Some(3), None, Minor)
  const Exact200 := Version(Some(2), Some(0), Some(0), None, Exact)

  lemma OrderExamples()
    ensures Compare(Exact123, Caret123) == Less
    ensures Compare(Exact123, Tilde123) == Less
    ensures Compare(Tilde123, Caret120) == Less
    ensures Compare(Caret120, Caret123) == Less
    ensures Compare(Caret123, Exact200) == Less
    ensures Compare(Exact200, Version(None, None, None, None, Major)) == Less
  {
  }

  /** Versions that differ only in their appendix tie, so the fold keeps
      whichever of them it meets first. */
  lemma FoldTieKeepsFirst()
    ensures var a := Exact123.(appendix := Some("-a"));
      var b := Exact123.(appendix := Some("-b"));
      && Fold([("dep", a), ("dep", b)])["dep"] == Tally(2, a)
      && Fold([("dep", b), ("dep", a)])["dep"] == Tally(2, b)
  {
    var a := Exact123.(appendix := Some("-a"));
    var b := Exact123.(appendix := Some("-b"));
    assert Compare(a, b) == Equal && Compare(b, a) == Equal;
    FoldPair(a, b);
    FoldPair(b, a);
  }

  /** Two structurally different wildcards are each `Greater` than the
      other, so the fold replaces the kept one every time: the last wildcard
      seen wins. */
  lemma FoldWildcardsKeepLast()
    ensures var a := Version(None, None, None, Some("-a"), Major);
      var b := Version(None, None, None, Some("-b"), Major);
      && Fold([("dep", a), ("dep", b)])["dep"] == Tally(2, b)
      && Fold([("dep", b), ("dep", a)])["dep"] == Tally(2, a)
  {
    var a := Version(None, None, None, Some("-a"), Major);
    var b := Version(None, None, None, Some("-b"), Major);
    WildcardsBothGreater(a, b);
    FoldPair(a, b);
    FoldPair(b, a);
  }

  lemma FoldPair(u: Version, v: Version)
    ensures Fold([("dep", u), ("dep", v)])["dep"] == Tally(2, if IsGreater(v, u) then v else u)
  {
    var es := [("dep", u), ("dep", v)];
    var one := [("dep", u)];
    assert one[..0] == [];
    assert Fold(one) == map["dep" := Tally(1, u)];
    assert es[..1] == one;
    assert Fold(es) == Record(Fold(one), "dep", v);
  }
}
