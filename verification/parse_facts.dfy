/** What `Version::try_from` accepts and what it builds, stated in closed
    form over the dot-separated components, plus round trips from decimal
    numerals and the appendix split. */
module ParseFacts {
  import opened Wrappers
  import opened Text
  import opened Versions

  /** The value of component `i` when it is present and a valid u8. */
  function U8At(comps: seq<string>, i: nat): Option<u8> {
    if i < |comps| && ParseU8(comps[i]).Success? then Some(ParseU8(comps[i]).value) else None
  }

  /** The result with its appendix replaced; failures pass through. */
  function WithAppendix(r: Result<Version, ParseError>, appendix: string): Result<Version, ParseError> {
    match r
    case Success(v) => Success(v.(appendix := Some(appendix)))
    case Failure(e) => Failure(e)
  }

  lemma ParsePrefixAppendix(v: string, appendix: string)
    ensures ParsePrefix(v, Some(appendix)) == WithAppendix(ParsePrefix(v, None), appendix)
  {
  }

  /** Appendix split: the suffix from the first '-' is kept verbatim and the
      rest of the parse sees only the part in front of it. */
  lemma AppendixSplit(p: string, t: string)
    requires '-' !in p
    ensures Parse(p + "-" + t) == WithAppendix(Parse(p), "-" + t)
    ensures Parse(p).Success? ==> Parse(p).value.appendix.None?
  {
    var s := p + "-" + t;
    assert s[|p|] == '-' && s[..|p|] == p && s[|p|..] == "-" + t;
    var split := SplitAppendix(s);
    assert split.1 == Some("-" + t);
    assert split.0 == p by {
      assert split.0 + split.1.value == s;
      assert s[..|split.0|] == split.0;
    }
    assert Parse(s) == ParsePrefix(p, Some("-" + t));
    assert SplitAppendix(p) == (p, None);
    assert Parse(p) == ParsePrefix(p, None);
    ParsePrefixAppendix(p, "-" + t);
  }

  /** A range starting with '-' has an empty prefix and is rejected. */
  lemma LeadingDashFails(t: string)
    ensures Parse("-" + t).Failure?
  {
    AppendixSplit("", t);
    assert "" + "-" + t == "-" + t;
  }

  /** Closed form of the '~'/'^' component loop from any position. */
  lemma {:induction false} PrefixedFieldsClosedForm(comps: seq<string>, index: nat, f: Fields)
    requires index <= |comps| && index <= 3
    ensures PrefixedFields(comps, index, f).Success? <==>
      |comps| <= 3 && forall i :: index <= i < |comps| ==> ParseU8(comps[i]).Success?
    ensures PrefixedFields(comps, index, f).Success? ==>
      PrefixedFields(comps, index, f).value == Fields(
        if index <= 0 < |comps| then U8At(comps, 0) else f.major,
        if index <= 1 < |comps| then U8At(comps, 1) else f.minor,
        if index <= 2 < |comps| then U8At(comps, 2) else f.patch)
    decreases |comps| - index
  {
    if index < |comps| && index < 3 {
      var n := ParseU8(comps[index]);
      if n.Success? {
        var f' := if index == 0 then f.(major := Some(n.value))
          else if index == 1 then f.(minor := Some(n.value))
          else f.(patch := Some(n.value));
        assert PrefixedFields(comps, index, f) == PrefixedFields(comps, index + 1, f');
        PrefixedFieldsClosedForm(comps, index + 1, f');
      }
    }
  }

  /** Tilde and caret ranges: accepted exactly when the text after the
      operator has at most three components, each a valid u8; they fill
      major, minor and patch in order and the operator picks the strategy. */
  lemma ParseTildeCaret(s: string)
    requires '-' !in s && |s| >= 1 && (s[0] == '~' || s[0] == '^')
    ensures var comps := Split(s[1..]);
      Parse(s).Success? <==>
        |comps| <= 3 && forall i :: 0 <= i < |comps| ==> ParseU8(comps[i]).Success?
    ensures var comps := Split(s[1..]);
      Parse(s).Success? ==>
        Parse(s).value == Version(U8At(comps, 0), U8At(comps, 1), U8At(comps, 2), None,
          if s[0] == '~' then Patch else Minor)
  {
    var comps := Split(s[1..]);
    PrefixedFieldsClosedForm(comps, 0, NoFields);
    if |s| == 1 {
      assert comps == [""];
      assert ParseU8(comps[0]).Failure?;
    }
  }

  /** The acceptance condition of a digit-led range over its components. */
  predicate DigitLedAccepts(c: seq<string>)
    requires |c| >= 1
  {
    && ParseU8(c[0]).Success?
    && (|c| == 1 || c[1] == "x" ||
        (&& ParseU8(c[1]).Success?
         && (|c| == 2 || c[2] == "x" || (ParseU8(c[2]).Success? && |c| == 3))))
  }

  /** The strategy of a digit-led range: an "x" in the second or third
      component loosens it to `Minor` or `Patch`. */
  function DigitLedStrategy(c: seq<string>): PatchStrategy {
    if |c| >= 2 && c[1] == "x" then Minor
    else if |c| >= 3 && c[2] == "x" then Patch
    else Exact
  }

  /** Closed form of the digit-led component loop. */
  lemma DigitFieldsClosedForm(c: seq<string>)
    requires |c| >= 1
    ensures DigitFields(c, 0, NoFields).Success? <==> DigitLedAccepts(c)
    ensures var st := DigitLedStrategy(c);
      DigitFields(c, 0, NoFields).Success? ==>
        DigitFields(c, 0, NoFields).value == (Fields(
          U8At(c, 0),
          if st == Minor then None else U8At(c, 1),
          if st == Exact then U8At(c, 2) else None), st)
  {
    var r := DigitFields(c, 0, NoFields);
    var n0 := ParseU8(c[0]);
    if n0.Success? {
      var f1 := NoFields.(major := Some(n0.value));
      assert r == DigitFields(c, 1, f1);
      if |c| > 1 && c[1] != "x" {
        var n1 := ParseU8(c[1]);
        if n1.Success? {
          var f2 := f1.(minor := Some(n1.value));
          assert r == DigitFields(c, 2, f2);
          if |c| > 2 && c[2] != "x" {
            var n2 := ParseU8(c[2]);
            if n2.Success? {
              var f3 := f2.(patch := Some(n2.value));
              assert r == DigitFields(c, 3, f3);
            }
          }
        }
      }
    }
  }

  /** Digit-led ranges: exact unless an "x" component stops the loop early;
      components after that "x" are ignored, a fourth numeric component or a
      component that is not a valid u8 fails. */
  lemma ParseDigitLed(s: string)
    requires '-' !in s && |s| >= 1 && IsAsciiDigit(s[0])
    ensures var c := Split(s);
      Parse(s).Success? <==> DigitLedAccepts(c)
    ensures var c := Split(s); var st := DigitLedStrategy(c);
      Parse(s).Success? ==>
        Parse(s).value == Version(
          U8At(c, 0),
          if st == Minor then None else U8At(c, 1),
          if st == Exact then U8At(c, 2) else None,
          None, st)
  {
    assert SplitAppendix(s) == (s, None);
    assert Parse(s) == ParsePrefix(s, None);
    DigitFieldsClosedForm(Split(s));
  }

  /** Every wildcard-led range parses to the bare wildcard; whatever follows
      the '*' or 'x' is ignored. */
  lemma ParseWildcard(s: string)
    requires '-' !in s && |s| >= 1 && (s[0] == '*' || s[0] == 'x')
    ensures Parse(s) == Success(Version(None, None, None, None, Major))
  {
  }

  // ---------------------------------------------------------------------
  // Round trips from decimal numerals

  function Decimals(ns: seq<u8>): (parts: seq<string>)
    ensures |parts| == |ns|
    ensures forall i :: 0 <= i < |ns| ==> parts[i] == Decimal(ns[i])
  {
    seq(|ns|, i requires 0 <= i < |ns| => Decimal(ns[i]))
  }

  function Get(ns: seq<u8>, i: nat): Option<u8> {
    if i < |ns| then Some(ns[i]) else None
  }

  lemma {:induction false} JoinAvoids(parts: seq<string>, c: char)
    requires |parts| >= 1 && c != '.'
    requires forall i :: 0 <= i < |parts| ==> c !in parts[i]
    ensures c !in Join(parts)
    decreases |parts|
  {
    if |parts| > 1 {
      JoinAvoids(parts[1..], c);
    }
  }

  /** Facts about the dotted decimal text of `ns` used by the round trips. */
  lemma DecimalsJoin(ns: seq<u8>)
    requires |ns| >= 1
    ensures var text := Join(Decimals(ns));
      && '-' !in text
      && |text| >= 1 && IsAsciiDigit(text[0])
      && Split(text) == Decimals(ns)
      && forall i :: 0 <= i < |ns| ==> U8At(Split(text), i) == Some(ns[i]) && Split(text)[i] != "x"
  {
    var parts := Decimals(ns);
    forall i | 0 <= i < |ns|
      ensures '-' !in parts[i] && '.' !in parts[i] && parts[i] != "x"
      ensures U8At(parts, i) == Some(ns[i])
    {
      assert AllDigits(parts[i]);
      ParseU8Decimal(ns[i]);
    }
    JoinAvoids(parts, '-');
    SplitJoin(parts);
    assert Join(parts)[0] == parts[0][0];
  }

  /** A tilde or caret range written with one to three decimal u8
      components parses back to exactly those components. */
  lemma RangeRoundTrip(lead: char, ns: seq<u8>)
    requires lead == '~' || lead == '^'
    requires 1 <= |ns| <= 3
    ensures Parse([lead] + Join(Decimals(ns))) ==
      Success(Version(Get(ns, 0), Get(ns, 1), Get(ns, 2), None, if lead == '~' then Patch else Minor))
  {
    var s := [lead] + Join(Decimals(ns));
    DecimalsJoin(ns);
    assert s[1..] == Join(Decimals(ns));
    ParseTildeCaret(s);
  }

  /** An exact range written with one to three decimal u8 components parses
      back to exactly those components. */
  lemma ExactRoundTrip(ns: seq<u8>)
    requires 1 <= |ns| <= 3
    ensures Parse(Join(Decimals(ns))) == Success(Version(Get(ns, 0), Get(ns, 1), Get(ns, 2), None, Exact))
  {
    DecimalsJoin(ns);
    ParseDigitLed(Join(Decimals(ns)));
  }

  /** Splitting "x" followed by nothing or by further components. */
  lemma SplitX(rest: string)
    requires rest == "" || rest[0] == '.'
    ensures Split("x" + rest)[0] == "x"
  {
    SplitAfterPlain("x", rest);
    if rest != "" {
      assert rest == "." + rest[1..];
      SplitAfterDot(rest[1..]);
    }
  }

  /** "a.x": a caret-like range on major `a`; later components are ignored. */
  lemma MinorXRoundTrip(major: u8, rest: string)
    requires '-' !in rest && (rest == "" || rest[0] == '.')
    ensures Parse(Decimal(major) + ".x" + rest) == Success(Version(Some(major), None, None, None, Minor))
  {
    var d := Decimal(major);
    var s := d + ".x" + rest;
    assert s == d + ("." + ("x" + rest));
    SplitAfterPlain(d, "." + ("x" + rest));
    SplitAfterDot("x" + rest);
    SplitX(rest);
    ParseU8Decimal(major);
    assert d + "" == d;
    assert '-' !in d && s[0] == d[0];
    ParseDigitLed(s);
  }

  /** The first three components of "d.e.x..." are d, e and "x". */
  lemma PatchXComponents(d: string, e: string, rest: string)
    requires '.' !in d && '.' !in e
    requires rest == "" || rest[0] == '.'
    ensures var c := Split(d + "." + e + ".x" + rest);
      |c| >= 3 && c[0] == d && c[1] == e && c[2] == "x"
  {
    var tail := "x" + rest;
    var mid := e + ("." + tail);
    assert d + "." + e + ".x" + rest == d + ("." + mid);
    SplitX(rest);
    SplitAfterPlain(e, "." + tail);
    SplitAfterDot(tail);
    assert e + "" == e;
    SplitAfterPlain(d, "." + mid);
    SplitAfterDot(mid);
    assert d + "" == d;
  }

  /** "a.b.x": a tilde-like range on `a.b`; later components are ignored. */
  lemma PatchXRoundTrip(major: u8, minor: u8, rest: string)
    requires '-' !in rest && (rest == "" || rest[0] == '.')
    ensures Parse(Decimal(major) + "." + Decimal(minor) + ".x" + rest) ==
      Success(Version(Some(major), Some(minor), None, None, Patch))
  {
    var d := Decimal(major);
    var e := Decimal(minor);
    var s := d + "." + e + ".x" + rest;
    assert '-' !in s && IsAsciiDigit(s[0]) by {
      assert AllDigits(d) && AllDigits(e);
      assert s[0] == d[0];
    }
    var c := Split(s);
    assert |c| >= 3 && U8At(c, 0) == Some(major) && U8At(c, 1) == Some(minor) && c[1] != "x" && c[2] == "x" by {
      assert AllDigits(d) && AllDigits(e);
      PatchXComponents(d, e, rest);
      ParseU8Decimal(major);
      ParseU8Decimal(minor);
    }
    ParseDigitLed(s);
  }
}
