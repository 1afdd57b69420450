/** The version-range value type of `monosetup/src/mono.rs` and its parser
    (`TryFrom<&str> for Version`). */
module Versions {
  import opened Wrappers
  import opened Text

  /** How loose a range is. `Exact` is the source's `PatchStrategy::None`
      (a plain `a.b.c`); `Patch` is a tilde range, `Minor` a caret range,
      `Major` a wildcard. The derived order is the declaration order. */
  datatype PatchStrategy = Exact | Patch | Minor | Major

  function Ordinal(s: PatchStrategy): (n: nat)
    ensures n < 4
  {
    match s
    case Exact => 0
    case Patch => 1
    case Minor => 2
    case Major => 3
  }

  /** Distinct strategies have distinct discriminants, so comparing
      discriminants is a total order on strategies. */
  lemma OrdinalInjective(a: PatchStrategy, b: PatchStrategy)
    ensures Ordinal(a) == Ordinal(b) <==> a == b
  {
  }

  /** One parsed range. Equality is structural over all five fields. */
  datatype Version = Version(
    major: Option<u8>,
    minor: Option<u8>,
    patch: Option<u8>,
    appendix: Option<string>,
    patchStrategy: PatchStrategy)

  predicate IsWildcard(v: Version) {
    v.patchStrategy == Major
  }

  /** The numeric fields the component loops fill in. */
  datatype Fields = Fields(major: Option<u8>, minor: Option<u8>, patch: Option<u8>)

  const NoFields := Fields(None, None, None)

  /** Everything from the first '-' onward is the appendix, kept verbatim;
      the rest of the parse sees only what precedes it. */
  function SplitAppendix(s: string): (r: (string, Option<string>))
    ensures '-' !in r.0
    ensures r.1.None? <==> '-' !in s
    ensures r.1.None? ==> r.0 == s
    ensures r.1.Some? ==> r.0 + r.1.value == s && |r.1.value| >= 1 && r.1.value[0] == '-'
    ensures forall i :: 0 <= i < |s| && s[i] == '-' && '-' !in s[..i] ==> r.1 == Some(s[i..])
    ensures |s| > 0 && s[0] != '-' ==> |r.0| > 0 && r.0[0] == s[0]
  {
    match Find(s, '-')
    case None => (s, None)
    case Some(j) =>
      assert s[..j] + s[j..] == s;
      (s[..j], Some(s[j..]))
  }

  /** The component loop behind a '~' or '^': components 0, 1 and 2 fill
      major, minor and patch; a fourth component fails. */
  function PrefixedFields(comps: seq<string>, index: nat, f: Fields): (r: Result<Fields, ParseError>)
    requires index <= |comps|
    ensures r.Success? && f.major.Some? ==> r.value.major.Some?
    ensures r.Success? && index == 0 < |comps| ==> r.value.major.Some?
    decreases |comps| - index
  {
    if index == |comps| then Success(f)
    else if index == 0 then
      var n :- ParseU8(comps[index]);
      PrefixedFields(comps, index + 1, f.(major := Some(n)))
    else if index == 1 then
      var n :- ParseU8(comps[index]);
      PrefixedFields(comps, index + 1, f.(minor := Some(n)))
    else if index == 2 then
      var n :- ParseU8(comps[index]);
      PrefixedFields(comps, index + 1, f.(patch := Some(n)))
    else Failure(Malformed)
  }

  /** The component loop of a digit-led range: like `PrefixedFields`, except
      that a second component "x" stops with strategy `Minor` and a third
      component "x" stops with strategy `Patch`. */
  function DigitFields(comps: seq<string>, index: nat, f: Fields): (r: Result<(Fields, PatchStrategy), ParseError>)
    requires index <= |comps|
    ensures r.Success? ==> r.value.1 != Major
    ensures r.Success? && f.major.Some? ==> r.value.0.major.Some?
    ensures r.Success? && index == 0 < |comps| ==> r.value.0.major.Some?
    decreases |comps| - index
  {
    if index == |comps| then Success((f, Exact))
    else if index == 0 then
      var n :- ParseU8(comps[index]);
      DigitFields(comps, index + 1, f.(major := Some(n)))
    else if index == 1 then
      if comps[index] == "x" then Success((f, Minor))
      else
        var n :- ParseU8(comps[index]);
        DigitFields(comps, index + 1, f.(minor := Some(n)))
    else if index == 2 then
      if comps[index] == "x" then Success((f, Patch))
      else
        var n :- ParseU8(comps[index]);
        DigitFields(comps, index + 1, f.(patch := Some(n)))
    else Failure(Malformed)
  }

  /** The parse of the part before the appendix, dispatched on its first
      character. */
  function ParsePrefix(v: string, appendix: Option<string>): (r: Result<Version, ParseError>)
    ensures r.Success? ==> r.value.appendix == appendix
    ensures r.Success? ==> (IsWildcard(r.value) <==> r.value.major.None?)
    ensures r.Success? && IsWildcard(r.value) ==> r.value.minor.None? && r.value.patch.None?
    ensures |v| > 0 && (v[0] == '*' || v[0] == 'x') ==> r.Success? && IsWildcard(r.value)
    ensures r.Success? ==> |v| > 0 && (v[0] in "~^*x" || IsAsciiDigit(v[0]))
    ensures r.Success? && v[0] == '~' ==> r.value.patchStrategy == Patch
    ensures r.Success? && v[0] == '^' ==> r.value.patchStrategy == Minor
    ensures r.Success? && IsAsciiDigit(v[0]) ==> r.value.patchStrategy != Major
  {
    if |v| > 0 && (v[0] == '~' || v[0] == '^') then
      if |v| <= 1 then Failure(Malformed)
      else
        var f :- PrefixedFields(Split(v[1..]), 0, NoFields);
        Success(Version(f.major, f.minor, f.patch, appendix, if v[0] == '~' then Patch else Minor))
    else if |v| > 0 && IsAsciiDigit(v[0]) then
      var fs :- DigitFields(Split(v), 0, NoFields);
      Success(Version(fs.0.major, fs.0.minor, fs.0.patch, appendix, fs.1))
    else if |v| > 0 && (v[0] == '*' || v[0] == 'x') then
      Success(Version(None, None, None, appendix, Major))
    else Failure(Malformed)
  }

  /** `Version::try_from(&str)`. */
  function Parse(s: string): (r: Result<Version, ParseError>)
    // Success invariant: a wildcard, and only a wildcard, has no major.
    ensures r.Success? ==> (IsWildcard(r.value) <==> r.value.major.None?)
    ensures r.Success? && IsWildcard(r.value) ==> r.value.minor.None? && r.value.patch.None?
    // The appendix is absent exactly when there is no '-'; otherwise it is
    // the suffix from the first '-'.
    ensures r.Success? ==> (r.value.appendix.None? <==> '-' !in s)
    ensures r.Success? ==> forall i :: 0 <= i < |s| && s[i] == '-' && '-' !in s[..i] ==>
      r.value.appendix == Some(s[i..])
    // Dispatch on the leading character.
    ensures |s| > 0 && (s[0] == '*' || s[0] == 'x') ==>
      r.Success? && IsWildcard(r.value) && r.value.appendix == SplitAppendix(s).1
    ensures r.Success? && |s| > 0 && s[0] == '~' ==> r.value.patchStrategy == Patch
    ensures r.Success? && |s| > 0 && s[0] == '^' ==> r.value.patchStrategy == Minor
    ensures r.Success? && |s| > 0 && IsAsciiDigit(s[0]) ==> r.value.patchStrategy != Major
    ensures |s| == 0 || !(s[0] in "~^*x" || IsAsciiDigit(s[0])) ==> r.Failure?
  {
    var (prefix, appendix) := SplitAppendix(s);
    ParsePrefix(prefix, appendix)
  }
}
