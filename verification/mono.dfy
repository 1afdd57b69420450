/** The count/max fold inside `setup_mono`: every `(name, range)` pair of
    every manifest's "dependencies" object is parsed, the name's counter is
    incremented and the larger version is kept. */
module Mono {
  import opened Wrappers
  import opened Text
  import opened Orderings
  import opened Versions
  import opened VersionOrder

  /** The range parser the fold applies to every range string;
      `SetupMono` uses `Version::try_from`, i.e. `Parse`. */
  type RangeParser = string -> Result<Version, ParseError>

  /** One manifest's dependencies, in iteration order. */
  type Manifest = seq<(string, string)>

  /** The value of the `HashMap<String, (usize, Version)>`. */
  datatype Tally = Tally(count: nat, best: Version)

  /** All pairs of all manifests, in the order the loops visit them. */
  function Flatten(ms: seq<Manifest>): seq<(string, string)> {
    if |ms| == 0 then [] else Flatten(ms[..|ms| - 1]) + ms[|ms| - 1]
  }

  /** The names of the pairs, in order. */
  function Names(ps: seq<(string, string)>): (ns: seq<string>)
    ensures |ns| == |ps| && forall i :: 0 <= i < |ps| ==> ns[i] == ps[i].0
  {
    seq(|ps|, i requires 0 <= i < |ps| => ps[i].0)
  }

  /** How often `name` occurs among the pairs. */
  function Occurrences(ps: seq<(string, string)>, name: string): nat {
    multiset(Names(ps))[name]
  }

  predicate AllParse(parse: RangeParser, ps: seq<(string, string)>) {
    forall i :: 0 <= i < |ps| ==> parse(ps[i].1).Success?
  }

  function ParsedAt(parse: RangeParser, ps: seq<(string, string)>, i: nat): Version
    requires i < |ps| && parse(ps[i].1).Success?
  {
    parse(ps[i].1).value
  }

  /** The `entry(k).and_modify(..).or_insert(..)` step: count one more
      occurrence and replace the kept version only by a strictly greater one. */
  function Record(deps: map<string, Tally>, name: string, v: Version): (r: map<string, Tally>)
    ensures r.Keys == deps.Keys + {name}
    ensures forall k :: k in deps && k != name ==> r[k] == deps[k]
  {
    if name in deps then
      var t := deps[name];
      deps[name := Tally(t.count + 1, if IsGreater(v, t.best) then v else t.best)]
    else
      deps[name := Tally(1, v)]
  }

  lemma NamesSnoc(ps: seq<(string, string)>)
    requires |ps| > 0
    ensures Names(ps) == Names(ps[..|ps| - 1]) + [ps[|ps| - 1].0]
  {
  }

  /** The fold over the pairs. Any parse failure aborts the whole fold; on
      success the keys are the names that occur and each count is the
      number of occurrences. */
  function Reduce(parse: RangeParser, ps: seq<(string, string)>): (r: Result<map<string, Tally>, ParseError>)
    ensures r.Success? <==> AllParse(parse, ps)
    ensures r.Success? ==> forall k :: k in r.value <==> k in Names(ps)
    ensures r.Success? ==> forall k :: k in r.value ==> r.value[k].count == Occurrences(ps, k)
  {
    if |ps| == 0 then Success(map[])
    else
      var init := ps[..|ps| - 1];
      var name := ps[|ps| - 1].0;
      assert forall i :: 0 <= i < |init| ==> init[i] == ps[i];
      var deps :- Reduce(parse, init);
      var v :- parse(ps[|ps| - 1].1);
      NamesSnoc(ps);
      Success(Record(deps, name, v))
  }

  /** `setup_mono`'s fold over a sequence of manifests. */
  function SetupMono(ms: seq<Manifest>): Result<map<string, Tally>, ParseError> {
    Reduce(Parse, Flatten(ms))
  }

  /** The pairs with every range parsed, or the failure of the first range
      that does not parse. */
  function ParseAll(parse: RangeParser, ps: seq<(string, string)>): (r: Result<seq<(string, Version)>, ParseError>)
    ensures r.Success? <==> AllParse(parse, ps)
    ensures r.Success? ==> |r.value| == |ps|
    ensures r.Success? ==> forall i :: 0 <= i < |ps| ==> r.value[i] == (ps[i].0, ParsedAt(parse, ps, i))
  {
    if |ps| == 0 then Success([])
    else
      var init := ps[..|ps| - 1];
      assert forall i :: 0 <= i < |init| ==> init[i] == ps[i];
      var es :- ParseAll(parse, init);
      var v :- parse(ps[|ps| - 1].1);
      Success(es + [(ps[|ps| - 1].0, v)])
  }

  /** The fold over already parsed pairs. */
  function Fold(es: seq<(string, Version)>): map<string, Tally> {
    if |es| == 0 then map[] else Record(Fold(es[..|es| - 1]), es[|es| - 1].0, es[|es| - 1].1)
  }

  /** Parsing as the pairs are visited is the same as parsing them all and
      then folding: a failure anywhere yields the failure, otherwise the
      fold of the parsed pairs. */
  lemma {:induction false} ReduceIsParseThenFold(parse: RangeParser, ps: seq<(string, string)>)
    ensures AllParse(parse, ps) ==> Reduce(parse, ps) == Success(Fold(ParseAll(parse, ps).value))
  {
    if |ps| > 0 && AllParse(parse, ps) {
      var init := ps[..|ps| - 1];
      assert forall i :: 0 <= i < |init| ==> init[i] == ps[i];
      ReduceIsParseThenFold(parse, init);
      var es := ParseAll(parse, ps).value;
      assert es[..|es| - 1] == ParseAll(parse, init).value;
    }
  }

  /** No two structurally different wildcards are recorded for `name`. */
  predicate CoherentFor(es: seq<(string, Version)>, name: string) {
    forall i, j :: 0 <= i < |es| && 0 <= j < |es| && es[i].0 == name && es[j].0 == name ==>
      Coherent(es[i].1, es[j].1)
  }

  /** `best`, recorded at position `m`, is the first maximum among the
      versions recorded for `name`: none is greater, and every one before
      position `m` is strictly smaller. */
  predicate FirstMaximum(es: seq<(string, Version)>, name: string, m: nat, best: Version) {
    && m < |es| && es[m] == (name, best)
    && (forall j :: 0 <= j < |es| && es[j].0 == name ==> AtMost(Compare(es[j].1, best)))
    && (forall j :: 0 <= j < m && es[j].0 == name ==> Compare(es[j].1, best) == Less)
  }

  lemma {:induction false} FoldKeys(es: seq<(string, Version)>, name: string)
    ensures name in Fold(es) <==> exists j :: 0 <= j < |es| && es[j].0 == name
  {
    if |es| > 0 {
      var init := es[..|es| - 1];
      FoldKeys(init, name);
      assert Fold(es).Keys == Fold(init).Keys + {es[|es| - 1].0};
      if name in Fold(init) {
        var j :| 0 <= j < |init| && init[j].0 == name;
        assert es[j] == init[j];
      }
      if j :| 0 <= j < |es| && es[j].0 == name {
        if j < |init| { assert init[j] == es[j]; }
      }
    }
  }

  /** The kept version is one of the versions recorded for the name. */
  lemma {:induction false} FoldBestOccurs(es: seq<(string, Version)>, name: string)
    requires name in Fold(es)
    ensures exists m :: 0 <= m < |es| && es[m] == (name, Fold(es)[name].best)
  {
    var init := es[..|es| - 1];
    var (n, v) := es[|es| - 1];
    var deps := Fold(init);
    if n != name || (name in deps && !IsGreater(v, deps[name].best)) {
      FoldBestOccurs(init, name);
      var m :| 0 <= m < |init| && init[m] == (name, deps[name].best);
      assert es[m] == init[m];
    }
  }

  /** A pair with another name leaves the first maximum where it was. */
  lemma KeepOnOtherName(es: seq<(string, Version)>, name: string, m: nat, best: Version)
    requires |es| > 0 && es[|es| - 1].0 != name
    requires FirstMaximum(es[..|es| - 1], name, m, best)
    ensures FirstMaximum(es, name, m, best)
  {
    var init := es[..|es| - 1];
    assert forall j :: 0 <= j < |init| ==> init[j] == es[j];
  }

  /** The first occurrence of a name is its first maximum so far. */
  lemma FirstOccurrence(es: seq<(string, Version)>, name: string)
    requires |es| > 0 && es[|es| - 1].0 == name
    requires forall j :: 0 <= j < |es| - 1 ==> es[j].0 != name
    ensures FirstMaximum(es, name, |es| - 1, es[|es| - 1].1)
  {
    var v := es[|es| - 1].1;
    assert Compare(v, v) == Equal;
  }

  /** A strictly greater version becomes the first maximum. */
  lemma ReplaceByGreater(es: seq<(string, Version)>, name: string, m: nat, prev: Version)
    requires |es| > 0 && es[|es| - 1].0 == name && CoherentFor(es, name)
    requires FirstMaximum(es[..|es| - 1], name, m, prev)
    requires IsGreater(es[|es| - 1].1, prev)
    ensures FirstMaximum(es, name, |es| - 1, es[|es| - 1].1)
  {
    var init := es[..|es| - 1];
    var last := |es| - 1;
    var v := es[last].1;
    assert forall j :: 0 <= j < |init| ==> init[j] == es[j];
    assert es[m] == (name, prev);
    assert Coherent(v, prev) by { assert Coherent(es[last].1, es[m].1); }
    CompareReverse(v, prev);
    forall j | 0 <= j < |es| && es[j].0 == name
      ensures AtMost(Compare(es[j].1, v))
      ensures j < last ==> Compare(es[j].1, v) == Less
    {
      var w := es[j].1;
      if j < last {
        assert AtMost(Compare(w, prev)) by { assert init[j] == es[j]; }
        assert Coherent(w, prev) by { assert Coherent(es[j].1, es[m].1); }
        assert Coherent(w, v) by { assert Coherent(es[j].1, es[last].1); }
        CompareTransitive(w, prev, v);
      } else {
        assert Compare(v, v) == Equal;
      }
    }
  }

  /** A version that is not strictly greater leaves the first maximum in
      place, also on a tie. */
  lemma KeepOnNotGreater(es: seq<(string, Version)>, name: string, m: nat, prev: Version)
    requires |es| > 0 && es[|es| - 1].0 == name
    requires FirstMaximum(es[..|es| - 1], name, m, prev)
    requires !IsGreater(es[|es| - 1].1, prev)
    ensures FirstMaximum(es, name, m, prev)
  {
    var init := es[..|es| - 1];
    assert forall j :: 0 <= j < |init| ==> init[j] == es[j];
  }

  /** The kept version is the first maximum among the versions recorded for
      the name, provided no two structurally different wildcards are among
      them: no recorded version is greater, and every version recorded before
      it is strictly smaller, so on ties the first-seen value stays. */
  lemma {:induction false} FoldBestIsFirstMaximum(es: seq<(string, Version)>, name: string)
    requires name in Fold(es) && CoherentFor(es, name)
    ensures exists m :: FirstMaximum(es, name, m, Fold(es)[name].best)
  {
    var init := es[..|es| - 1];
    var last := |es| - 1;
    assert forall j :: 0 <= j < |init| ==> init[j] == es[j];
    assert CoherentFor(init, name);
    var deps := Fold(init);
    var v := es[last].1;
    var best := Fold(es)[name].best;
    if es[last].0 != name {
      FoldBestIsFirstMaximum(init, name);
      var m :| FirstMaximum(init, name, m, best);
      KeepOnOtherName(es, name, m, best);
    } else if name !in deps {
      FoldKeys(init, name);
      FirstOccurrence(es, name);
    } else {
      var prev := deps[name].best;
      FoldBestIsFirstMaximum(init, name);
      var m :| FirstMaximum(init, name, m, prev);
      if IsGreater(v, prev) {
        ReplaceByGreater(es, name, m, prev);
      } else {
        KeepOnNotGreater(es, name, m, prev);
      }
    }
  }

  // ---------------------------------------------------------------------
  // The fold over manifests

  /** The kept version of each name is one of its recorded versions, and,
      when no two structurally different wildcards are recorded for it, the
      first maximum of them. */
  lemma ReduceBest(parse: RangeParser, ps: seq<(string, string)>, name: string)
    requires AllParse(parse, ps) && name in Reduce(parse, ps).value
    ensures exists m :: 0 <= m < |ps| && ps[m].0 == name && ParsedAt(parse, ps, m) == Reduce(parse, ps).value[name].best
    ensures CoherentFor(ParseAll(parse, ps).value, name) ==>
      exists m :: FirstMaximum(ParseAll(parse, ps).value, name, m, Reduce(parse, ps).value[name].best)
  {
    var es := ParseAll(parse, ps).value;
    ReduceIsParseThenFold(parse, ps);
    FoldBestOccurs(es, name);
    var m :| 0 <= m < |es| && es[m] == (name, Fold(es)[name].best);
    assert es[m] == (ps[m].0, ParsedAt(parse, ps, m));
    if CoherentFor(es, name) {
      FoldBestIsFirstMaximum(es, name);
    }
  }

  lemma {:induction false} AllParseConcat(parse: RangeParser, a: seq<(string, string)>, b: seq<(string, string)>)
    ensures AllParse(parse, a + b) <==> AllParse(parse, a) && AllParse(parse, b)
  {
    var c := a + b;
    assert forall i :: 0 <= i < |a| ==> c[i] == a[i];
    assert forall i :: 0 <= i < |b| ==> c[|a| + i] == b[i];
    if AllParse(parse, a) && AllParse(parse, b) {
      forall i | 0 <= i < |c| ensures parse(c[i].1).Success? {
        if i >= |a| { assert c[i] == b[i - |a|]; }
      }
    }
  }

  lemma {:induction false} FlattenAllParse(parse: RangeParser, ms: seq<Manifest>)
    ensures AllParse(parse, Flatten(ms)) <==> forall m :: 0 <= m < |ms| ==> AllParse(parse, ms[m])
  {
    if |ms| > 0 {
      var init := ms[..|ms| - 1];
      FlattenAllParse(parse, init);
      AllParseConcat(parse, Flatten(init), ms[|ms| - 1]);
      assert forall m :: 0 <= m < |init| ==> init[m] == ms[m];
    }
  }

  /** The fold over manifests fails exactly when some range in some manifest
      does not parse. */
  lemma SetupMonoFails(ms: seq<Manifest>)
    ensures SetupMono(ms).Failure? <==>
      exists m, j :: 0 <= m < |ms| && 0 <= j < |ms[m]| && Parse(ms[m][j].1).Failure?
  {
    FlattenAllParse(Parse, ms);
  }

  /** How often `name` occurs, summed over the manifests. */
  function TotalOccurrences(ms: seq<Manifest>, name: string): nat {
    if |ms| == 0 then 0 else TotalOccurrences(ms[..|ms| - 1], name) + Occurrences(ms[|ms| - 1], name)
  }

  lemma NamesConcat(a: seq<(string, string)>, b: seq<(string, string)>)
    ensures Names(a + b) == Names(a) + Names(b)
  {
  }

  lemma {:induction false} FlattenOccurrences(ms: seq<Manifest>, name: string)
    ensures Occurrences(Flatten(ms), name) == TotalOccurrences(ms, name)
  {
    if |ms| > 0 {
      var init := ms[..|ms| - 1];
      FlattenOccurrences(init, name);
      NamesConcat(Flatten(init), ms[|ms| - 1]);
    }
  }

  /** Each name's counter is the number of its occurrences across all
      manifests, and only names that occur have one. */
  lemma SetupMonoCounts(ms: seq<Manifest>, name: string)
    ensures SetupMono(ms).Success? ==>
      (name in SetupMono(ms).value <==> TotalOccurrences(ms, name) > 0)
    ensures SetupMono(ms).Success? && name in SetupMono(ms).value ==>
      SetupMono(ms).value[name].count == TotalOccurrences(ms, name)
  {
    FlattenOccurrences(ms, name);
    var ns := Names(Flatten(ms));
    assert name in ns <==> multiset(ns)[name] > 0;
  }

  /** One more pair extends a successful fold by one `Record` step. */
  lemma ReduceSnoc(parse: RangeParser, ps: seq<(string, string)>, pair: (string, string), deps: map<string, Tally>)
    requires Reduce(parse, ps) == Success(deps) && parse(pair.1).Success?
    ensures Reduce(parse, ps + [pair]) == Success(Record(deps, pair.0, parse(pair.1).value))
  {
    assert (ps + [pair])[..|ps|] == ps;
  }

  lemma FlattenSnoc(ms: seq<Manifest>, i: nat)
    requires i < |ms|
    ensures Flatten(ms[..i + 1]) == Flatten(ms[..i]) + ms[i]
  {
    assert ms[..i + 1][..i] == ms[..i];
  }

  lemma ExtendVisited(visited: seq<(string, string)>, manifest: Manifest, j: nat)
    requires j < |manifest|
    ensures visited + manifest[..j] + [manifest[j]] == visited + manifest[..j + 1]
  {
    assert manifest[..j + 1] == manifest[..j] + [manifest[j]];
  }

  /** The nested loops of `setup_mono` over the manifests and their pairs,
      returning on the first range that does not parse. */
  method RunSetupMono(ms: seq<Manifest>) returns (r: Result<map<string, Tally>, ParseError>)
    ensures r == SetupMono(ms)
  {
    var deps: map<string, Tally> := map[];
    var i := 0;
    while i < |ms|
      invariant 0 <= i <= |ms|
      invariant Reduce(Parse, Flatten(ms[..i])) == Success(deps)
    {
      var manifest := ms[i];
      ghost var visited := Flatten(ms[..i]);
      var j := 0;
      assert visited + manifest[..j] == visited;
      while j < |manifest|
        invariant 0 <= j <= |manifest|
        invariant Reduce(Parse, visited + manifest[..j]) == Success(deps)
      {
        var parsed := Parse(manifest[j].1);
        if parsed.Failure? {
          SetupMonoFails(ms);
          assert Parse(ms[i][j].1).Failure?;
          assert parsed.error == Malformed && SetupMono(ms).error == Malformed;
          return Failure(parsed.error);
        }
        ReduceSnoc(Parse, visited + manifest[..j], manifest[j], deps);
        ExtendVisited(visited, manifest, j);
        deps := Record(deps, manifest[j].0, parsed.value);
        j := j + 1;
      }
      assert manifest[..j] == manifest;
      FlattenSnoc(ms, i);
      i := i + 1;
    }
    assert ms[..i] == ms;
    r := Success(deps);
  }
}
