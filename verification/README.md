# monosetup version ranges, in Dafny

This project models the version-range core of `monosetup`, a tool that gathers
the dependencies of many package manifests into one workspace. The core has
three parts:

- `Version::try_from(&str)` parses an npm-style range string into
  `major`/`minor`/`patch` (each an optional `u8`), an optional appendix and a
  `PatchStrategy`. The range string can be exact (`1.2.3`), tilde (`~1.2`),
  caret (`^1.2.3`), `x`-range (`1.x`, `1.2.x`) or wildcard (`*`, `x`). It may
  carry a `-suffix`.
- The hand-written `Ord for Version` comparator.
- The count/max fold inside `setup_mono`. For each `(name, range)` pair of
  each manifest's dependencies, it parses the range, counts the name once
  more and keeps the greater version.

The files:

- `wrappers.dfy` holds `Option` and `Result`.
- `text.dfy` holds the string operations the parser relies on:
  - `find`;
  - `split('.')`;
  - Rust's `str::parse::<u8>`.
- `version.dfy` holds `PatchStrategy`, `Version` and the parser.
- `parse_facts.dfy` holds closed forms and round trips for each kind of range.
- `orderings.dfy` holds `Ordering` and lexicographic comparison of integer
  sequences.
- `order.dfy` holds the comparator. On coherent pairs (all pairs except two
  structurally different wildcards) it is shown equal to a lexicographic
  order on a five-integer key, so there swapping the arguments reverses the
  result. `<=` and `<` are transitive on all values.
- `mono.dfy` holds the fold. It is written twice:
  - as a function over the flattened pair sequence;
  - as a method with the source's nested loops, proved equal to the function.
- `examples.dfy` holds the unit test's range list, as a table of the fields
  each range spells, and concrete parser, comparator and fold cases.

`PatchStrategy::None` is named `Exact` here, so it does not clash with
`Option.None`. Strings are `seq<char>`. The Rust code looks at bytes, but
every byte it checks is ASCII (`-`, `~`, `^`, `*`, `x`, `.`, `+` and the
digits), so the two views agree.

## Where the comparator is not a total order

- `Ord for Version` is not antisymmetric on wildcards. Two wildcards that
  differ only in their appendix are each `Greater` than the other
  (`VersionOrder.WildcardsBothGreater`). Between such wildcards, reversal
  under swapped arguments, totality of `<=` and transitivity of `>` fail
  (`VersionOrder.WildcardsBreakOrderLaws`). The lemmas that need those laws are
  stated for `Coherent` pairs, that is, all pairs except two structurally
  different wildcards. Transitivity of `<=` and `<` holds for all values.
- The fold depends on visiting order, in two cases. The fold replaces its
  kept version only on `Greater`.
  - The comparator says `Equal` for non-wildcard versions that differ only in
    their appendix. Among those the first-seen version wins the tie, so the
    appendix of the kept version depends on order
    (`Examples.FoldTieKeepsFirst`).
  - Two structurally different wildcards are each `Greater` than the other.
    Among those every new one replaces the kept one, so the last-seen
    wildcard wins (`Examples.FoldWildcardsKeepLast`).
- `setup_mono` builds its map and then returns `Ok(())`. The model returns the
  map, because the map is what the fold computes.

## Model

| member | source | states |
|---|---|---|
| Text.Find | monosetup/src/mono.rs:29 | `find` returns the first position of the character, and `None` exactly when it does not occur |
| Text.Split | monosetup/src/mono.rs:43 | `split('.')` yields at least one piece, no piece holds a dot, and joining the pieces with dots gives back the input |
| Text.SplitAfterPlain | monosetup/src/mono.rs:74 | a dot-free prefix glues onto the first piece of the split and leaves the other pieces alone |
| Text.SplitAfterDot | monosetup/src/mono.rs:74 | a leading dot produces an empty first piece |
| Text.SplitJoin | monosetup/src/mono.rs:43 | splitting a dot-join of dot-free pieces returns those pieces |
| Text.ParseU8 | monosetup/src/mono.rs:45 | `parse::<u8>` succeeds only when the string is an optional `+` followed by at least one digit: the first character is `+` or a digit, the rest are digits, and the last is a digit |
| Text.ParseU8Digits | monosetup/src/mono.rs:45 | on any non-empty digit string, a leading `+` changes nothing, the parse succeeds exactly when the decimal value is at most 255, and the result is that value |
| Text.ParseU8Decimal | monosetup/src/mono.rs:45 | every u8 written in decimal, with or without a leading `+`, parses back to itself |
| Text.ParseU8Overflow | monosetup/src/mono.rs:45 | a digit string whose value exceeds 255 fails |
| Text.ParseU8LeadingZeros | monosetup/src/mono.rs:45 | leading zeros do not change the parsed value |
| Versions.Ordinal | monosetup/src/mono.rs:12-18 | maps each strategy to its Rust discriminant, 0 to 3 |
| Versions.OrdinalInjective | monosetup/src/mono.rs:12-18 | distinct strategies have distinct discriminants, so the derived order on discriminants is a total order on strategies |
| Versions.SplitAppendix | monosetup/src/mono.rs:28-36 | the prefix is dash-free; the appendix exists exactly when the input has a dash, starts at the first dash, and prefix plus appendix is the input |
| Versions.PrefixedFields | monosetup/src/mono.rs:43-52 | the tilde/caret component loop, run from the first component over a non-empty list, sets major on success and never loses a major already set |
| Versions.DigitFields | monosetup/src/mono.rs:74-94 | the digit-led component loop never yields strategy Major, and when run from the first component it sets major on success |
| Versions.ParsePrefix | monosetup/src/mono.rs:37-112 | dispatch on the first byte: `~` gives Patch, `^` gives Minor, a digit gives a non-Major strategy, `*`/`x` gives a wildcard, anything else fails; the appendix is passed through |
| Versions.Parse | monosetup/src/mono.rs:23-113 | on success, strategy is Major exactly when major is None, and then minor and patch are None too; the appendix is the text from the first dash; a bad or missing first byte fails |
| ParseFacts.ParsePrefixAppendix | monosetup/src/mono.rs:53-110 | the appendix is copied into the result and does not influence anything else |
| ParseFacts.AppendixSplit | monosetup/src/mono.rs:28-36 | parsing `p + "-" + t` is parsing `p` with appendix `"-" + t` |
| ParseFacts.LeadingDashFails | monosetup/src/mono.rs:111 | a range starting with a dash leaves an empty prefix and fails |
| ParseFacts.PrefixedFieldsClosedForm | monosetup/src/mono.rs:43-52 | the tilde/caret loop succeeds exactly when there are at most three components and each parses as u8, and it fills the fields in order |
| ParseFacts.ParseTildeCaret | monosetup/src/mono.rs:39-70 | a tilde or caret range succeeds exactly when its one to three components are u8s, with missing trailing fields None and strategy Patch for `~`, Minor for `^` |
| ParseFacts.DigitFieldsClosedForm | monosetup/src/mono.rs:74-94 | the digit-led loop's success condition and result in closed form: an `x` second or third component stops it, otherwise at most three u8 components |
| ParseFacts.ParseDigitLed | monosetup/src/mono.rs:72-101 | a digit-led range succeeds exactly under that condition, and its strategy is Minor after `a.x`, Patch after `a.b.x`, Exact otherwise |
| ParseFacts.ParseWildcard | monosetup/src/mono.rs:103-110 | a leading `*` or `x` gives a wildcard with all numeric fields None, whatever follows |
| ParseFacts.RangeRoundTrip | monosetup/src/mono.rs:39-70 | `~` or `^` followed by one to three decimal u8s parses back to exactly those fields |
| ParseFacts.ExactRoundTrip | monosetup/src/mono.rs:72-101 | one to three dot-joined decimal u8s parse back to an exact version with exactly those fields |
| ParseFacts.MinorXRoundTrip | monosetup/src/mono.rs:77-81 | `a.x…` parses to major `a` with strategy Minor, and the rest is ignored |
| ParseFacts.PatchXRoundTrip | monosetup/src/mono.rs:84-88 | `a.b.x…` parses to major `a`, minor `b` with strategy Patch, and the rest is ignored |
| Orderings.CompareInt | monosetup/src/mono.rs:134 | the integer comparison is Less, Equal or Greater exactly as `<`, `==` or `>` |
| VersionOrder.Compare | monosetup/src/mono.rs:122-149 | `cmp`: its meaning is stated by `CompareIsKeyOrder`, `CompareReverse`, `CompareTransitive`, `WildcardDominance` and `WildcardsBothGreater` |
| VersionOrder.IsGreater | monosetup/src/mono.rs:167 | `ver_a > *ver_b`, that is, `cmp` returns Greater |
| VersionOrder.CompareOptionIsRank | monosetup/src/mono.rs:133-134 | the derived `Option<u8>` order is the integer order with None below every value |
| VersionOrder.CompareIsKeyOrder | monosetup/src/mono.rs:122-149 | on coherent pairs `cmp` equals the lexicographic order on (wildcard flag, major, strategy, minor, patch) |
| VersionOrder.CompareReverse | monosetup/src/mono.rs:122-149 | swapping coherent arguments reverses the result |
| VersionOrder.CompareTransitive | monosetup/src/mono.rs:122-149 | `<=` and `<` are transitive on all values, wildcards included |
| VersionOrder.CompareEqualIgnoresAppendix | monosetup/src/mono.rs:124-148 | on coherent pairs, Equal holds exactly when all fields but the appendix agree |
| VersionOrder.AppendixIgnored | monosetup/src/mono.rs:124-148 | changing the appendices never changes the result unless both values are wildcards |
| VersionOrder.AppendixOnlyDifferenceIsEqual | monosetup/src/mono.rs:136-143 | a non-wildcard and a copy with another appendix compare Equal |
| VersionOrder.SameMajorIsLexicographic | monosetup/src/mono.rs:136-148 | with equal majors, the 3×3 table is the lexicographic order on (strategy, minor, patch) |
| VersionOrder.WildcardDominance | monosetup/src/mono.rs:127-132 | a wildcard is Greater than every non-wildcard, and the reverse comparison is Less |
| VersionOrder.WildcardsBreakOrderLaws | monosetup/src/mono.rs:124-129 | between two structurally different wildcards, swapping does not reverse the result, neither is `<=` the other, and `>` is not transitive |
| VersionOrder.WildcardsBothGreater | monosetup/src/mono.rs:124-129 | two structurally different wildcards are each Greater than the other |
| Mono.Fold | monosetup/src/mono.rs:165-170 | the map built from parsed pairs: its meaning is stated by `FoldKeys`, `FoldBestOccurs` and `FoldBestIsFirstMaximum` |
| Mono.SetupMono | monosetup/src/mono.rs:153-171 | the fold over all manifests: its meaning is stated by `SetupMonoFails`, `SetupMonoCounts` and `ReduceBest` |
| Mono.Record | monosetup/src/mono.rs:165-170 | one `entry().and_modify().or_insert()` step adds the name to the keys and leaves every other name's tally unchanged |
| Mono.Reduce | monosetup/src/mono.rs:153-171 | the fold succeeds exactly when every range parses; its keys are exactly the names seen, and each count is the number of occurrences |
| Mono.ParseAll | monosetup/src/mono.rs:163 | parsing all ranges succeeds exactly when each one does, and keeps names and order |
| Mono.ReduceIsParseThenFold | monosetup/src/mono.rs:162-170 | parsing while folding is the same as parsing everything and then folding |
| Mono.FoldKeys | monosetup/src/mono.rs:165-170 | a name is in the map exactly when some pair has it |
| Mono.FoldBestOccurs | monosetup/src/mono.rs:167-168 | the kept version is one of the versions recorded for the name |
| Mono.KeepOnOtherName | monosetup/src/mono.rs:165 | a pair for another name leaves the first maximum of this name in place |
| Mono.FirstOccurrence | monosetup/src/mono.rs:170 | the first pair for a name makes its version the first maximum |
| Mono.ReplaceByGreater | monosetup/src/mono.rs:167-168 | a strictly greater version becomes the new first maximum |
| Mono.KeepOnNotGreater | monosetup/src/mono.rs:167 | a version that is not greater leaves the first maximum in place |
| Mono.FoldBestIsFirstMaximum | monosetup/src/mono.rs:165-170 | for coherent versions, the kept version is a maximum, and every earlier version for the name is strictly below it, so ties keep the first seen |
| Mono.ReduceBest | monosetup/src/mono.rs:162-170 | the kept version is the parse of one of the name's ranges, and under coherence it is their first maximum |
| Mono.FlattenAllParse | monosetup/src/mono.rs:155-163 | all pairs of all manifests parse exactly when each manifest's do |
| Mono.SetupMonoFails | monosetup/src/mono.rs:163 | the whole run fails exactly when some range of some manifest fails to parse |
| Mono.FlattenOccurrences | monosetup/src/mono.rs:155-166 | occurrences over the flattened pairs are the sum over the manifests |
| Mono.SetupMonoCounts | monosetup/src/mono.rs:165-170 | a name is recorded exactly when it occurs in some manifest, and its count is its total number of occurrences |
| Mono.ReduceSnoc | monosetup/src/mono.rs:162-170 | folding one more pair is one `Record` step on the previous map |
| Mono.RunSetupMono | monosetup/src/mono.rs:153-171 | the nested loops over manifests and pairs compute the fold, including its failure |
| Examples.EntryParses | monosetup/src/mono.rs:23-113 | a range spelled as an optional `~`/`^`, one to three decimal components and a dash-led appendix parses to exactly those fields, that strategy and that appendix |
| Examples.ParseWithAppendix | monosetup/src/mono.rs:28-36 | a dash-led suffix on a dash-free range becomes its appendix and changes nothing else |
| Examples.TableRenders | monosetup/src/mono.rs:182-206 | the test's 25 strings, in order, are the table's entries spelled out |
| Examples.TestRangesParse | monosetup/src/mono.rs:182-208 | every range in the unit test's list parses, to the fields its table entry lists, so its `unwrap` never panics |
| Examples.CaretWithAppendix | monosetup/src/mono.rs:196 | `^1.4.5-lts.1` is the caret range 1.4.5 with appendix `-lts.1` |
| Examples.NoLeaderFails | monosetup/src/mono.rs:111 | the empty string, `abc` and `=1.2.3` fail |
| Examples.LonePlusFails | monosetup/src/mono.rs:45 | `parse::<u8>` rejects a `+` with no digit after it |
| Examples.PlusLeadingZeros | monosetup/src/mono.rs:45 | `+007` parses to 7 |
| Examples.LoneTildeFails | monosetup/src/mono.rs:40-42 | a lone `~` fails |
| Examples.FourComponentsFail | monosetup/src/mono.rs:91-92 | `1.2.3.4` fails on its fourth component |
| Examples.OrderExamples | monosetup/src/mono.rs:122-149 | exact 1.2.3 < ~1.2.3 and ^1.2.3; ~1.2.3 < ^1.2.0 < ^1.2.3 < 2.0.0 < `*` |
| Examples.FoldWildcardsKeepLast | monosetup/src/mono.rs:165-170 | of two structurally different wildcards, the fold keeps whichever comes last |
| Examples.FoldPair | monosetup/src/mono.rs:165-170 | two pairs for one name give count 2 and keep the second version only if it is greater |
| Examples.FoldTieKeepsFirst | monosetup/src/mono.rs:165-170 | of two versions differing only in appendix, the fold keeps whichever comes first |

## Left out

- `monosetup/src/main.rs` is not part of this model. It is command-line parsing and process spawning (`git clone`, `pnpm`, `nx`) with threads; there is no logic to state.
- The filesystem walk and JSON decoding in `setup_mono` (`canonicalize`, `read_dir`, `File::open`, `serde_json`) are left out as I/O. The fold takes each manifest's dependencies as a sequence of `(name, range)` pairs in iteration order.
- The `unwrap` panics on a missing `"dependencies"` key or on non-object or non-string values are left out, because they happen inside the JSON layer that is not modelled.
- Error messages are not modelled. Every parse failure is the single value `Malformed`, and I/O errors do not arise.
- The unit test's `sort` and `println!` are left out, since output is not modelled. The only stated fact is that every listed range parses.
- `Mono.Reduce`: the count is a `nat`, so overflow of the `usize` counter is not modelled. It would need more than `usize::MAX` occurrences of one name.
- `Mono.FoldBestIsFirstMaximum`: the maximum is stated only when no two structurally different wildcards are recorded for the name. Among such wildcards the comparator has no maximum, since each is `Greater` than the others.
- `VersionOrder.CompareReverse`, `VersionOrder.CompareIsKeyOrder`, `VersionOrder.CompareEqualIgnoresAppendix`: stated only for `Coherent` pairs. Between two structurally different wildcards, reversal, totality of `<=` and transitivity of `>` all fail (`VersionOrder.WildcardsBreakOrderLaws`). Transitivity of `<=` and `<` holds everywhere (`VersionOrder.CompareTransitive`).
- The order of the input is taken as given. `setup_mono` never iterates its `HashMap`; the orders that matter are those of each manifest's `dependencies` object (a `serde_json` map: sorted unique keys, or insertion order with `preserve_order`) and of `read_dir` over the packages. Order matters only for the two cases above: ties between non-wildcards and distinct wildcards.
- A manifest in the model may list the same name twice, which a `serde_json` object cannot. This only widens the inputs the fold lemmas cover.
