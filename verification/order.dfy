/** `Ord for Version`: the hand-written comparator, and what it amounts to. */
module VersionOrder {
  import opened Wrappers
  import opened Text
  import opened Orderings
  import opened Versions

  /** Rust's derived order on `Option<u8>`: `None` below every `Some`. */
  function CompareOption(x: Option<u8>, y: Option<u8>): Ordering {
    match (x, y)
    case (None, None) => Equal
    case (None, Some(_)) => Less
    case (Some(_), None) => Greater
    case (Some(a), Some(b)) => CompareInt(a, b)
  }

  /** The derived order on `PatchStrategy`: declaration order. */
  function CompareStrategy(a: PatchStrategy, b: PatchStrategy): Ordering {
    CompareInt(Ordinal(a), Ordinal(b))
  }

  /** `Version::cmp`: structural equality first, then wildcard dominance,
      then major, then the table over (minor order, strategy order) with a
      patch tie-break. */
  function Compare(a: Version, b: Version): Ordering {
    if a == b then Equal
    else if a.patchStrategy == Major then Greater
    else if b.patchStrategy == Major then Less
    else if a.major != b.major then CompareOption(a.major, b.major)
    else
      match (CompareOption(a.minor, b.minor), CompareStrategy(a.patchStrategy, b.patchStrategy))
      case (Less, Less) | (Less, Equal) | (Equal, Less) | (Greater, Less) => Less
      case (Equal, Equal) => CompareOption(a.patch, b.patch)
      case (Less, Greater) | (Equal, Greater) | (Greater, Equal) | (Greater, Greater) => Greater
  }

  /** `ver_a > ver_b`, which goes through `partial_cmp`, i.e. `cmp`. */
  predicate IsGreater(a: Version, b: Version) {
    Compare(a, b) == Greater
  }

  // ---------------------------------------------------------------------
  // The reference order

  /** `Option<u8>` as an integer that preserves its order. */
  function Rank(x: Option<u8>): (n: nat)
    ensures n <= 256
  {
    match x
    case None => 0
    case Some(v) => v + 1
  }

  /** The sort key: a wildcard flag, then major, strategy, minor, patch.
      Wildcards all share the top key. */
  function Key(v: Version): (k: seq<int>)
    ensures |k| == 5
  {
    if IsWildcard(v) then [1, 0, 0, 0, 0]
    else [0, Rank(v.major), Ordinal(v.patchStrategy), Rank(v.minor), Rank(v.patch)]
  }

  /** The pairs on which the comparator is a total order: everything except
      two structurally different wildcards. */
  predicate Coherent(a: Version, b: Version) {
    !(IsWildcard(a) && IsWildcard(b) && a != b)
  }

  lemma CompareOptionIsRank(x: Option<u8>, y: Option<u8>)
    ensures CompareOption(x, y) == CompareInt(Rank(x), Rank(y))
  {
  }

  /** On coherent pairs the comparator is the lexicographic order on keys. */
  lemma CompareIsKeyOrder(a: Version, b: Version)
    requires Coherent(a, b)
    ensures Compare(a, b) == LexCompare(Key(a), Key(b))
  {
    var ka, kb := Key(a), Key(b);
    CompareOptionIsRank(a.major, b.major);
    CompareOptionIsRank(a.minor, b.minor);
    CompareOptionIsRank(a.patch, b.patch);
    if a == b {
      LexCompareEqual(ka, kb);
    } else if !IsWildcard(a) && !IsWildcard(b) {
      assert LexFrom(ka, kb, 0) == LexFrom(ka, kb, 1);
      if a.major == b.major {
        assert LexFrom(ka, kb, 1) == LexFrom(ka, kb, 2);
        if a.patchStrategy == b.patchStrategy {
          assert LexFrom(ka, kb, 2) == LexFrom(ka, kb, 3);
          if a.minor == b.minor {
            assert LexFrom(ka, kb, 3) == LexFrom(ka, kb, 4);
            assert LexFrom(ka, kb, 5) == Equal;
          }
        }
      }
    }
  }

  /** Swapping coherent arguments reverses the result. */
  lemma CompareReverse(a: Version, b: Version)
    requires Coherent(a, b)
    ensures Compare(b, a) == Compare(a, b).Reverse()
  {
    CompareIsKeyOrder(a, b);
    CompareIsKeyOrder(b, a);
    LexCompareReverse(Key(a), Key(b));
  }

  /** Transitivity of `<=` and of `<`, for all values. A wildcard is never
      below anything else, so only the wildcard-free case needs the keys. */
  lemma CompareTransitive(a: Version, b: Version, c: Version)
    ensures AtMost(Compare(a, b)) && AtMost(Compare(b, c)) ==> AtMost(Compare(a, c))
    ensures Compare(a, b) == Less && AtMost(Compare(b, c)) ==> Compare(a, c) == Less
    ensures AtMost(Compare(a, b)) && Compare(b, c) == Less ==> Compare(a, c) == Less
  {
    if !IsWildcard(a) && !IsWildcard(b) && !IsWildcard(c) {
      CompareIsKeyOrder(a, b);
      CompareIsKeyOrder(b, c);
      CompareIsKeyOrder(a, c);
      LexCompareTransitive(Key(a), Key(b), Key(c));
    }
  }

  /** On coherent pairs `Equal` means equal in every field but the appendix. */
  lemma CompareEqualIgnoresAppendix(a: Version, b: Version)
    requires Coherent(a, b)
    ensures Compare(a, b) == Equal <==> a.(appendix := None) == b.(appendix := None)
  {
    CompareIsKeyOrder(a, b);
    LexCompareEqual(Key(a), Key(b));
    if Key(a) == Key(b) && !IsWildcard(a) {
      assert Key(a)[1] == Key(b)[1] && Key(a)[3] == Key(b)[3] && Key(a)[4] == Key(b)[4];
      assert Key(a)[2] == Key(b)[2];
    }
  }

  /** The appendix never affects the result, except through the equality
      check of two wildcards. */
  lemma AppendixIgnored(a: Version, b: Version, x: Option<string>, y: Option<string>)
    requires !(IsWildcard(a) && IsWildcard(b))
    ensures Compare(a.(appendix := x), b.(appendix := y)) == Compare(a, b)
  {
    CompareIsKeyOrder(a, b);
    CompareIsKeyOrder(a.(appendix := x), b.(appendix := y));
  }

  /** Two versions that differ only in the appendix compare `Equal` although
      they are not `==`. */
  lemma AppendixOnlyDifferenceIsEqual(a: Version, x: Option<string>)
    requires !IsWildcard(a)
    ensures Compare(a, a.(appendix := x)) == Equal
  {
    CompareEqualIgnoresAppendix(a, a.(appendix := x));
  }

  /** Within one major the table is the lexicographic order on
      (strategy, minor, patch). */
  lemma SameMajorIsLexicographic(a: Version, b: Version)
    requires !IsWildcard(a) && !IsWildcard(b) && a.major == b.major
    ensures Compare(a, b) ==
      LexCompare([Ordinal(a.patchStrategy), Rank(a.minor), Rank(a.patch)],
                  [Ordinal(b.patchStrategy), Rank(b.minor), Rank(b.patch)])
  {
    var xs := [Ordinal(a.patchStrategy), Rank(a.minor), Rank(a.patch)];
    var ys := [Ordinal(b.patchStrategy), Rank(b.minor), Rank(b.patch)];
    CompareIsKeyOrder(a, b);
    var ka, kb := Key(a), Key(b);
    assert LexFrom(ka, kb, 0) == LexFrom(ka, kb, 2);
    assert LexFrom(ka, kb, 2) == LexFrom(xs, ys, 0) by {
      assert LexFrom(ka, kb, 5) == LexFrom(xs, ys, 3);
      assert LexFrom(ka, kb, 4) == LexFrom(xs, ys, 2);
      assert LexFrom(ka, kb, 3) == LexFrom(xs, ys, 1);
    }
  }

  /** Wildcard dominance: a wildcard is above every non-wildcard, whatever
      the numeric fields say. */
  lemma WildcardDominance(w: Version, v: Version)
    requires IsWildcard(w) && !IsWildcard(v)
    ensures Compare(w, v) == Greater
    ensures Compare(v, w) == Less
  {
  }

  /** Two structurally different wildcards are each `Greater` than the
      other: the comparator is not antisymmetric there. */
  lemma WildcardsBothGreater(w1: Version, w2: Version)
    requires IsWildcard(w1) && IsWildcard(w2) && w1 != w2
    ensures Compare(w1, w2) == Greater && Compare(w2, w1) == Greater
  {
  }

  /** The order laws that fail between two structurally different wildcards:
      swapping does not reverse the result, neither is `<=` the other, and
      `>` is not transitive (`w1 > w2 > w1`, yet not `w1 > w1`). */
  lemma WildcardsBreakOrderLaws(w1: Version, w2: Version)
    requires IsWildcard(w1) && IsWildcard(w2) && w1 != w2
    ensures Compare(w2, w1) != Compare(w1, w2).Reverse()
    ensures !AtMost(Compare(w1, w2)) && !AtMost(Compare(w2, w1))
    ensures IsGreater(w1, w2) && IsGreater(w2, w1) && !IsGreater(w1, w1)
  {
    WildcardsBothGreater(w1, w2);
  }
}
