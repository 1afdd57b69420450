/** Rust's `std::cmp::Ordering` and the lexicographic order on integer
    sequences that serves as the reference for the version comparator. */
module Orderings {

  datatype Ordering = Less | Equal | Greater {
    /** `Ordering::reverse`. */
    function Reverse(): Ordering {
      match this
      case Less => Greater
      case Equal => Equal
      case Greater => Less
    }
  }

  /** "Not greater": the relation `<=` induced by a comparison result. */
  predicate AtMost(o: Ordering) {
    o != Greater
  }

  function CompareInt(x: int, y: int): (o: Ordering)
    ensures o == Less <==> x < y
    ensures o == Equal <==> x == y
  {
    if x < y then Less else if x == y then Equal else Greater
  }

  /** Lexicographic comparison of two equally long sequences from position
      `i` on: the first position where they differ decides. */
  function LexFrom(xs: seq<int>, ys: seq<int>, i: nat): Ordering
    requires |xs| == |ys| && i <= |xs|
    decreases |xs| - i
  {
    if i == |xs| then Equal
    else if xs[i] != ys[i] then CompareInt(xs[i], ys[i])
    else LexFrom(xs, ys, i + 1)
  }

  function LexCompare(xs: seq<int>, ys: seq<int>): Ordering
    requires |xs| == |ys|
  {
    LexFrom(xs, ys, 0)
  }

  /** Swapping the arguments reverses the result. */
  lemma {:induction false} LexFromReverse(xs: seq<int>, ys: seq<int>, i: nat)
    requires |xs| == |ys| && i <= |xs|
    ensures LexFrom(ys, xs, i) == LexFrom(xs, ys, i).Reverse()
    decreases |xs| - i
  {
    if i < |xs| && xs[i] == ys[i] {
      LexFromReverse(xs, ys, i + 1);
    }
  }

  /** `Equal` exactly when the suffixes agree. */
  lemma {:induction false} LexFromEqual(xs: seq<int>, ys: seq<int>, i: nat)
    requires |xs| == |ys| && i <= |xs|
    ensures LexFrom(xs, ys, i) == Equal <==> xs[i..] == ys[i..]
    decreases |xs| - i
  {
    if i < |xs| {
      LexFromEqual(xs, ys, i + 1);
      assert xs[i..] == [xs[i]] + xs[i + 1..];
      assert ys[i..] == [ys[i]] + ys[i + 1..];
      if xs[i..] == ys[i..] {
        assert xs[i] == xs[i..][0] == ys[i..][0] == ys[i];
        assert xs[i + 1..] == xs[i..][1..] == ys[i..][1..] == ys[i + 1..];
      }
    }
  }

  /** Transitivity of `<=` and of `<`, mixing the two. */
  lemma {:induction false} LexFromTransitive(xs: seq<int>, ys: seq<int>, zs: seq<int>, i: nat)
    requires |xs| == |ys| == |zs| && i <= |xs|
    ensures AtMost(LexFrom(xs, ys, i)) && AtMost(LexFrom(ys, zs, i)) ==> AtMost(LexFrom(xs, zs, i))
    ensures LexFrom(xs, ys, i) == Less && AtMost(LexFrom(ys, zs, i)) ==> LexFrom(xs, zs, i) == Less
    ensures AtMost(LexFrom(xs, ys, i)) && LexFrom(ys, zs, i) == Less ==> LexFrom(xs, zs, i) == Less
    decreases |xs| - i
  {
    if i < |xs| && xs[i] == ys[i] == zs[i] {
      LexFromTransitive(xs, ys, zs, i + 1);
    }
  }

  lemma LexCompareReverse(xs: seq<int>, ys: seq<int>)
    requires |xs| == |ys|
    ensures LexCompare(ys, xs) == LexCompare(xs, ys).Reverse()
  {
    LexFromReverse(xs, ys, 0);
  }

  lemma LexCompareEqual(xs: seq<int>, ys: seq<int>)
    requires |xs| == |ys|
    ensures LexCompare(xs, ys) == Equal <==> xs == ys
  {
    LexFromEqual(xs, ys, 0);
  }

  lemma LexCompareTransitive(xs: seq<int>, ys: seq<int>, zs: seq<int>)
    requires |xs| == |ys| == |zs|
    ensures AtMost(LexCompare(xs, ys)) && AtMost(LexCompare(ys, zs)) ==> AtMost(LexCompare(xs, zs))
    ensures LexCompare(xs, ys) == Less && AtMost(LexCompare(ys, zs)) ==> LexCompare(xs, zs) == Less
    ensures AtMost(LexCompare(xs, ys)) && LexCompare(ys, zs) == Less ==> LexCompare(xs, zs) == Less
  {
    LexFromTransitive(xs, ys, zs, 0);
  }
}
