/**
  Counting the unordered pairs of a list that satisfy a relation, the way a
  nested loop over `i < j` does, and the same pairs as a set of index pairs.
  Generic in the relation so that the counting arguments stay apart from the
  geometry of the pixel plane.
 */
module Pairs {

  /** How many elements of `s` stand in `close` to `a`. */
  function CountFrom<T>(close: (T, T) -> bool, a: T, s: seq<T>): (n: nat)
    ensures n <= |s|
  {
    if s == [] then 0
    else CountFrom(close, a, s[..|s| - 1]) + (if close(a, s[|s| - 1]) then 1 else 0)
  }

  /** Extending the slice `cs[lo..j]` by `cs[j]` adds one exactly when `cs[j]` is related to `a`. */
  lemma CountFromExtend<T>(close: (T, T) -> bool, a: T, cs: seq<T>, lo: nat, j: nat)
    requires lo <= j < |cs|
    ensures CountFrom(close, a, cs[lo..j + 1]) == CountFrom(close, a, cs[lo..j]) + (if close(a, cs[j]) then 1 else 0)
  {
    var s := cs[lo..j + 1];
    assert s[..|s| - 1] == cs[lo..j];
  }

  /** The number of pairs `i < j` with `close(cs[i], cs[j])`, one row `i` at a time. */
  function CountPairs<T>(close: (T, T) -> bool, cs: seq<T>): nat
  {
    if cs == [] then 0 else CountFrom(close, cs[0], cs[1..]) + CountPairs(close, cs[1..])
  }

  /** The pairs of a suffix `cs[i..]` are those of its first row and those of the suffix after it. */
  lemma CountPairsSuffix<T>(close: (T, T) -> bool, cs: seq<T>, i: nat)
    requires i < |cs|
    ensures CountPairs(close, cs[i..]) == CountFrom(close, cs[i], cs[i + 1..]) + CountPairs(close, cs[i + 1..])
  {
    assert cs[i..][1..] == cs[i + 1..];
  }

  /** The pairs themselves, as index pairs `(i, j)` with `i < j`. */
  function PairSet<T>(close: (T, T) -> bool, cs: seq<T>): set<(nat, nat)>
  {
    set i: nat, j: nat | i < j < |cs| && close(cs[i], cs[j]) :: (i, j)
  }

  /** The index pairs whose first index is at least `lo`. */
  function PairsFrom<T>(close: (T, T) -> bool, cs: seq<T>, lo: nat): set<(nat, nat)>
  {
    set i: nat, j: nat | lo <= i < j < |cs| && close(cs[i], cs[j]) :: (i, j)
  }

  /** The index pairs `(i, j)` with `i < j < hi`, for a fixed `i`. */
  function RowPairs<T>(close: (T, T) -> bool, cs: seq<T>, i: nat, hi: nat): set<(nat, nat)>
    requires i < |cs| && hi <= |cs|
  {
    set j: nat | i < j < hi && close(cs[i], cs[j]) :: (i, j)
  }

  lemma {:induction false} RowPairsCount<T>(close: (T, T) -> bool, cs: seq<T>, i: nat, hi: nat)
    requires i < hi <= |cs|
    ensures |RowPairs(close, cs, i, hi)| == CountFrom(close, cs[i], cs[i + 1..hi])
  {
    if hi == i + 1 {
      assert RowPairs(close, cs, i, hi) == {};
    } else {
      RowPairsCount(close, cs, i, hi - 1);
      RowPairsStep(close, cs, i, hi);
      var s := cs[i + 1..hi];
      assert s[..|s| - 1] == cs[i + 1..hi - 1];
      assert s[|s| - 1] == cs[hi - 1];
    }
  }

  /** Widening a row by one column adds that column's pair, if it is related, and nothing else. */
  lemma RowPairsStep<T>(close: (T, T) -> bool, cs: seq<T>, i: nat, hi: nat)
    requires i + 1 < hi <= |cs|
    ensures |RowPairs(close, cs, i, hi)| == |RowPairs(close, cs, i, hi - 1)| + (if close(cs[i], cs[hi - 1]) then 1 else 0)
  {
    var narrow := RowPairs(close, cs, i, hi - 1);
    if close(cs[i], cs[hi - 1]) {
      assert RowPairs(close, cs, i, hi) == narrow + {(i, hi - 1)};
      assert (i, hi - 1) !in narrow;
    } else {
      assert RowPairs(close, cs, i, hi) == narrow;
    }
  }

  /** The pairs from row `lo` on are those of row `lo` and, disjoint from them, those from row `lo + 1` on. */
  lemma PairsFromSplit<T>(close: (T, T) -> bool, cs: seq<T>, lo: nat)
    requires lo < |cs|
    ensures |PairsFrom(close, cs, lo)| == |RowPairs(close, cs, lo, |cs|)| + |PairsFrom(close, cs, lo + 1)|
  {
    var row, later := RowPairs(close, cs, lo, |cs|), PairsFrom(close, cs, lo + 1);
    forall p | p in PairsFrom(close, cs, lo)
      ensures p in row + later
    {
      if p.0 == lo {
        assert p in row;
      } else {
        assert p in later;
      }
    }
    assert PairsFrom(close, cs, lo) == row + later;
    assert row * later == {};
  }

  lemma {:induction false} PairsFromCount<T>(close: (T, T) -> bool, cs: seq<T>, lo: nat)
    requires lo <= |cs|
    ensures |PairsFrom(close, cs, lo)| == CountPairs(close, cs[lo..])
    decreases |cs| - lo
  {
    if lo == |cs| {
      assert PairsFrom(close, cs, lo) == {};
      assert cs[lo..] == [];
    } else {
      PairsFromCount(close, cs, lo + 1);
      RowPairsCount(close, cs, lo, |cs|);
      PairsFromSplit(close, cs, lo);
      var suffix := cs[lo..];
      assert suffix[1..] == cs[lo + 1..];
      assert suffix[0] == cs[lo];
      assert cs[lo + 1..|cs|] == cs[lo + 1..];
      assert CountPairs(close, suffix) == CountFrom(close, suffix[0], suffix[1..]) + CountPairs(close, suffix[1..]);
    }
  }

  /** The row-by-row count is the number of index pairs `i < j` in the relation: each is counted once. */
  lemma CountPairsIsPairSet<T>(close: (T, T) -> bool, cs: seq<T>)
    ensures CountPairs(close, cs) == |PairSet(close, cs)|
  {
    PairsFromCount(close, cs, 0);
    assert cs[0..] == cs;
    assert PairsFrom(close, cs, 0) == PairSet(close, cs);
  }

  /** At most `n * (n - 1) / 2` pairs among `n` elements, so none among one or none. */
  lemma {:induction false} CountPairsBound<T>(close: (T, T) -> bool, cs: seq<T>)
    ensures 2 * CountPairs(close, cs) <= |cs| * (|cs| - 1)
    ensures |cs| <= 1 ==> CountPairs(close, cs) == 0
  {
    if cs != [] {
      var n := |cs|;
      CountPairsBound(close, cs[1..]);
      assert 2 * CountPairs(close, cs[1..]) <= (n - 1) * (n - 2);
      assert (n - 1) * (n - 2) + 2 * (n - 1) == n * (n - 1);
    }
  }

  /** One element of `s` in relation to `a` makes the row count positive. */
  lemma {:induction false} CountFromWitness<T>(close: (T, T) -> bool, a: T, s: seq<T>, k: nat)
    requires k < |s| && close(a, s[k])
    ensures CountFrom(close, a, s) >= 1
  {
    if k < |s| - 1 {
      CountFromWitness(close, a, s[..|s| - 1], k);
    }
  }

  /** Elements placed in front of a list never lower its pair count. */
  lemma {:induction false} CountPairsDropFront<T>(close: (T, T) -> bool, xs: seq<T>, ys: seq<T>)
    ensures CountPairs(close, xs + ys) >= CountPairs(close, ys)
  {
    if xs == [] {
      assert xs + ys == ys;
    } else {
      var cs := xs + ys;
      assert cs[1..] == xs[1..] + ys;
      CountPairsDropFront(close, xs[1..], ys);
    }
  }

  /** Two elements in relation at the front of a list add at least one pair to the rest's count. */
  lemma RelatedFrontPair<T>(close: (T, T) -> bool, a: T, b: T, ys: seq<T>)
    requires close(a, b)
    ensures CountPairs(close, [a, b] + ys) >= 1 + CountPairs(close, ys)
  {
    var cs := [a, b] + ys;
    assert cs[1..] == [b] + ys;
    CountFromWitness(close, a, cs[1..], 0);
    CountPairsDropFront(close, [b], ys);
  }
}
