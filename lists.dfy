/**
 * The order-preserving de-duplication `sorted(set(xs), key=xs.index)`
 * and the `list.index` it sorts by.
 */
module Lists {
  /** No value appears twice. */
  predicate Distinct<T(==)>(xs: seq<T>) {
    forall i, j :: 0 <= i < j < |xs| ==> xs[i] != xs[j]
  }

  /** `xs.index(x)`: the position of the first occurrence of `x`. */
  function FirstIndex<T(==)>(xs: seq<T>, x: T): (k: nat)
    requires x in xs
    ensures k < |xs| && xs[k] == x
    ensures forall j :: 0 <= j < k ==> xs[j] != x
  {
    if xs[0] == x then 0 else 1 + FirstIndex(xs[1..], x)
  }

  /** Appending values never moves the first occurrence of a value already present. */
  lemma FirstIndexPrefix<T>(xs: seq<T>, ys: seq<T>, x: T)
    requires x in xs
    ensures x in xs + ys && FirstIndex(xs + ys, x) == FirstIndex(xs, x)
  {
    var k, m := FirstIndex(xs, x), FirstIndex(xs + ys, x);
    assert (xs + ys)[k] == x;
  }

  /** Each value of `xs` once, kept at the place where it first occurs. */
  function Dedupe<T(==,!new)>(xs: seq<T>): (r: seq<T>)
    ensures Distinct(r)
    ensures forall x :: x in r <==> x in xs
    decreases |xs|
  {
    if xs == [] then []
    else
      var r := Dedupe(xs[..|xs| - 1]);
      var x := xs[|xs| - 1];
      assert forall y :: y in xs <==> y in xs[..|xs| - 1] || y == x;
      if x in r then r else r + [x]
  }

  /** The de-duplicated values are sorted by where they first occur in `xs`. */
  lemma {:induction false} DedupeByFirstOccurrence<T(!new)>(xs: seq<T>)
    ensures forall i, j :: 0 <= i < j < |Dedupe(xs)| ==>
      FirstIndex(xs, Dedupe(xs)[i]) < FirstIndex(xs, Dedupe(xs)[j])
  {
    if xs != [] {
      var init, x := xs[..|xs| - 1], xs[|xs| - 1];
      assert xs == init + [x];
      var r0, r := Dedupe(init), Dedupe(xs);
      DedupeByFirstOccurrence(init);
      forall y | y in init ensures FirstIndex(xs, y) == FirstIndex(init, y) {
        FirstIndexPrefix(init, [x], y);
      }
      if x !in r0 {
        assert r == r0 + [x];
        assert FirstIndex(xs, x) == |init|;
      }
    }
  }

  /** A list without repeats is left as it is. */
  lemma {:induction false} DedupeDistinct<T(!new)>(xs: seq<T>)
    requires Distinct(xs)
    ensures Dedupe(xs) == xs
    decreases |xs|
  {
    if xs != [] {
      var init, x := xs[..|xs| - 1], xs[|xs| - 1];
      DedupeDistinct(init);
      assert x !in init;
    }
  }

  /** A repeat-free list that holds `c` and nothing else is just `[c]`. */
  lemma DistinctSingle<T>(r: seq<T>, c: T)
    requires Distinct(r) && c in r
    requires forall x :: x in r ==> x == c
    ensures r == [c]
  {
    assert r[0] in r;
    forall i | 0 <= i < |r| ensures r[i] == r[0] && i == 0 {
      assert r[i] in r;
    }
    assert r[|r| - 1] == r[0];
  }
}
