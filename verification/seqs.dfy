/** Sequence helpers: duplicate-free sequences and "keep the first
    occurrence" deduplication, the order that both a JavaScript `Map`
    (keys in first-insertion order) and an insertion-ordered Python list
    with a `seen` set produce. */
module Seqs {

  predicate NoDup<T(==)>(xs: seq<T>) {
    forall i, j :: 0 <= i < j < |xs| ==> xs[i] != xs[j]
  }

  /** Position of the first occurrence of `x` in `xs`. */
  function IndexOf<T(==)>(xs: seq<T>, x: T): (k: nat)
    requires x in xs
    ensures k < |xs| && xs[k] == x
    ensures forall j :: 0 <= j < k ==> xs[j] != x
  {
    if xs[0] == x then 0 else 1 + IndexOf(xs[1..], x)
  }

  /** The elements of `xs`, each once, at the place of its first occurrence. */
  function Dedup<T(==)>(xs: seq<T>): (r: seq<T>)
    ensures NoDup(r)
    ensures forall i :: 0 <= i < |r| ==> r[i] in xs
    ensures forall i :: 0 <= i < |xs| ==> xs[i] in r
    ensures |r| <= |xs|
  {
    if |xs| == 0 then []
    else
      var d := Dedup(xs[..|xs| - 1]);
      var x := xs[|xs| - 1];
      assert forall i :: 0 <= i < |xs| - 1 ==> xs[i] == xs[..|xs| - 1][i];
      if x in d then d else d + [x]
  }

  lemma {:induction false} IndexOfPrefix<T>(xs: seq<T>, m: nat, x: T)
    requires m <= |xs| && x in xs[..m]
    ensures IndexOf(xs, x) == IndexOf(xs[..m], x)
  {
    if xs[0] != x {
      assert xs[1..][..m - 1] == xs[..m][1..];
      IndexOfPrefix(xs[1..], m - 1, x);
    }
  }

  /** Dedup keeps first occurrences in their original order: the earlier
      element of the result first occurs earlier in the input. */
  lemma {:induction false} DedupKeepsFirstOccurrenceOrder<T>(xs: seq<T>)
    ensures forall i, j :: 0 <= i < j < |Dedup(xs)| ==>
              IndexOf(xs, Dedup(xs)[i]) < IndexOf(xs, Dedup(xs)[j])
  {
    if |xs| > 0 {
      var n := |xs| - 1;
      var p := xs[..n];
      var d := Dedup(p);
      var r := Dedup(xs);
      DedupKeepsFirstOccurrenceOrder(p);
      forall i, j | 0 <= i < j < |r| ensures IndexOf(xs, r[i]) < IndexOf(xs, r[j]) {
        assert r[i] == d[i] && d[i] in p;
        IndexOfPrefix(xs, n, d[i]);
        if j < |d| {
          assert r[j] == d[j] && d[j] in p;
          IndexOfPrefix(xs, n, d[j]);
        } else {
          assert r[j] == xs[n] && xs[n] !in p;
          assert IndexOf(xs, xs[n]) == n;
        }
      }
    }
  }

  /** Dedup of a duplicate-free sequence is the sequence itself. */
  lemma {:induction false} DedupOfNoDup<T>(xs: seq<T>)
    requires NoDup(xs)
    ensures Dedup(xs) == xs
  {
    if |xs| > 0 {
      var n := |xs| - 1;
      DedupOfNoDup(xs[..n]);
      assert xs[n] !in xs[..n];
      assert xs[..n] + [xs[n]] == xs;
    }
  }
}
