/** The participation grid as the frontend holds it: a JavaScript
    `Map<number, RowState>`. A `Map` is a finite map that also remembers the
    order in which its keys were first set; `set` on a present key replaces
    the value in place, on a new key appends it. Iteration
    (`grid.entries()`) follows that order. */
module OrderedGrid {
  import opened Types
  import opened Seqs

  datatype GridRep = GridRep(order: seq<int>, rows: map<int, RowState>)

  /** Each key once in `order`, and `order` lists exactly the keys of `rows`. */
  predicate WellFormed(g: GridRep) {
    && NoDup(g.order)
    && (forall k :: k in g.rows ==> k in g.order)
    && (forall i :: 0 <= i < |g.order| ==> g.order[i] in g.rows)
  }

  type Grid = g: GridRep | WellFormed(g) witness GridRep([], map[])

  /** `new Map()`. */
  const Empty: Grid := GridRep([], map[])

  /** `grid.get(id) || { participated: false, position: null, team_name: "" }`. */
  function GetOr(g: Grid, k: int): RowState {
    if k in g.rows then g.rows[k] else DefaultRow
  }

  /** `map.set(k, v)`. */
  function Set(g: Grid, k: int, v: RowState): Grid {
    if k in g.rows then GridRep(g.order, g.rows[k := v])
    else GridRep(g.order + [k], g.rows[k := v])
  }

  type Entry = (int, RowState)

  function Keys(es: seq<Entry>): (ks: seq<int>)
    ensures |ks| == |es| && forall i :: 0 <= i < |es| ==> ks[i] == es[i].0
  {
    seq(|es|, i requires 0 <= i < |es| => es[i].0)
  }

  /** A fresh map filled by `set`-ting the entries one after the other. */
  function FromEntries(es: seq<Entry>): Grid {
    if |es| == 0 then Empty
    else Set(FromEntries(es[..|es| - 1]), es[|es| - 1].0, es[|es| - 1].1)
  }

  /** The keys of a filled map are the keys of its entries. */
  lemma {:induction false} FromEntriesKeys(es: seq<Entry>)
    ensures forall k :: k in FromEntries(es).rows <==> exists i :: 0 <= i < |es| && es[i].0 == k
  {
    if |es| > 0 {
      var n := |es| - 1;
      var p := es[..n];
      FromEntriesKeys(p);
      forall k ensures k in FromEntries(es).rows <==> exists i :: 0 <= i < |es| && es[i].0 == k {
        if k in FromEntries(es).rows && k != es[n].0 {
          var i :| 0 <= i < |p| && p[i].0 == k;
          assert es[i].0 == k;
        }
        if k != es[n].0 && exists i :: 0 <= i < |es| && es[i].0 == k {
          var i :| 0 <= i < |es| && es[i].0 == k;
          assert p[i].0 == k;
        }
      }
    }
  }

  /** The keys of a filled map are ordered by their first entry. */
  lemma {:induction false} FromEntriesOrder(es: seq<Entry>)
    ensures FromEntries(es).order == Dedup(Keys(es))
  {
    if |es| > 0 {
      var n := |es| - 1;
      var p := es[..n];
      FromEntriesOrder(p);
      assert Keys(es)[..n] == Keys(p);
      var prev := FromEntries(p);
      assert es[n].0 in prev.rows <==> es[n].0 in prev.order;
    }
  }

  /** The value of a key is that of its last entry. */
  lemma {:induction false} FromEntriesLastWins(es: seq<Entry>, i: nat)
    requires i < |es|
    requires forall j :: i < j < |es| ==> es[j].0 != es[i].0
    ensures es[i].0 in FromEntries(es).rows && FromEntries(es).rows[es[i].0] == es[i].1
  {
    var n := |es| - 1;
    if i < n {
      FromEntriesLastWins(es[..n], i);
    }
  }

  /** If every entry for `k` carries the same row, that is the row of `k`. */
  lemma {:induction false} FromEntriesUniform(es: seq<Entry>, i: nat)
    requires i < |es|
    requires forall j :: 0 <= j < |es| && es[j].0 == es[i].0 ==> es[j].1 == es[i].1
    ensures es[i].0 in FromEntries(es).rows && FromEntries(es).rows[es[i].0] == es[i].1
  {
    var n := |es| - 1;
    if es[n].0 != es[i].0 {
      FromEntriesUniform(es[..n], i);
    }
  }

  /** `Array.from(grid.entries())`: the entries in insertion order. */
  function Entries(g: Grid): (es: seq<Entry>)
    ensures |es| == |g.order|
  {
    seq(|g.order|, i requires 0 <= i < |g.order| => (g.order[i], g.rows[g.order[i]]))
  }

  function PrefixRows(g: Grid, n: nat): map<int, RowState>
    requires n <= |g.order|
  {
    map k | k in g.order[..n] :: g.rows[k]
  }

  lemma {:induction false} EntriesPrefix(g: Grid, n: nat)
    requires n <= |g.order|
    ensures FromEntries(Entries(g)[..n]) == GridRep(g.order[..n], PrefixRows(g, n))
  {
    if n > 0 {
      var es := Entries(g);
      EntriesPrefix(g, n - 1);
      assert es[..n][..n - 1] == es[..n - 1];
      var k := g.order[n - 1];
      assert k !in g.order[..n - 1];
      PrefixRowsStep(g, n);
    }
  }

  lemma PrefixRowsStep(g: Grid, n: nat)
    requires 0 < n <= |g.order|
    ensures g.order[..n] == g.order[..n - 1] + [g.order[n - 1]]
    ensures PrefixRows(g, n) == PrefixRows(g, n - 1)[g.order[n - 1] := g.rows[g.order[n - 1]]]
  {
    var k := g.order[n - 1];
    assert g.order[..n] == g.order[..n - 1] + [k];
    var m, m' := PrefixRows(g, n), PrefixRows(g, n - 1)[k := g.rows[k]];
    assert forall x :: x in m <==> x in m';
    assert m.Keys == m'.Keys;
  }

  /** Re-filling a map from its own entries gives back the same map, order included. */
  lemma EntriesRebuild(g: Grid)
    ensures FromEntries(Entries(g)) == g
  {
    var n := |g.order|;
    EntriesPrefix(g, n);
    assert Entries(g)[..n] == Entries(g);
    assert g.order[..n] == g.order;
    var m := PrefixRows(g, n);
    forall k ensures k in m <==> k in g.rows {
      if k in g.order {
        var i :| 0 <= i < |g.order| && g.order[i] == k;
      }
    }
    assert m.Keys == g.rows.Keys;
    assert m == g.rows;
  }
}
