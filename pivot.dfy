/**
 * `derive_pivot`: the long table of observations becomes a wide table with
 * one row per entity `(state, county, fips)` and one column per indicator,
 * each cell the mean of the values observed for that entity and indicator.
 * Like `pivot_table`, rows and columns come out sorted; an entity that has
 * no observation of an indicator has an empty cell (NaN in pandas).
 */
module Pivot {
  import opened Basics
  import opened Text
  import opened Ordering
  import opened Stats
  import opened Schema

  /** A geographic entity. */
  datatype EntityKey = EntityKey(state: string, county: string, fips: string)

  /** pandas' order on index tuples: by state, then county, then fips. */
  predicate KeyLess(a: EntityKey, b: EntityKey) {
    || StrLess(a.state, b.state)
    || (a.state == b.state && StrLess(a.county, b.county))
    || (a.state == b.state && a.county == b.county && StrLess(a.fips, b.fips))
  }

  lemma KeyLessIsStrictTotalOrder()
    ensures StrictTotalOrder(KeyLess)
  {
    StrLessIsStrictTotalOrder();
    forall a, b | a != b
      ensures KeyLess(a, b) || KeyLess(b, a)
    {
      if a.state != b.state {
        StrLessTotal(a.state, b.state);
      } else if a.county != b.county {
        StrLessTotal(a.county, b.county);
      } else {
        StrLessTotal(a.fips, b.fips);
      }
    }
  }

  /** The wide table: `cells[i][j]` is entity `keys[i]`'s value for indicator `columns[j]`. */
  datatype WideTable = WideTable(keys: seq<EntityKey>, columns: seq<string>, cells: seq<seq<Option<real>>>)

  function KeyOf(o: Observation): EntityKey {
    EntityKey(o.state, o.county, o.fips)
  }

  function KeysOf(obs: seq<Observation>): (ks: seq<EntityKey>)
    ensures |ks| == |obs|
    ensures forall i :: 0 <= i < |obs| ==> ks[i] == KeyOf(obs[i])
  {
    seq(|obs|, i requires 0 <= i < |obs| => KeyOf(obs[i]))
  }

  function IndicatorsOf(obs: seq<Observation>): (inds: seq<string>)
    ensures |inds| == |obs|
    ensures forall i :: 0 <= i < |obs| ==> inds[i] == obs[i].indicator
  {
    seq(|obs|, i requires 0 <= i < |obs| => obs[i].indicator)
  }

  predicate Observes(o: Observation, k: EntityKey, ind: string) {
    KeyOf(o) == k && o.indicator == ind
  }

  /** The values observed for entity `k` and indicator `ind`, in row order. */
  function ValuesFor(obs: seq<Observation>, k: EntityKey, ind: string): seq<real> {
    if obs == [] then []
    else
      var n := |obs| - 1;
      ValuesFor(obs[..n], k, ind) + (if Observes(obs[n], k, ind) then [obs[n].value] else [])
  }

  /** The cell of the pivot: the mean of the duplicates, or empty. */
  function CellOf(obs: seq<Observation>, k: EntityKey, ind: string): Option<real> {
    var vs := ValuesFor(obs, k, ind);
    if vs == [] then None else Some(Mean(vs))
  }

  /** `derive_pivot`; an empty input gives an empty table. */
  function DerivePivot(obs: seq<Observation>): (p: WideTable)
    ensures obs == [] ==> p == WideTable([], [], [])
    ensures StrictlySorted(KeyLess, p.keys)
    ensures forall k :: k in p.keys <==> k in KeysOf(obs)
    ensures StrictlySorted(StrLess, p.columns)
    ensures forall c :: c in p.columns <==> c in IndicatorsOf(obs)
    ensures |p.cells| == |p.keys|
    ensures forall i :: 0 <= i < |p.keys| ==> |p.cells[i]| == |p.columns|
    ensures forall i, j :: 0 <= i < |p.keys| && 0 <= j < |p.columns| ==>
              p.cells[i][j] == CellOf(obs, p.keys[i], p.columns[j])
  {
    if obs == [] then WideTable([], [], [])
    else
      KeyLessIsStrictTotalOrder();
      StrLessIsStrictTotalOrder();
      var keys := SortedDistinct(KeyLess, KeysOf(obs));
      var columns := SortedDistinct(StrLess, IndicatorsOf(obs));
      var cells := seq(|keys|, i requires 0 <= i < |keys| =>
                     seq(|columns|, j requires 0 <= j < |columns| => CellOf(obs, keys[i], columns[j])));
      WideTable(keys, columns, cells)
  }

  // ---------------------------------------------------------------------
  // Properties of the cells

  lemma {:induction false} ValuesForNonEmpty(obs: seq<Observation>, k: EntityKey, ind: string)
    ensures ValuesFor(obs, k, ind) != [] <==> exists t :: 0 <= t < |obs| && Observes(obs[t], k, ind)
  {
    if obs != [] {
      var n := |obs| - 1;
      ValuesForNonEmpty(obs[..n], k, ind);
      if exists t :: 0 <= t < |obs| && Observes(obs[t], k, ind) {
        var t :| 0 <= t < |obs| && Observes(obs[t], k, ind);
        if t < n {
          assert obs[..n][t] == obs[t];
        }
      }
    }
  }

  lemma {:induction false} ValuesForBounds(obs: seq<Observation>, k: EntityKey, ind: string, lo: real, hi: real)
    requires forall t :: 0 <= t < |obs| && Observes(obs[t], k, ind) ==> lo <= obs[t].value <= hi
    ensures forall i :: 0 <= i < |ValuesFor(obs, k, ind)| ==> lo <= ValuesFor(obs, k, ind)[i] <= hi
  {
    if obs != [] {
      var n := |obs| - 1;
      assert forall t :: 0 <= t < n ==> obs[..n][t] == obs[t];
      ValuesForBounds(obs[..n], k, ind, lo, hi);
    }
  }

  /**
   * A cell is filled exactly when the entity has an observation of the
   * indicator, and its value, the mean over duplicates, lies between the
   * smallest and the largest of them (so one observation gives its value).
   */
  lemma PivotCell(obs: seq<Observation>, k: EntityKey, ind: string, lo: real, hi: real)
    requires forall t :: 0 <= t < |obs| && Observes(obs[t], k, ind) ==> lo <= obs[t].value <= hi
    ensures CellOf(obs, k, ind).Some? <==> exists t :: 0 <= t < |obs| && Observes(obs[t], k, ind)
    ensures CellOf(obs, k, ind).Some? ==> lo <= CellOf(obs, k, ind).value <= hi
  {
    ValuesForNonEmpty(obs, k, ind);
    ValuesForBounds(obs, k, ind, lo, hi);
    var vs := ValuesFor(obs, k, ind);
    if vs != [] {
      MeanBounds(vs, lo, hi);
    }
  }

  predicate RowFilled(p: WideTable, i: int)
    requires 0 <= i < |p.cells|
  {
    exists j :: 0 <= j < |p.cells[i]| && p.cells[i][j].Some?
  }

  predicate ColumnFilled(p: WideTable, j: int)
    requires forall i :: 0 <= i < |p.cells| ==> j < |p.cells[i]|
  {
    exists i :: 0 <= i < |p.cells| && 0 <= j < |p.cells[i]| && p.cells[i][j].Some?
  }

  /** Every entity row of the pivot has at least one filled cell. */
  lemma PivotRowsFilled(obs: seq<Observation>)
    ensures forall i :: 0 <= i < |DerivePivot(obs).cells| ==> RowFilled(DerivePivot(obs), i)
  {
    var p := DerivePivot(obs);
    forall i | 0 <= i < |p.cells|
      ensures RowFilled(p, i)
    {
      assert p.keys[i] in KeysOf(obs);
      var t :| 0 <= t < |obs| && KeysOf(obs)[t] == p.keys[i];
      assert obs[t].indicator in IndicatorsOf(obs);
      var j :| 0 <= j < |p.columns| && p.columns[j] == obs[t].indicator;
      ValuesForNonEmpty(obs, p.keys[i], p.columns[j]);
      assert Observes(obs[t], p.keys[i], p.columns[j]);
      assert p.cells[i][j].Some?;
    }
  }

  /** Every indicator column of the pivot has at least one filled cell. */
  lemma PivotColumnsFilled(obs: seq<Observation>)
    ensures forall j :: 0 <= j < |DerivePivot(obs).columns| ==> ColumnFilled(DerivePivot(obs), j)
  {
    var p := DerivePivot(obs);
    forall j | 0 <= j < |p.columns|
      ensures ColumnFilled(p, j)
    {
      assert p.columns[j] in IndicatorsOf(obs);
      var t :| 0 <= t < |obs| && IndicatorsOf(obs)[t] == p.columns[j];
      assert KeyOf(obs[t]) in KeysOf(obs);
      var i :| 0 <= i < |p.keys| && p.keys[i] == KeyOf(obs[t]);
      ValuesForNonEmpty(obs, p.keys[i], p.columns[j]);
      assert Observes(obs[t], p.keys[i], p.columns[j]);
      assert p.cells[i][j].Some?;
    }
  }
}
