/**
 * The sorting logic of the leaderboard table
 * (frontend/src/components/tables/DataTableClient.tsx): the effective sort
 * column, the stable comparator sort on a copy of the rows, the click state
 * machine of the column headers, and the displayed rank.
 */
module DataTable {
  import opened Wrappers
  import opened Firestore

  // ---------------------------------------------------------------------
  // Effective sort key
  // ---------------------------------------------------------------------

  /** `sortKey ?? accuracyKeys[0] ?? null`. */
  function EffectiveSortKey(sortKey: Option<string>, accuracyKeys: seq<string>): (r: Option<string>)
    ensures sortKey.Some? ==> r == sortKey
    ensures sortKey.None? && |accuracyKeys| > 0 ==> r == Some(accuracyKeys[0])
    ensures sortKey.None? && |accuracyKeys| == 0 ==> r == None
  {
    match sortKey
    case Some(k) => Some(k)
    case None => if |accuracyKeys| > 0 then Some(accuracyKeys[0]) else None
  }

  /** `!effectiveSortKey` is false: a key is present and is not the (falsy) empty string. */
  predicate SortsBy(key: Option<string>) {
    key.Some? && key.value != ""
  }

  // ---------------------------------------------------------------------
  // The comparator
  // ---------------------------------------------------------------------

  /** `a.accuracyMetrics[k] ?? a.textMetrics[k] ?? 0`. */
  function SortValue(row: AggregatedModel, key: string): (v: real)
    ensures key in row.accuracyMetrics ==> v == row.accuracyMetrics[key]
    ensures key !in row.accuracyMetrics && key in row.textMetrics ==> v == row.textMetrics[key]
    ensures key !in row.accuracyMetrics && key !in row.textMetrics ==> v == 0.0
  {
    if key in row.accuracyMetrics then row.accuracyMetrics[key]
    else if key in row.textMetrics then row.textMetrics[key]
    else 0.0
  }

  /**
   * The comparator `sortAsc ? aVal - bVal : bVal - aVal` is non-positive:
   * a row with value `x` may stay before a row with value `y`.
   */
  predicate MayPrecede(asc: bool, x: real, y: real) {
    if asc then x <= y else y <= x
  }

  /** Rows ordered by the given column: ascending when `asc`, descending otherwise. */
  predicate SortedBy(rows: seq<AggregatedModel>, key: string, asc: bool) {
    forall i, j :: 0 <= i < j < |rows| ==> MayPrecede(asc, SortValue(rows[i], key), SortValue(rows[j], key))
  }

  /** The rows whose sort value is `v`, in their order. */
  function WithValue(rows: seq<AggregatedModel>, key: string, v: real): seq<AggregatedModel> {
    if rows == [] then []
    else (if SortValue(rows[0], key) == v then [rows[0]] else []) + WithValue(rows[1..], key, v)
  }

  /** Inserts `x` before the first row it may precede, so that it stays ahead of rows of equal value. */
  function InsertRow(x: AggregatedModel, rows: seq<AggregatedModel>, key: string, asc: bool): seq<AggregatedModel> {
    if rows == [] then [x]
    else if MayPrecede(asc, SortValue(x, key), SortValue(rows[0], key)) then [x] + rows
    else [rows[0]] + InsertRow(x, rows[1..], key, asc)
  }

  /** Inserting adds exactly `x` to the rows. */
  lemma {:induction false} InsertRowPermutes(x: AggregatedModel, rows: seq<AggregatedModel>, key: string, asc: bool)
    ensures multiset(InsertRow(x, rows, key, asc)) == multiset(rows) + multiset{x}
  {
    if rows != [] && !MayPrecede(asc, SortValue(x, key), SortValue(rows[0], key)) {
      InsertRowPermutes(x, rows[1..], key, asc);
      assert rows == [rows[0]] + rows[1..];
    }
  }

  /** Inserting into sorted rows keeps them sorted. */
  lemma {:induction false} InsertRowSorted(x: AggregatedModel, rows: seq<AggregatedModel>, key: string, asc: bool)
    requires SortedBy(rows, key, asc)
    ensures SortedBy(InsertRow(x, rows, key, asc), key, asc)
  {
    if rows == [] {
    } else if MayPrecede(asc, SortValue(x, key), SortValue(rows[0], key)) {
      ConsSorted(x, rows, key, asc);
    } else {
      var t := InsertRow(x, rows[1..], key, asc);
      assert SortedBy(rows[1..], key, asc);
      InsertRowSorted(x, rows[1..], key, asc);
      InsertRowPermutes(x, rows[1..], key, asc);
      assert rows == [rows[0]] + rows[1..];
      HeadPrecedesAll(rows[0], t, rows[1..], x, key, asc);
      ConsSorted(rows[0], t, key, asc);
    }
  }

  lemma ConsSorted(h: AggregatedModel, t: seq<AggregatedModel>, key: string, asc: bool)
    requires SortedBy(t, key, asc)
    requires forall j :: 0 <= j < |t| ==> MayPrecede(asc, SortValue(h, key), SortValue(t[j], key))
    ensures SortedBy([h] + t, key, asc)
  {
    forall i, j | 0 <= i < j < |[h] + t|
      ensures MayPrecede(asc, SortValue(([h] + t)[i], key), SortValue(([h] + t)[j], key))
    {
      assert ([h] + t)[j] == t[j - 1];
      if i > 0 {
        assert ([h] + t)[i] == t[i - 1];
      }
    }
  }

  /** A row that may precede every row of `rest` and `x` may precede every row of a rearrangement of them. */
  lemma HeadPrecedesAll(h: AggregatedModel, t: seq<AggregatedModel>, rest: seq<AggregatedModel>,
                        x: AggregatedModel, key: string, asc: bool)
    requires SortedBy([h] + rest, key, asc)
    requires !MayPrecede(asc, SortValue(x, key), SortValue(h, key))
    requires multiset(t) == multiset(rest) + multiset{x}
    ensures forall j :: 0 <= j < |t| ==> MayPrecede(asc, SortValue(h, key), SortValue(t[j], key))
  {
    forall j | 0 <= j < |t| ensures MayPrecede(asc, SortValue(h, key), SortValue(t[j], key)) {
      assert t[j] in multiset(rest) + multiset{x};
      if t[j] != x {
        assert t[j] in multiset(rest);
        var k :| 0 <= k < |rest| && rest[k] == t[j];
        assert ([h] + rest)[0] == h && ([h] + rest)[k + 1] == t[j];
      }
    }
  }

  /**
   * `[...initialData].sort(comparator)`: the JavaScript sort is stable,
   * so this is a stable insertion sort on a copy of the rows.
   */
  function SortRows(rows: seq<AggregatedModel>, key: string, asc: bool): (r: seq<AggregatedModel>)
    ensures SortedBy(r, key, asc)
    ensures multiset(r) == multiset(rows)
  {
    if rows == [] then []
    else
      assert rows == [rows[0]] + rows[1..];
      InsertRowSorted(rows[0], SortRows(rows[1..], key, asc), key, asc);
      InsertRowPermutes(rows[0], SortRows(rows[1..], key, asc), key, asc);
      InsertRow(rows[0], SortRows(rows[1..], key, asc), key, asc)
  }

  /** The `sorted` memo of the table. */
  function SortedRows(rows: seq<AggregatedModel>, sortKey: Option<string>, sortAsc: bool, accuracyKeys: seq<string>): seq<AggregatedModel> {
    var eff := EffectiveSortKey(sortKey, accuracyKeys);
    if SortsBy(eff) then SortRows(rows, eff.value, sortAsc) else rows
  }

  lemma WithValueAppend(a: seq<AggregatedModel>, b: seq<AggregatedModel>, key: string, v: real)
    ensures WithValue(a + b, key, v) == WithValue(a, key, v) + WithValue(b, key, v)
  {
    if a != [] {
      assert (a + b)[1..] == a[1..] + b;
      WithValueAppend(a[1..], b, key, v);
    } else {
      assert a + b == b;
    }
  }

  lemma {:induction false} InsertRowWithValue(x: AggregatedModel, rows: seq<AggregatedModel>, key: string, asc: bool, v: real)
    ensures WithValue(InsertRow(x, rows, key, asc), key, v) == WithValue([x] + rows, key, v)
  {
    if rows != [] && !MayPrecede(asc, SortValue(x, key), SortValue(rows[0], key)) {
      var t := InsertRow(x, rows[1..], key, asc);
      InsertRowWithValue(x, rows[1..], key, asc, v);
      assert rows == [rows[0]] + rows[1..];
      WithValueCons(rows[0], t, key, v);
      WithValueCons(x, rows[1..], key, v);
      WithValueCons(x, rows, key, v);
      WithValueCons(rows[0], rows[1..], key, v);
      var a0: seq<AggregatedModel> := if SortValue(rows[0], key) == v then [rows[0]] else [];
      var ax: seq<AggregatedModel> := if SortValue(x, key) == v then [x] else [];
      var w := WithValue(rows[1..], key, v);
      // `x` and `rows[0]` have different values, so at most one of them is kept.
      assert SortValue(x, key) != SortValue(rows[0], key);
      assert a0 == [] || ax == [];
      SwapAroundEmpty(a0, ax, w);
    }
  }

  lemma SwapAroundEmpty(a: seq<AggregatedModel>, b: seq<AggregatedModel>, w: seq<AggregatedModel>)
    requires a == [] || b == []
    ensures a + (b + w) == b + (a + w)
  {
    if a == [] {
      assert a + (b + w) == b + w && a + w == w;
    } else {
      assert b + w == w && b + (a + w) == a + w;
    }
  }

  lemma WithValueCons(a: AggregatedModel, rows: seq<AggregatedModel>, key: string, v: real)
    ensures WithValue([a] + rows, key, v) == (if SortValue(a, key) == v then [a] else []) + WithValue(rows, key, v)
  {
    assert ([a] + rows)[1..] == rows;
  }

  /** The sort is stable: the rows of any one value keep their input order. */
  lemma {:induction false} SortRowsStable(rows: seq<AggregatedModel>, key: string, asc: bool, v: real)
    ensures WithValue(SortRows(rows, key, asc), key, v) == WithValue(rows, key, v)
  {
    if rows != [] {
      var s := SortRows(rows[1..], key, asc);
      SortRowsStable(rows[1..], key, asc, v);
      InsertRowWithValue(rows[0], s, key, asc, v);
      assert ([rows[0]] + s)[1..] == s;
    }
  }

  /**
   * With no usable sort key the rows keep their input order; otherwise the
   * result is a permutation of the rows, ordered by the effective column in
   * the chosen direction, and rows of equal value keep their input order.
   */
  lemma SortedRowsSpec(rows: seq<AggregatedModel>, sortKey: Option<string>, sortAsc: bool, accuracyKeys: seq<string>)
    ensures !SortsBy(EffectiveSortKey(sortKey, accuracyKeys)) ==> SortedRows(rows, sortKey, sortAsc, accuracyKeys) == rows
    ensures multiset(SortedRows(rows, sortKey, sortAsc, accuracyKeys)) == multiset(rows)
    ensures SortsBy(EffectiveSortKey(sortKey, accuracyKeys)) ==>
              var k := EffectiveSortKey(sortKey, accuracyKeys).value;
              SortedBy(SortedRows(rows, sortKey, sortAsc, accuracyKeys), k, sortAsc) &&
              forall v :: WithValue(SortedRows(rows, sortKey, sortAsc, accuracyKeys), k, v) == WithValue(rows, k, v)
  {
    var eff := EffectiveSortKey(sortKey, accuracyKeys);
    if SortsBy(eff) {
      forall v ensures WithValue(SortRows(rows, eff.value, sortAsc), eff.value, v) == WithValue(rows, eff.value, v) {
        SortRowsStable(rows, eff.value, sortAsc, v);
      }
    }
  }

  // ---------------------------------------------------------------------
  // Uniqueness: sorted, permuted and stable determines the result
  // ---------------------------------------------------------------------

  lemma WithValueMultiset(rows: seq<AggregatedModel>, key: string, v: real, x: AggregatedModel)
    requires SortValue(x, key) == v
    ensures multiset(WithValue(rows, key, v))[x] == multiset(rows)[x]
  {
    if rows != [] {
      WithValueMultiset(rows[1..], key, v, x);
      assert rows == [rows[0]] + rows[1..];
    }
  }

  /**
   * Any ordering of the rows that is sorted in the same direction and keeps
   * each value's rows in input order is the result of SortRows.
   */
  lemma {:induction false} StableSortUnique(a: seq<AggregatedModel>, b: seq<AggregatedModel>, key: string, asc: bool)
    requires SortedBy(a, key, asc) && SortedBy(b, key, asc)
    requires forall v :: WithValue(a, key, v) == WithValue(b, key, v)
    ensures a == b
    decreases |a| + |b|
  {
    if a != [] {
      WithValueCons(a[0], a[1..], key, SortValue(a[0], key));
      assert a == [a[0]] + a[1..];
      assert WithValue(b, key, SortValue(a[0], key)) != [];
    }
    if b != [] {
      WithValueCons(b[0], b[1..], key, SortValue(b[0], key));
      assert b == [b[0]] + b[1..];
      assert WithValue(a, key, SortValue(b[0], key)) != [];
    }
    if a != [] && b != [] {
      HeadsAgreeValue(a, b, key, asc);
      TailsAgree(a, b, key);
      StableSortUnique(a[1..], b[1..], key, asc);
      assert a == [a[0]] + a[1..] && b == [b[0]] + b[1..];
    }
  }

  /** Two sorted orderings with the same rows per value start with rows of the same value. */
  lemma HeadsAgreeValue(a: seq<AggregatedModel>, b: seq<AggregatedModel>, key: string, asc: bool)
    requires a != [] && b != []
    requires SortedBy(a, key, asc) && SortedBy(b, key, asc)
    requires forall v :: WithValue(a, key, v) == WithValue(b, key, v)
    ensures SortValue(a[0], key) == SortValue(b[0], key)
  {
    var va, vb := SortValue(a[0], key), SortValue(b[0], key);
    WithValueCons(a[0], a[1..], key, va);
    WithValueCons(b[0], b[1..], key, vb);
    assert a == [a[0]] + a[1..] && b == [b[0]] + b[1..];
    WithValueOccurs(b, key, va);
    WithValueOccurs(a, key, vb);
    var i :| 0 <= i < |b| && SortValue(b[i], key) == va;
    var j :| 0 <= j < |a| && SortValue(a[j], key) == vb;
    if i > 0 {
      assert MayPrecede(asc, SortValue(b[0], key), SortValue(b[i], key));
    }
    if j > 0 {
      assert MayPrecede(asc, SortValue(a[0], key), SortValue(a[j], key));
    }
  }

  /** Then the two start with the same row, and their tails have the same rows per value. */
  lemma TailsAgree(a: seq<AggregatedModel>, b: seq<AggregatedModel>, key: string)
    requires a != [] && b != []
    requires SortValue(a[0], key) == SortValue(b[0], key)
    requires forall v :: WithValue(a, key, v) == WithValue(b, key, v)
    ensures a[0] == b[0]
    ensures forall v :: WithValue(a[1..], key, v) == WithValue(b[1..], key, v)
  {
    HeadRow(a, b, key);
    forall v ensures WithValue(a[1..], key, v) == WithValue(b[1..], key, v) {
      TailAt(a, b, key, v);
    }
  }

  lemma HeadRow(a: seq<AggregatedModel>, b: seq<AggregatedModel>, key: string)
    requires a != [] && b != []
    requires SortValue(a[0], key) == SortValue(b[0], key)
    requires WithValue(a, key, SortValue(a[0], key)) == WithValue(b, key, SortValue(a[0], key))
    ensures a[0] == b[0]
  {
    var va := SortValue(a[0], key);
    assert a == [a[0]] + a[1..] && b == [b[0]] + b[1..];
    WithValueCons(a[0], a[1..], key, va);
    WithValueCons(b[0], b[1..], key, va);
    assert WithValue(a, key, va)[0] == a[0];
  }

  lemma TailAt(a: seq<AggregatedModel>, b: seq<AggregatedModel>, key: string, v: real)
    requires a != [] && b != [] && a[0] == b[0]
    requires WithValue(a, key, v) == WithValue(b, key, v)
    ensures WithValue(a[1..], key, v) == WithValue(b[1..], key, v)
  {
    var ra, rb := WithValue(a[1..], key, v), WithValue(b[1..], key, v);
    assert a == [a[0]] + a[1..] && b == [b[0]] + b[1..];
    WithValueCons(a[0], a[1..], key, v);
    WithValueCons(b[0], b[1..], key, v);
    if SortValue(a[0], key) == v {
      assert ([a[0]] + ra)[1..] == ra && ([b[0]] + rb)[1..] == rb;
    } else {
      assert [] + ra == ra && [] + rb == rb;
    }
  }

  lemma {:induction false} WithValueOccurs(rows: seq<AggregatedModel>, key: string, v: real)
    ensures WithValue(rows, key, v) != [] ==> exists i :: 0 <= i < |rows| && SortValue(rows[i], key) == v
  {
    if rows != [] && WithValue(rows, key, v) != [] && SortValue(rows[0], key) != v {
      WithValueOccurs(rows[1..], key, v);
      var i :| 0 <= i < |rows| - 1 && SortValue(rows[1..][i], key) == v;
      assert rows[i + 1] == rows[1..][i];
    }
  }

  // ---------------------------------------------------------------------
  // Click state machine
  // ---------------------------------------------------------------------

  datatype SortSettings = SortSettings(sortKey: Option<string>, sortAsc: bool)

  /** `handleSort(key)`: the same key flips the direction, another key is chosen descending. */
  function Click(s: SortSettings, key: string): (r: SortSettings)
    ensures s.sortKey == Some(key) ==> r.sortKey == s.sortKey && r.sortAsc == !s.sortAsc
    ensures s.sortKey != Some(key) ==> r.sortKey == Some(key) && !r.sortAsc
  {
    if s.sortKey == Some(key) then SortSettings(s.sortKey, !s.sortAsc) else SortSettings(Some(key), false)
  }

  /** The `useState` pair of the table. */
  class SortState {
    var sortKey: Option<string>
    var sortAsc: bool

    /** Initially no column is chosen and the direction is descending. */
    constructor ()
      ensures sortKey == None && !sortAsc
    {
      sortKey := None;
      sortAsc := false;
    }

    function Settings(): SortSettings
      reads this
    {
      SortSettings(sortKey, sortAsc)
    }

    method HandleSort(key: string)
      modifies this
      ensures Settings() == Click(old(Settings()), key)
    {
      if sortKey == Some(key) {
        sortAsc := !sortAsc;
      } else {
        sortKey := Some(key);
        sortAsc := false;
      }
    }
  }

  /** Clicking the chosen column twice restores the direction. */
  lemma ClickTwiceRestores(s: SortSettings, key: string)
    requires s.sortKey == Some(key)
    ensures Click(Click(s, key), key) == s
  {
  }

  /** Clicking another column always starts descending, whatever the direction was. */
  lemma ClickNewColumnDescends(s: SortSettings, key: string)
    requires s.sortKey != Some(key)
    ensures !Click(s, key).sortAsc && EffectiveSortKey(Click(s, key).sortKey, []) == Some(key)
  {
  }

  /**
   * Before any click the table sorts by the first accuracy column, descending.
   * The first click on that column does not flip the direction (the stored key
   * is still unset): the effective column and the direction stay the same.
   */
  lemma FirstClickOnDefaultColumn(accuracyKeys: seq<string>)
    requires |accuracyKeys| > 0
    ensures var s0 := SortSettings(None, false);
            var s1 := Click(s0, accuracyKeys[0]);
            EffectiveSortKey(s0.sortKey, accuracyKeys) == EffectiveSortKey(s1.sortKey, accuracyKeys) &&
            s0.sortAsc == s1.sortAsc == false
  {
  }

  /** Only the second click on the default column sorts ascending. */
  lemma SecondClickOnDefaultColumn(accuracyKeys: seq<string>)
    requires |accuracyKeys| > 0
    ensures Click(Click(SortSettings(None, false), accuracyKeys[0]), accuracyKeys[0]).sortAsc
  {
  }

  // ---------------------------------------------------------------------
  // Displayed rank
  // ---------------------------------------------------------------------

  /**
   * The displayed rank `index + 1` of every row of the sorted table: the
   * ranks are exactly 1 to the number of rows, one per row, rising in
   * display order.
   */
  function Ranks(sorted: seq<AggregatedModel>): (r: seq<nat>)
    ensures |r| == |sorted|
    ensures forall i :: 0 <= i < |r| ==> 1 <= r[i] <= |sorted|
    ensures forall k :: 1 <= k <= |sorted| ==> k in r
    ensures forall i, j :: 0 <= i < j < |r| ==> r[i] < r[j]
  {
    var r := seq(|sorted|, i => i + 1);
    assert forall i :: 0 <= i < |r| ==> r[i] == i + 1;
    assert forall k :: 1 <= k <= |sorted| ==> r[k - 1] == k && k in r;
    r
  }

  /** Rank 1 goes to a row with the best value in the chosen direction, and ranks follow the order. */
  lemma RankOrder(rows: seq<AggregatedModel>, key: string, asc: bool)
    ensures var sorted := SortRows(rows, key, asc);
            var ranks := Ranks(sorted);
            forall i, j :: 0 <= i < |sorted| && 0 <= j < |sorted| && ranks[i] < ranks[j] ==>
              MayPrecede(asc, SortValue(sorted[i], key), SortValue(sorted[j], key))
  {
  }

  /** In the default descending order, the row ranked first has the highest value of all rows. */
  lemma TopRankIsBest(rows: seq<AggregatedModel>, key: string)
    requires |rows| > 0
    ensures forall r :: r in rows ==> SortValue(r, key) <= SortValue(SortRows(rows, key, false)[0], key)
  {
    var sorted := SortRows(rows, key, false);
    forall r | r in rows ensures SortValue(r, key) <= SortValue(sorted[0], key) {
      assert r in multiset(rows);
      assert r in multiset(sorted);
      var j :| 0 <= j < |sorted| && sorted[j] == r;
    }
  }
}
