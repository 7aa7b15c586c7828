/**
 * The incremental store merge (source lines 82-93). The pickled store is an
 * optional in-memory frame: `None` when reading it fails with
 * `FileNotFoundError`, in which case the new data becomes the store as it
 * is. Otherwise the result is the old store followed by the rows of the new
 * data whose timestamp is not in the old index. `append` is an outer
 * concatenation, so a column that only one side has is added, with NaN in
 * the rows of the other side.
 */
module Store {
  import opened Wrappers
  import opened Seqs
  import opened TimeGrid
  import opened Frames

  /** The rows whose timestamp is not in `seen`, in order (`data[~data.index.isin(old_index)]`). */
  function FilterNew(rows: seq<Record>, seen: set<Timestamp>): (r: seq<Record>)
    ensures forall x :: x in r <==> x in rows && x.time !in seen
    ensures IsSubsequence(r, rows)
    decreases |rows|
  {
    if rows == [] then []
    else
      var rest := FilterNew(rows[1..], seen);
      assert rows == [rows[0]] + rows[1..];
      if rows[0].time in seen then rest
      else
        assert ([rows[0]] + rest)[1..] == rest;
        [rows[0]] + rest
  }

  /** The labels of `incoming` that `have` lacks, in their order. */
  function NewColumns<C(==,!new)>(have: seq<C>, incoming: seq<C>): (r: seq<C>)
    ensures forall c :: c in r <==> c in incoming && c !in have
    decreases |incoming|
  {
    if incoming == [] then []
    else
      assert incoming == [incoming[0]] + incoming[1..];
      (if incoming[0] in have then [] else [incoming[0]]) + NewColumns(have, incoming[1..])
  }

  /** A row laid out under `from`, laid out again under `to`: NaN where `from` has no such column. */
  function Relayout<C(==)>(from: seq<C>, cells: seq<Cell>, to: seq<C>): (r: seq<Cell>)
    requires |cells| == |from|
    ensures |r| == |to|
  {
    seq(|to|, j requires 0 <= j < |to| => CellAt(from, cells, to[j]))
  }

  function RelayoutRows<C(==)>(rows: seq<Record>, from: seq<C>, to: seq<C>): (r: seq<Record>)
    requires forall i :: 0 <= i < |rows| ==> |rows[i].cells| == |from|
    ensures |r| == |rows|
    ensures forall i :: 0 <= i < |r| ==> r[i].time == rows[i].time && |r[i].cells| == |to|
  {
    seq(|rows|, i requires 0 <= i < |rows| => Record(rows[i].time, Relayout(from, rows[i].cells, to)))
  }

  /** `a.append(b)`: the rows of `a`, then those of `b`, under the union of their columns. */
  function Append<C(==,!new)>(a: Frame<C>, b: Frame<C>): (r: Frame<C>)
    requires a.WellFormed() && b.WellFormed()
    ensures r.WellFormed()
  {
    var cols := a.columns + NewColumns(a.columns, b.columns);
    Frame(cols, RelayoutRows(a.rows, a.columns, cols) + RelayoutRows(b.rows, b.columns, cols))
  }

  /** The rows of the new data whose timestamps the store does not have yet. */
  function Fresh<C>(stored: Frame<C>, data: Frame<C>): (r: Frame<C>)
    requires data.WellFormed()
    ensures r.WellFormed() && r.columns == data.columns
  {
    Frame(data.columns, FilterNew(data.rows, TimeSet(stored.rows)))
  }

  /** The store that lines 82-93 write back. */
  function Merge<C(==,!new)>(stored: Option<Frame<C>>, data: Frame<C>): (r: Frame<C>)
    requires data.WellFormed() && (stored.Some? ==> stored.value.WellFormed())
    ensures r.WellFormed()
  {
    match stored
    case None => data
    case Some(prior) => Append(prior, Fresh(prior, data))
  }

  // ---------------------------------------------------------------------------
  // Helpers on the pieces

  /**
   * The filter works row by row: it splits over a concatenation, and keeps a
   * single row exactly when its timestamp is unseen. So it keeps every such
   * row, repeated ones included, in order.
   */
  lemma {:induction false} FilterNewAppend(a: seq<Record>, b: seq<Record>, seen: set<Timestamp>)
    ensures FilterNew(a + b, seen) == FilterNew(a, seen) + FilterNew(b, seen)
    decreases |a|
  {
    if a == [] {
      assert a + b == b;
    } else {
      assert (a + b)[0] == a[0] && (a + b)[1..] == a[1..] + b;
      FilterNewAppend(a[1..], b, seen);
    }
  }

  lemma FilterNewSingle(x: Record, seen: set<Timestamp>)
    ensures FilterNew([x], seen) == if x.time in seen then [] else [x]
  {
    assert [x][1..] == [];
  }

  lemma {:induction false} FilterNewNone(rows: seq<Record>, seen: set<Timestamp>)
    requires forall i :: 0 <= i < |rows| ==> rows[i].time in seen
    ensures FilterNew(rows, seen) == []
    decreases |rows|
  {
    if rows != [] {
      FilterNewNone(rows[1..], seen);
    }
  }

  lemma FilterNewTimes(rows: seq<Record>, seen: set<Timestamp>)
    ensures TimeSet(FilterNew(rows, seen)) == TimeSet(rows) - seen
  {
    var r := FilterNew(rows, seen);
    forall t | t in TimeSet(r) ensures t in TimeSet(rows) - seen {
      var i :| 0 <= i < |r| && r[i].time == t;
      assert r[i] in r;
      var m :| 0 <= m < |rows| && rows[m] == r[i];
    }
    forall t | t in TimeSet(rows) - seen ensures t in TimeSet(r) {
      var m :| 0 <= m < |rows| && rows[m].time == t;
      assert rows[m] in rows;
      var i :| 0 <= i < |r| && r[i] == rows[m];
    }
  }

  lemma {:induction false} NewColumnsNone<C(!new)>(have: seq<C>, incoming: seq<C>)
    requires forall i :: 0 <= i < |incoming| ==> incoming[i] in have
    ensures NewColumns(have, incoming) == []
    decreases |incoming|
  {
    if incoming != [] {
      NewColumnsNone(have, incoming[1..]);
    }
  }

  lemma {:induction false} NewColumnsDistinctTail<C(!new)>(have: seq<C>, incoming: seq<C>)
    requires Distinct(incoming)
    ensures Distinct(NewColumns(have, incoming))
    decreases |incoming|
  {
    if incoming != [] {
      NewColumnsDistinctTail(have, incoming[1..]);
      var rest := NewColumns(have, incoming[1..]);
      assert incoming[0] !in incoming[1..] by {
        forall k | 0 <= k < |incoming| - 1 ensures incoming[1..][k] != incoming[0] {
          assert incoming[1..][k] == incoming[k + 1];
        }
      }
      var s := NewColumns(have, incoming);
      if incoming[0] !in have {
        forall i, j | 0 <= i < j < |s| ensures s[i] != s[j] {
          if i == 0 { assert s[j] in rest; }
        }
      }
    }
  }

  /** The widened column list of a merge has no label twice. */
  lemma NewColumnsDistinct<C(!new)>(have: seq<C>, incoming: seq<C>)
    requires Distinct(have) && Distinct(incoming)
    ensures Distinct(have + NewColumns(have, incoming))
  {
    NewColumnsDistinctTail(have, incoming);
    var n := NewColumns(have, incoming);
    var s := have + n;
    forall i, j | 0 <= i < j < |s| ensures s[i] != s[j] {
      if i < |have| && j >= |have| {
        assert s[j] in n;
      }
    }
  }

  /** Laying a row out again under its own distinct columns changes nothing. */
  lemma RelayoutSame<C>(cols: seq<C>, cells: seq<Cell>)
    requires Distinct(cols) && |cells| == |cols|
    ensures Relayout(cols, cells, cols) == cells
  {
    forall j | 0 <= j < |cols| ensures Relayout(cols, cells, cols)[j] == cells[j] {
      IndexOfDistinct(cols, j);
    }
  }

  lemma RelayoutRowsSame<C>(rows: seq<Record>, cols: seq<C>)
    requires Distinct(cols) && forall i :: 0 <= i < |rows| ==> |rows[i].cells| == |cols|
    ensures RelayoutRows(rows, cols, cols) == rows
  {
    forall i | 0 <= i < |rows| ensures RelayoutRows(rows, cols, cols)[i] == rows[i] {
      RelayoutSame(cols, rows[i].cells);
    }
  }

  /** Relaid out, a row holds under every label of `to` what it held under that label before, NaN for a new label. */
  lemma RelayoutCell<C>(from: seq<C>, cells: seq<Cell>, to: seq<C>, c: C)
    requires |cells| == |from| && c in to
    ensures CellAt(to, Relayout(from, cells, to), c) == CellAt(from, cells, c)
  {
  }

  lemma TimeSetAppend(a: seq<Record>, b: seq<Record>)
    ensures TimeSet(a + b) == TimeSet(a) + TimeSet(b)
  {
    forall t | t in TimeSet(a + b) ensures t in TimeSet(a) + TimeSet(b) {
      var i :| 0 <= i < |a + b| && (a + b)[i].time == t;
      if i >= |a| { assert b[i - |a|].time == t; } else { assert a[i].time == t; }
    }
    forall t | t in TimeSet(b) ensures t in TimeSet(a + b) {
      var i :| 0 <= i < |b| && b[i].time == t;
      assert (a + b)[|a| + i].time == t;
    }
    forall t | t in TimeSet(a) ensures t in TimeSet(a + b) {
      var i :| 0 <= i < |a| && a[i].time == t;
      assert (a + b)[i].time == t;
    }
  }

  lemma TimeSetSame(a: seq<Record>, b: seq<Record>)
    requires Times(a) == Times(b)
    ensures TimeSet(a) == TimeSet(b)
  {
    TimeSetMembers(a);
    TimeSetMembers(b);
  }

  /** The pieces a merge with a store is made of. */
  lemma MergeRows<C(!new)>(prior: Frame<C>, data: Frame<C>)
    requires prior.WellFormed() && data.WellFormed()
    ensures var cols := prior.columns + NewColumns(prior.columns, data.columns);
      Merge(Some(prior), data) ==
        Frame(cols, RelayoutRows(prior.rows, prior.columns, cols) +
                    RelayoutRows(Fresh(prior, data).rows, data.columns, cols))
  {
  }

  // ---------------------------------------------------------------------------
  // Properties of the merge

  /**
   * When the store and the new data have the same columns, the result is the
   * old store unchanged followed by exactly the new rows whose timestamp is
   * not in the old index, in their original order.
   */
  lemma MergeSameColumns<C(!new)>(prior: Frame<C>, data: Frame<C>)
    requires prior.WellFormed() && data.WellFormed()
    requires prior.columns == data.columns && Distinct(prior.columns)
    ensures Merge(Some(prior), data) ==
      Frame(prior.columns, prior.rows + FilterNew(data.rows, TimeSet(prior.rows)))
  {
    var cols := prior.columns;
    NewColumnsNone(cols, cols);
    assert cols + [] == cols;
    MergeRows(prior, data);
    RelayoutRowsSame(prior.rows, cols);
    RelayoutRowsSame(Fresh(prior, data).rows, cols);
  }

  /**
   * Row `i` of the old store stays row `i`, with its timestamp, and under
   * every label of the widened frame it holds what it held before (NaN
   * under a label the store did not have).
   */
  lemma MergeKeepsRow<C(!new)>(prior: Frame<C>, data: Frame<C>, i: nat, c: C)
    requires prior.WellFormed() && data.WellFormed() && i < |prior.rows|
    ensures var r := Merge(Some(prior), data);
      && r.columns == prior.columns + NewColumns(prior.columns, data.columns)
      && |r.rows| == |prior.rows| + |Fresh(prior, data).rows|
      && r.rows[i].time == prior.rows[i].time
      && (c in r.columns ==> CellAt(r.columns, r.rows[i].cells, c) == CellAt(prior.columns, prior.rows[i].cells, c))
  {
    MergeRows(prior, data);
    var r := Merge(Some(prior), data);
    if c in r.columns {
      RelayoutCell(prior.columns, prior.rows[i].cells, r.columns, c);
    }
  }

  /**
   * Row `k` of the fresh rows becomes row `|prior.rows| + k`, with its
   * timestamp, and under every label holds what it held in the new data
   * (NaN under a label only the store has).
   */
  lemma MergeAddsRow<C(!new)>(prior: Frame<C>, data: Frame<C>, k: nat, c: C)
    requires prior.WellFormed() && data.WellFormed() && k < |Fresh(prior, data).rows|
    ensures var r := Merge(Some(prior), data);
      var added := Fresh(prior, data).rows;
      && |r.rows| == |prior.rows| + |added|
      && added[k] in data.rows && added[k].time !in TimeSet(prior.rows)
      && r.rows[|prior.rows| + k].time == added[k].time
      && (c in r.columns ==>
            CellAt(r.columns, r.rows[|prior.rows| + k].cells, c) == CellAt(data.columns, added[k].cells, c))
  {
    MergeRows(prior, data);
    var r := Merge(Some(prior), data);
    var added := Fresh(prior, data).rows;
    assert added[k] in added;
    if c in r.columns {
      RelayoutCell(data.columns, added[k].cells, r.columns, c);
    }
  }

  /**
   * With no store the new data becomes the store. With one, the store's
   * index is the old index followed by the fresh timestamps, so no old
   * timestamp is lost and every downloaded timestamp is present afterwards.
   */
  lemma MergeTimes<C(!new)>(stored: Option<Frame<C>>, data: Frame<C>)
    requires data.WellFormed() && (stored.Some? ==> stored.value.WellFormed())
    ensures stored.None? ==> Merge(stored, data) == data
    ensures stored.Some? ==>
      Times(Merge(stored, data).rows) ==
        Times(stored.value.rows) + Times(FilterNew(data.rows, TimeSet(stored.value.rows)))
    ensures stored.Some? ==>
      TimeSet(Merge(stored, data).rows) == TimeSet(stored.value.rows) + TimeSet(data.rows)
  {
    if stored.Some? {
      var prior := stored.value;
      var cols := prior.columns + NewColumns(prior.columns, data.columns);
      var added := Fresh(prior, data).rows;
      var a := RelayoutRows(prior.rows, prior.columns, cols);
      var b := RelayoutRows(added, data.columns, cols);
      MergeRows(prior, data);
      TimesAppend(a, b);
      assert Times(a) == Times(prior.rows);
      assert Times(b) == Times(added);
      TimeSetAppend(a, b);
      TimeSetSame(a, prior.rows);
      TimeSetSame(b, added);
      FilterNewTimes(data.rows, TimeSet(prior.rows));
    }
  }

  /** Data whose timestamps the store already has, under the store's own columns, leaves the store as it was. */
  lemma MergeOverlapping<C(!new)>(prior: Frame<C>, data: Frame<C>)
    requires prior.WellFormed() && data.WellFormed()
    requires prior.columns == data.columns && Distinct(prior.columns)
    requires TimeSet(data.rows) <= TimeSet(prior.rows)
    ensures Merge(Some(prior), data) == prior
  {
    MergeSameColumns(prior, data);
    forall i | 0 <= i < |data.rows| ensures data.rows[i].time in TimeSet(prior.rows) {
      assert data.rows[i].time in TimeSet(data.rows);
    }
    FilterNewNone(data.rows, TimeSet(prior.rows));
    assert prior.rows + [] == prior.rows;
  }

  /** Merging the same download a second time appends nothing and changes nothing. */
  lemma MergeIdempotent<C(!new)>(stored: Option<Frame<C>>, data: Frame<C>)
    requires data.WellFormed() && Distinct(data.columns)
    requires stored.Some? ==> stored.value.WellFormed() && Distinct(stored.value.columns)
    ensures Merge(Some(Merge(stored, data)), data) == Merge(stored, data)
  {
    var r := Merge(stored, data);
    MergeTimes(stored, data);
    if stored.None? {
      MergeOverlapping(data, data);
    } else {
      var prior := stored.value;
      NewColumnsDistinct(prior.columns, data.columns);
      assert r.columns == prior.columns + NewColumns(prior.columns, data.columns) by {
        MergeRows(prior, data);
      }
      forall i | 0 <= i < |data.columns| ensures data.columns[i] in r.columns {
        if data.columns[i] !in prior.columns {
          assert data.columns[i] in NewColumns(prior.columns, data.columns);
        }
      }
      NewColumnsNone(r.columns, data.columns);
      forall i | 0 <= i < |data.rows| ensures data.rows[i].time in TimeSet(r.rows) {
        assert data.rows[i].time in TimeSet(data.rows);
      }
      FilterNewNone(data.rows, TimeSet(r.rows));
      MergeRows(r, data);
      assert r.columns + [] == r.columns;
      RelayoutRowsSame(r.rows, r.columns);
      assert RelayoutRows(r.rows, r.columns, r.columns) + [] == r.rows;
    }
  }

  /** A merge never stores a timestamp twice when neither side holds one twice. */
  lemma MergeDistinct<C(!new)>(prior: Frame<C>, data: Frame<C>)
    requires prior.WellFormed() && data.WellFormed()
    requires Distinct(Times(prior.rows)) && Distinct(Times(data.rows))
    ensures Distinct(Times(Merge(Some(prior), data).rows))
  {
    var added := FilterNew(data.rows, TimeSet(prior.rows));
    MergeTimes(Some(prior), data);
    SubsequenceTimesDistinct(added, data.rows);
    var s := Times(Merge(Some(prior), data).rows);
    forall i, j | 0 <= i < j < |s| ensures s[i] != s[j] {
      if i < |prior.rows| && j >= |prior.rows| {
        assert added[j - |prior.rows|] in added;
        assert prior.rows[i].time in TimeSet(prior.rows);
      }
    }
  }

  /** Every download row at a timestamp the store lacks is later than every stored row. */
  ghost predicate FreshLater<C>(prior: Frame<C>, data: Frame<C>) {
    forall i, k ::
      (0 <= i < |data.rows| && 0 <= k < |prior.rows| && data.rows[i].time !in TimeSet(prior.rows)) ==>
        prior.rows[k].time < data.rows[i].time
  }

  /**
   * The store stays strictly increasing when both sides are and every fresh
   * timestamp is later than the whole old store. The merge itself does not
   * sort: fresh data older than the store is appended after it.
   */
  lemma MergeIncreasing<C(!new)>(prior: Frame<C>, data: Frame<C>)
    requires prior.WellFormed() && data.WellFormed()
    requires StrictlyIncreasing(Times(prior.rows)) && StrictlyIncreasing(Times(data.rows))
    requires FreshLater(prior, data)
    ensures StrictlyIncreasing(Times(Merge(Some(prior), data).rows))
  {
    var added := FilterNew(data.rows, TimeSet(prior.rows));
    MergeTimes(Some(prior), data);
    SubsequenceTimes(added, data.rows);
    SubsequenceIncreasing(Times(added), Times(data.rows));
    var s := Times(Merge(Some(prior), data).rows);
    forall i, j | 0 <= i < j < |s| ensures s[i] < s[j] {
      if i < |prior.rows| && j >= |prior.rows| {
        var a := added[j - |prior.rows|];
        assert a in added;
        var m :| 0 <= m < |data.rows| && data.rows[m] == a;
      }
    }
  }

  /**
   * The converse: a merged store in time order has every row it adds later
   * than the whole old store, since those rows come after it.
   */
  lemma MergeIncreasingOnlyIf<C(!new)>(prior: Frame<C>, data: Frame<C>)
    requires prior.WellFormed() && data.WellFormed()
    requires StrictlyIncreasing(Times(Merge(Some(prior), data).rows))
    ensures FreshLater(prior, data)
  {
    var added := FilterNew(data.rows, TimeSet(prior.rows));
    MergeTimes(Some(prior), data);
    ConcatIncreasing(Times(prior.rows), Times(added));
    forall i, k | 0 <= i < |data.rows| && 0 <= k < |prior.rows| && data.rows[i].time !in TimeSet(prior.rows)
      ensures prior.rows[k].time < data.rows[i].time
    {
      var x := data.rows[i];
      assert x in data.rows;
      var p :| 0 <= p < |added| && added[p] == x;
      assert Times(prior.rows)[k] in Times(prior.rows);
      assert Times(added)[p] in Times(added);
    }
  }

  lemma {:induction false} SubsequenceTimes(a: seq<Record>, b: seq<Record>)
    requires IsSubsequence(a, b)
    ensures IsSubsequence(Times(a), Times(b))
    decreases |b|
  {
    if a != [] && b != [] {
      assert Times(a)[1..] == Times(a[1..]) && Times(b)[1..] == Times(b[1..]);
      if a[0] == b[0] && IsSubsequence(a[1..], b[1..]) {
        SubsequenceTimes(a[1..], b[1..]);
      } else {
        SubsequenceTimes(a, b[1..]);
      }
    }
  }

  lemma {:induction false} SubsequenceTimesDistinct(a: seq<Record>, b: seq<Record>)
    requires IsSubsequence(a, b) && Distinct(Times(b))
    ensures Distinct(Times(a))
    decreases |b|
  {
    if a != [] && b != [] {
      assert Times(a)[1..] == Times(a[1..]) && Times(b)[1..] == Times(b[1..]);
      if a[0] == b[0] && IsSubsequence(a[1..], b[1..]) {
        SubsequenceTimesDistinct(a[1..], b[1..]);
        SubsequenceMembers(a[1..], b[1..]);
        var s := Times(a);
        forall i, j | 0 <= i < j < |s| ensures s[i] != s[j] {
          if i == 0 {
            assert a[j] in b[1..];
            var m :| 0 <= m < |b[1..]| && b[1..][m] == a[j];
            assert Times(b)[m + 1] == a[j].time;
          }
        }
      } else {
        SubsequenceTimesDistinct(a, b[1..]);
      }
    }
  }
}
