/**
 * The combine step (source line 74): `pd.concat(frames, axis=1, keys=tickers)`
 * outer-joins the aligned per-ticker frames on time. The combined index is
 * the sorted union of their indices (pandas sorts the union of differing
 * datetime indices); the columns are (ticker, field) for every ticker in
 * order and each of its fields in order; a ticker that has no row at a
 * timestamp contributes NaN cells there.
 */
module Concat {
  import opened Wrappers
  import opened Seqs
  import opened TimeGrid
  import opened Frames

  /** Merge of two sorted indices, each timestamp once. */
  function SortedUnion(a: seq<Timestamp>, b: seq<Timestamp>): seq<Timestamp>
    decreases |a| + |b|
  {
    if a == [] then b
    else if b == [] then a
    else if a[0] < b[0] then [a[0]] + SortedUnion(a[1..], b)
    else if b[0] < a[0] then [b[0]] + SortedUnion(a, b[1..])
    else [a[0]] + SortedUnion(a[1..], b[1..])
  }

  /** The union of the frames' indices. */
  function CombineIndex(frames: seq<(Ticker, Frame<Field>)>): seq<Timestamp>
    decreases |frames|
  {
    if frames == [] then []
    else SortedUnion(CombineIndex(frames[..|frames| - 1]), frames[|frames| - 1].1.Index())
  }

  /** The labels (ticker, field) of one ticker's columns. */
  function Keyed(ticker: Ticker, fields: seq<Field>): (ks: seq<ColumnKey>)
    ensures |ks| == |fields| && forall j :: 0 <= j < |fields| ==> ks[j] == (ticker, fields[j])
  {
    seq(|fields|, j requires 0 <= j < |fields| => (ticker, fields[j]))
  }

  function CombineColumns(frames: seq<(Ticker, Frame<Field>)>): seq<ColumnKey>
    decreases |frames|
  {
    if frames == [] then []
    else
      var last := frames[|frames| - 1];
      CombineColumns(frames[..|frames| - 1]) + Keyed(last.0, last.1.columns)
  }

  /** The number of combined columns. */
  function Width(frames: seq<(Ticker, Frame<Field>)>): nat
    decreases |frames|
  {
    if frames == [] then 0 else Width(frames[..|frames| - 1]) + |frames[|frames| - 1].1.columns|
  }

  /** Where ticker k's columns start in the combined frame. */
  function Offset(frames: seq<(Ticker, Frame<Field>)>, k: nat): nat
    requires k <= |frames|
  {
    Width(frames[..k])
  }

  /** The cells of the row at `t`, if there is one. */
  function LookupRow(rows: seq<Record>, t: Timestamp): (r: Option<seq<Cell>>)
    ensures r.Some? <==> t in Times(rows)
    ensures r.Some? ==> Record(t, r.value) in rows
    decreases |rows|
  {
    if rows == [] then None
    else if rows[0].time == t then Some(rows[0].cells)
    else
      assert Times(rows)[1..] == Times(rows[1..]);
      LookupRow(rows[1..], t)
  }

  /** One ticker's part of the combined row at `t`: its own row, or NaN throughout. */
  function TickerCells(f: Frame<Field>, t: Timestamp): (cells: seq<Cell>)
    ensures f.WellFormed() ==> |cells| == |f.columns|
  {
    match LookupRow(f.rows, t)
    case Some(cells) => cells
    case None => NullRow(|f.columns|)
  }

  function CombinedCells(frames: seq<(Ticker, Frame<Field>)>, t: Timestamp): seq<Cell>
    decreases |frames|
  {
    if frames == [] then []
    else CombinedCells(frames[..|frames| - 1], t) + TickerCells(frames[|frames| - 1].1, t)
  }

  function Combine(frames: seq<(Ticker, Frame<Field>)>): Frame<ColumnKey> {
    var index := CombineIndex(frames);
    Frame(CombineColumns(frames),
          seq(|index|, i requires 0 <= i < |index| => Record(index[i], CombinedCells(frames, index[i]))))
  }

  // ---------------------------------------------------------------------------

  lemma {:induction false} SortedUnionMembers(a: seq<Timestamp>, b: seq<Timestamp>)
    ensures forall t :: t in SortedUnion(a, b) <==> t in a || t in b
    decreases |a| + |b|
  {
    if a != [] && b != [] {
      assert a == [a[0]] + a[1..] && b == [b[0]] + b[1..];
      if a[0] < b[0] {
        SortedUnionMembers(a[1..], b);
      } else if b[0] < a[0] {
        SortedUnionMembers(a, b[1..]);
      } else {
        SortedUnionMembers(a[1..], b[1..]);
      }
    }
  }

  /** The union of two strictly increasing indices is strictly increasing and holds exactly their timestamps. */
  lemma {:induction false} SortedUnionSpec(a: seq<Timestamp>, b: seq<Timestamp>)
    requires StrictlyIncreasing(a) && StrictlyIncreasing(b)
    ensures StrictlyIncreasing(SortedUnion(a, b))
    ensures forall t :: t in SortedUnion(a, b) <==> t in a || t in b
    decreases |a| + |b|
  {
    SortedUnionMembers(a, b);
    if a != [] && b != [] {
      TailIncreasing(a);
      TailIncreasing(b);
      if a[0] < b[0] {
        SortedUnionSpec(a[1..], b);
        assert b[0] in b;
        ConsIncreasing(a[0], SortedUnion(a[1..], b));
      } else if b[0] < a[0] {
        SortedUnionSpec(a, b[1..]);
        assert a[0] in a;
        ConsIncreasing(b[0], SortedUnion(a, b[1..]));
      } else {
        SortedUnionSpec(a[1..], b[1..]);
        ConsIncreasing(a[0], SortedUnion(a[1..], b[1..]));
      }
    }
  }

  /**
   * The combined index is strictly increasing and holds exactly the
   * timestamps at which some ticker has a row.
   */
  lemma {:induction false} CombineIndexSpec(frames: seq<(Ticker, Frame<Field>)>)
    requires forall k :: 0 <= k < |frames| ==> StrictlyIncreasing(frames[k].1.Index())
    ensures StrictlyIncreasing(CombineIndex(frames))
    ensures forall t :: t in CombineIndex(frames) <==>
      exists k :: 0 <= k < |frames| && t in frames[k].1.Index()
    decreases |frames|
  {
    if frames != [] {
      var init := frames[..|frames| - 1];
      CombineIndexSpec(init);
      SortedUnionSpec(CombineIndex(init), frames[|frames| - 1].1.Index());
      forall t | t in CombineIndex(frames) ensures exists k :: 0 <= k < |frames| && t in frames[k].1.Index() {
        if t in CombineIndex(init) {
          var k :| 0 <= k < |init| && t in init[k].1.Index();
          assert frames[k] == init[k];
        }
      }
      forall t, k | 0 <= k < |frames| && t in frames[k].1.Index() ensures t in CombineIndex(frames) {
        if k < |init| {
          assert init[k] == frames[k];
        }
      }
    }
  }

  lemma {:induction false} PrefixWidth(frames: seq<(Ticker, Frame<Field>)>, k: nat)
    requires k < |frames|
    ensures Offset(frames, k) + |frames[k].1.columns| <= Width(frames)
    ensures Offset(frames, k + 1) == Offset(frames, k) + |frames[k].1.columns|
    decreases |frames|
  {
    assert frames[..k + 1][..k] == frames[..k];
    if k < |frames| - 1 {
      var init := frames[..|frames| - 1];
      PrefixWidth(init, k);
      assert init[..k] == frames[..k] && init[..k + 1] == frames[..k + 1] && init[k] == frames[k];
    } else {
      assert frames[..k + 1] == frames;
    }
  }

  lemma {:induction false} CombineColumnsLength(frames: seq<(Ticker, Frame<Field>)>)
    ensures |CombineColumns(frames)| == Width(frames)
    decreases |frames|
  {
    if frames != [] {
      CombineColumnsLength(frames[..|frames| - 1]);
    }
  }

  /** Ticker k's field j sits at column Offset(k) + j, labelled (ticker k, field j). */
  lemma {:induction false} CombineColumnAt(frames: seq<(Ticker, Frame<Field>)>, k: nat, j: nat)
    requires k < |frames| && j < |frames[k].1.columns|
    ensures |CombineColumns(frames)| == Width(frames)
    ensures Offset(frames, k) + j < Width(frames)
    ensures CombineColumns(frames)[Offset(frames, k) + j] == (frames[k].0, frames[k].1.columns[j])
    decreases |frames|
  {
    var init := frames[..|frames| - 1];
    CombineColumnsLength(frames);
    CombineColumnsLength(init);
    PrefixWidth(frames, k);
    if k < |init| {
      assert init[..k] == frames[..k] && init[k] == frames[k];
      CombineColumnAt(init, k, j);
    } else {
      assert frames[..k] == init;
    }
  }

  /** A ticker contributes its own row's cells where it has a row at t, and NaN where it has none. */
  lemma TickerCellsSpec(f: Frame<Field>, t: Timestamp)
    requires f.WellFormed()
    ensures |TickerCells(f, t)| == |f.columns|
    ensures t !in f.Index() ==> AllNull(TickerCells(f, t))
    ensures t in f.Index() ==> Record(t, TickerCells(f, t)) in f.rows
  {
  }

  lemma {:induction false} CombinedCellsLength(frames: seq<(Ticker, Frame<Field>)>, t: Timestamp)
    requires forall k :: 0 <= k < |frames| ==> frames[k].1.WellFormed()
    ensures |CombinedCells(frames, t)| == Width(frames)
    decreases |frames|
  {
    if frames != [] {
      CombinedCellsLength(frames[..|frames| - 1], t);
    }
  }

  /** The combined row's cell for ticker k's field j is ticker k's cell j at that time. */
  lemma {:induction false} CombinedCellAt(frames: seq<(Ticker, Frame<Field>)>, t: Timestamp, k: nat, j: nat)
    requires forall k :: 0 <= k < |frames| ==> frames[k].1.WellFormed()
    requires k < |frames| && j < |frames[k].1.columns|
    ensures |CombinedCells(frames, t)| == Width(frames)
    ensures Offset(frames, k) + j < Width(frames)
    ensures CombinedCells(frames, t)[Offset(frames, k) + j] == TickerCells(frames[k].1, t)[j]
    decreases |frames|
  {
    var init := frames[..|frames| - 1];
    CombinedCellsLength(frames, t);
    CombinedCellsLength(init, t);
    PrefixWidth(frames, k);
    if k < |init| {
      assert init[..k] == frames[..k] && init[k] == frames[k];
      CombinedCellAt(init, t, k, j);
    } else {
      assert frames[..k] == init;
    }
  }

  /**
   * The combined frame is well formed, indexed by the union of the tickers'
   * indices, and has one column per (ticker, field).
   */
  lemma CombineShape(frames: seq<(Ticker, Frame<Field>)>)
    requires forall k :: 0 <= k < |frames| ==> frames[k].1.WellFormed()
    ensures Combine(frames).WellFormed()
    ensures Combine(frames).Index() == CombineIndex(frames)
    ensures |Combine(frames).columns| == Width(frames)
  {
    CombineColumnsLength(frames);
    var f := Combine(frames);
    forall i | 0 <= i < |f.rows| ensures |f.rows[i].cells| == |f.columns| {
      CombinedCellsLength(frames, f.rows[i].time);
    }
  }

  /** With distinct tickers, each with distinct fields, the combined labels are distinct. */
  lemma {:induction false} CombineColumnsDistinct(frames: seq<(Ticker, Frame<Field>)>)
    requires forall k, l :: 0 <= k < l < |frames| ==> frames[k].0 != frames[l].0
    requires forall k :: 0 <= k < |frames| ==> Distinct(frames[k].1.columns)
    ensures Distinct(CombineColumns(frames))
    decreases |frames|
  {
    if frames != [] {
      var init := frames[..|frames| - 1];
      var last := frames[|frames| - 1];
      CombineColumnsDistinct(init);
      var a, b := CombineColumns(init), Keyed(last.0, last.1.columns);
      assert forall x :: x in a ==> x.0 != last.0 by {
        CombineColumnsTickers(init);
      }
      var s := a + b;
      forall i, j | 0 <= i < j < |s| ensures s[i] != s[j] {
        if i < |a| && j >= |a| {
          assert s[i] in a;
        }
      }
    }
  }

  lemma {:induction false} CombineColumnsTickers(frames: seq<(Ticker, Frame<Field>)>)
    ensures forall x :: x in CombineColumns(frames) ==> exists k :: 0 <= k < |frames| && frames[k].0 == x.0
    decreases |frames|
  {
    if frames != [] {
      var init := frames[..|frames| - 1];
      CombineColumnsTickers(init);
      forall x | x in CombineColumns(frames) ensures exists k :: 0 <= k < |frames| && frames[k].0 == x.0 {
        if x in CombineColumns(init) {
          var k :| 0 <= k < |init| && init[k].0 == x.0;
          assert frames[k] == init[k];
        } else {
          assert frames[|frames| - 1].0 == x.0;
        }
      }
    }
  }
}
