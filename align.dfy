/**
 * Per-ticker alignment (source lines 72-73): each ticker's provider frame is
 * reindexed onto the time index, which drops the provider's rows at other
 * timestamps (pre- and post-market bars, for instance) and puts an all-NaN row
 * at each slot it has no data for; `dropna(how='all')` then removes every row
 * whose cells are all NaN.
 */
module Align {
  import opened Seqs
  import opened TimeGrid
  import opened Frames

  /** `pd.DataFrame(index=time_index, data=frame)`: one row per index entry, in index order. */
  function Reindex(raw: RawFrame, index: seq<Timestamp>): (f: Frame<Field>)
    ensures f.columns == raw.fields && f.Index() == index
  {
    Frame(raw.fields, seq(|index|, i requires 0 <= i < |index| =>
      Record(index[i], if index[i] in raw.data then raw.data[index[i]] else NullRow(|raw.fields|))))
  }

  /** `dropna(axis=0, how='all')`: keep the rows with at least one cell that is not NaN. */
  function DropAllNull(rows: seq<Record>): seq<Record>
    decreases |rows|
  {
    if rows == [] then []
    else (if AllNull(rows[0].cells) then [] else [rows[0]]) + DropAllNull(rows[1..])
  }

  /** One ticker's aligned frame. */
  function Align(raw: RawFrame, index: seq<Timestamp>): Frame<Field> {
    Frame(raw.fields, DropAllNull(Reindex(raw, index).rows))
  }

  /** The aligned frames of all tickers, in the mapping's order. */
  function AlignedFrames(frames: seq<(Ticker, RawFrame)>, index: seq<Timestamp>): (r: seq<(Ticker, Frame<Field>)>)
    ensures |r| == |frames|
  {
    seq(|frames|, k requires 0 <= k < |frames| => (frames[k].0, Align(frames[k].1, index)))
  }

  /** The loop of lines 72-73, which replaces every ticker's frame by its aligned frame. */
  method AlignAll(frames: seq<(Ticker, RawFrame)>, index: seq<Timestamp>)
    returns (aligned: seq<(Ticker, Frame<Field>)>)
    ensures aligned == AlignedFrames(frames, index)
  {
    aligned := [];
    var k := 0;
    while k < |frames|
      invariant 0 <= k <= |frames|
      invariant aligned == AlignedFrames(frames[..k], index)
    {
      aligned := aligned + [(frames[k].0, Align(frames[k].1, index))];
      k := k + 1;
    }
    assert frames[..k] == frames;
  }

  // ---------------------------------------------------------------------------

  /**
   * `dropna` works row by row: it splits over a concatenation, and keeps a
   * single row exactly when it has a value. So it keeps every such row,
   * repeated ones included, in order.
   */
  lemma {:induction false} DropAllNullAppend(a: seq<Record>, b: seq<Record>)
    ensures DropAllNull(a + b) == DropAllNull(a) + DropAllNull(b)
    decreases |a|
  {
    if a == [] {
      assert a + b == b;
    } else {
      assert (a + b)[0] == a[0] && (a + b)[1..] == a[1..] + b;
      DropAllNullAppend(a[1..], b);
    }
  }

  lemma DropAllNullSingle(x: Record)
    ensures DropAllNull([x]) == if AllNull(x.cells) then [] else [x]
  {
    assert [x][1..] == [];
  }

  lemma {:induction false} DropAllNullMembers(rows: seq<Record>)
    ensures forall r :: r in DropAllNull(rows) <==> r in rows && !AllNull(r.cells)
    decreases |rows|
  {
    if rows != [] {
      DropAllNullMembers(rows[1..]);
      assert rows == [rows[0]] + rows[1..];
    }
  }

  lemma {:induction false} DropAllNullSubsequence(rows: seq<Record>)
    ensures IsSubsequence(Times(DropAllNull(rows)), Times(rows))
    decreases |rows|
  {
    if rows != [] {
      DropAllNullSubsequence(rows[1..]);
      var rest := DropAllNull(rows[1..]);
      assert Times(rows)[1..] == Times(rows[1..]);
      if !AllNull(rows[0].cells) {
        assert Times(DropAllNull(rows))[1..] == Times(rest);
      } else {
        assert DropAllNull(rows) == rest;
      }
    }
  }

  /**
   * An aligned row is exactly a provider row at an index timestamp with at
   * least one cell that is not NaN; no cell is altered.
   */
  lemma AlignMembers(raw: RawFrame, index: seq<Timestamp>)
    requires raw.WellFormed()
    ensures forall r :: r in Align(raw, index).rows <==>
      r.time in index && r.time in raw.data && r.cells == raw.data[r.time] && !AllNull(r.cells)
  {
    var re := Reindex(raw, index);
    DropAllNullMembers(re.rows);
    forall r ensures r in Align(raw, index).rows <==>
      r.time in index && r.time in raw.data && r.cells == raw.data[r.time] && !AllNull(r.cells)
    {
      if r.time in index && r.time in raw.data && r.cells == raw.data[r.time] && !AllNull(r.cells) {
        var i :| 0 <= i < |index| && index[i] == r.time;
        assert re.rows[i] == r;
      }
    }
  }

  /**
   * A slot of the index survives exactly when the provider has a row for it
   * that is not all NaN: the only rows removed are all-NaN ones.
   */
  lemma AlignKeepsSlot(raw: RawFrame, index: seq<Timestamp>, t: Timestamp)
    requires raw.WellFormed() && t in index
    ensures t in Align(raw, index).Index() <==> t in raw.data && !AllNull(raw.data[t])
  {
    AlignMembers(raw, index);
    if t in Align(raw, index).Index() {
      var f := Align(raw, index);
      var i :| 0 <= i < |f.rows| && f.rows[i].time == t;
      assert f.rows[i] in f.rows;
    }
  }

  /** The aligned index is a subsequence of the time index, hence increasing with it. */
  lemma AlignIndex(raw: RawFrame, index: seq<Timestamp>)
    ensures IsSubsequence(Align(raw, index).Index(), index)
    ensures StrictlyIncreasing(index) ==> StrictlyIncreasing(Align(raw, index).Index())
    ensures Align(raw, index).columns == raw.fields
  {
    DropAllNullSubsequence(Reindex(raw, index).rows);
    if StrictlyIncreasing(index) {
      SubsequenceIncreasing(Align(raw, index).Index(), index);
    }
  }

  lemma AlignWellFormed(raw: RawFrame, index: seq<Timestamp>)
    requires raw.WellFormed()
    ensures Align(raw, index).WellFormed()
  {
    DropAllNullMembers(Reindex(raw, index).rows);
    var f := Align(raw, index);
    forall i | 0 <= i < |f.rows| ensures |f.rows[i].cells| == |f.columns| {
      assert f.rows[i] in Reindex(raw, index).rows;
    }
  }
}
