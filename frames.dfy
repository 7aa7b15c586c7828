/**
 * The tabular values the pipeline passes along: a provider frame for one
 * ticker, and frames with a time-indexed list of rows under a list of column
 * labels (the field names of one ticker, or (ticker, field) pairs once the
 * tickers are combined). A cell is `None` where pandas holds NaN; prices are
 * exact reals.
 */
module Frames {
  import opened Wrappers
  import opened TimeGrid

  type Cell = Option<real>
  type Ticker = string
  type Field = string
  /** The column label of a combined frame: the ticker and one of its fields. */
  type ColumnKey = (Ticker, Field)

  /** One row: its timestamp and one cell per column. */
  datatype Record = Record(time: Timestamp, cells: seq<Cell>)

  /** A DataFrame whose index is the timestamps of its rows, in row order. */
  datatype Frame<C> = Frame(columns: seq<C>, rows: seq<Record>) {

    /** Every row has one cell per column, as in any DataFrame. */
    predicate WellFormed() {
      forall i :: 0 <= i < |rows| ==> |rows[i].cells| == |columns|
    }

    /** The frame's index. */
    function Index(): seq<Timestamp> {
      Times(rows)
    }

    /** Column `j` top to bottom. */
    function Column(j: nat): (col: seq<Cell>)
      requires WellFormed() && j < |columns|
      ensures |col| == |rows|
      ensures forall i :: 0 <= i < |rows| ==> col[i] == rows[i].cells[j]
    {
      seq(|rows|, i requires 0 <= i < |rows| => rows[i].cells[j])
    }
  }

  /**
   * What the provider returned for one ticker: its field names and one row
   * per timestamp it has data for.
   */
  datatype RawFrame = RawFrame(fields: seq<Field>, data: map<Timestamp, seq<Cell>>) {
    predicate WellFormed() {
      forall t :: t in data ==> |data[t]| == |fields|
    }
  }

  function Times(rows: seq<Record>): (ts: seq<Timestamp>)
    ensures |ts| == |rows| && forall i :: 0 <= i < |rows| ==> ts[i] == rows[i].time
  {
    seq(|rows|, i requires 0 <= i < |rows| => rows[i].time)
  }

  lemma TimesAppend(a: seq<Record>, b: seq<Record>)
    ensures Times(a + b) == Times(a) + Times(b)
  {
  }

  function TimeSet(rows: seq<Record>): set<Timestamp> {
    set i | 0 <= i < |rows| :: rows[i].time
  }

  lemma TimeSetMembers(rows: seq<Record>)
    ensures forall t :: t in TimeSet(rows) <==> t in Times(rows)
  {
    forall t ensures t in TimeSet(rows) <==> t in Times(rows) {
      if t in Times(rows) {
        var i :| 0 <= i < |rows| && Times(rows)[i] == t;
        assert rows[i].time in TimeSet(rows);
      }
    }
  }

  /** A row in which every cell is NaN. */
  predicate AllNull(cells: seq<Cell>) {
    forall j :: 0 <= j < |cells| ==> cells[j].None?
  }

  function NullRow(width: nat): (cells: seq<Cell>)
    ensures |cells| == width && AllNull(cells)
  {
    seq(width, j => None)
  }

  /** The first position of label `c`. */
  function IndexOf<C(==)>(cols: seq<C>, c: C): (j: nat)
    requires c in cols
    ensures j < |cols| && cols[j] == c && c !in cols[..j]
  {
    if cols[0] == c then 0 else 1 + IndexOf(cols[1..], c)
  }

  /** The cell of label `c` in a row laid out under `cols`; NaN when there is no such column. */
  function CellAt<C(==)>(cols: seq<C>, cells: seq<Cell>, c: C): Cell
    requires |cells| == |cols|
  {
    if c in cols then cells[IndexOf(cols, c)] else None
  }

  /** With distinct labels, the label at position j is found at position j. */
  lemma IndexOfDistinct<C>(cols: seq<C>, j: nat)
    requires Seqs.Distinct(cols) && j < |cols|
    ensures IndexOf(cols, cols[j]) == j
  {
    var k := IndexOf(cols, cols[j]);
    assert k >= j;
  }
}
