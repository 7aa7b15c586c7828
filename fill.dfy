/**
 * The three gap-fill passes (source lines 77-79), each applied to every
 * column of the combined frame top to bottom:
 *   - `interpolate(method="linear")`: pandas treats the rows as equally
 *     spaced; a NaN between two known cells gets the value on the straight
 *     line between them, a NaN after the last known cell gets that cell's
 *     value, and NaNs before the first known cell stay NaN;
 *   - `fillna(method='pad')`: a NaN takes the nearest earlier known value;
 *   - `fillna(method='backfill')`: a NaN takes the nearest later known value.
 */
module Fill {
  import opened Wrappers
  import opened Frames

  /** The last position at or before i holding a value. */
  function PrevKnown<T>(col: seq<Option<T>>, i: int): (r: Option<nat>)
    requires -1 <= i < |col|
    ensures r.Some? ==> r.value <= i && col[r.value].Some? && forall k :: r.value < k <= i ==> col[k].None?
    ensures r.None? ==> forall k :: 0 <= k <= i ==> col[k].None?
    decreases i + 1
  {
    if i < 0 then None else if col[i].Some? then Some(i) else PrevKnown(col, i - 1)
  }

  /** The first position at or after i holding a value. */
  function NextKnown<T>(col: seq<Option<T>>, i: int): (r: Option<nat>)
    requires 0 <= i <= |col|
    ensures r.Some? ==> i <= r.value < |col| && col[r.value].Some? && forall k :: i <= k < r.value ==> col[k].None?
    ensures r.None? ==> forall k :: i <= k < |col| ==> col[k].None?
    decreases |col| - i
  {
    if i == |col| then None else if col[i].Some? then Some(i) else NextKnown(col, i + 1)
  }

  /** Forward fill, carrying the last value seen (initially `carry`). */
  function PadFrom<T>(col: seq<Option<T>>, carry: Option<T>): (r: seq<Option<T>>)
    ensures |r| == |col|
    decreases |col|
  {
    if col == [] then []
    else
      var c := if col[0].Some? then col[0] else carry;
      [c] + PadFrom(col[1..], c)
  }

  function Pad<T>(col: seq<Option<T>>): (r: seq<Option<T>>)
    ensures |r| == |col|
  {
    PadFrom(col, None)
  }

  /** Backward fill, carrying the next value seen from the bottom (initially `carry`). */
  function BackfillFrom<T>(col: seq<Option<T>>, carry: Option<T>): (r: seq<Option<T>>)
    ensures |r| == |col|
    decreases |col|
  {
    if col == [] then []
    else
      var c := if col[|col| - 1].Some? then col[|col| - 1] else carry;
      BackfillFrom(col[..|col| - 1], c) + [c]
  }

  function Backfill<T>(col: seq<Option<T>>): (r: seq<Option<T>>)
    ensures |r| == |col|
  {
    BackfillFrom(col, None)
  }

  /** The value at row i on the line through (p, vp) and (q, vq), as `np.interp` computes it. */
  function Lerp(vp: real, vq: real, p: int, q: int, i: int): real
    requires p < q
  {
    vp + (vq - vp) * ((i - p) as real / (q - p) as real)
  }

  function InterpolateAt(col: seq<Cell>, i: nat): Cell
    requires i < |col|
  {
    if col[i].Some? then col[i]
    else
      match PrevKnown(col, i)
      case None => None
      case Some(p) =>
        match NextKnown(col, i)
        case None => col[p]
        case Some(q) => Some(Lerp(col[p].value, col[q].value, p, q, i))
  }

  function Interpolate(col: seq<Cell>): (r: seq<Cell>)
    ensures |r| == |col|
  {
    seq(|col|, i requires 0 <= i < |col| => InterpolateAt(col, i))
  }

  /** The three passes in the source's order. */
  function FillColumn(col: seq<Cell>): (r: seq<Cell>)
    ensures |r| == |col|
  {
    Backfill(Pad(Interpolate(col)))
  }

  // ---------------------------------------------------------------------------
  // Nearest known positions

  lemma PrevKnownIs<T>(col: seq<Option<T>>, i: int, j: nat)
    requires j <= i < |col| && col[j].Some? && forall k :: j < k <= i ==> col[k].None?
    ensures PrevKnown(col, i) == Some(j)
  {
  }

  lemma NextKnownIs<T>(col: seq<Option<T>>, i: int, j: nat)
    requires 0 <= i <= j < |col| && col[j].Some? && forall k :: i <= k < j ==> col[k].None?
    ensures NextKnown(col, i) == Some(j)
  {
    var r := NextKnown(col, i);
    assert r.Some? by { assert col[j].Some?; }
  }

  // ---------------------------------------------------------------------------
  // Pad and backfill against their reference definitions

  /** Forward fill gives row i the nearest value at or above it, or the carried value if there is none. */
  lemma {:induction false} PadFromAt<T>(col: seq<Option<T>>, carry: Option<T>, i: nat)
    requires i < |col|
    ensures PadFrom(col, carry)[i] == match PrevKnown(col, i) case Some(j) => col[j] case None => carry
    decreases |col|
  {
    if i > 0 {
      var c := if col[0].Some? then col[0] else carry;
      var tail := col[1..];
      PadFromAt(tail, c, i - 1);
      match PrevKnown(tail, i - 1)
      case Some(j) =>
        PrevKnownIs(col, i, j + 1);
      case None =>
        if col[0].Some? { PrevKnownIs(col, i, 0); }
    }
  }

  /** Backward fill gives row i the nearest value at or below it, or the carried value if there is none. */
  lemma {:induction false} BackfillFromAt<T>(col: seq<Option<T>>, carry: Option<T>, i: nat)
    requires i < |col|
    ensures BackfillFrom(col, carry)[i] == match NextKnown(col, i) case Some(j) => col[j] case None => carry
    decreases |col|
  {
    var n := |col| - 1;
    if i < n {
      var c := if col[n].Some? then col[n] else carry;
      var init := col[..n];
      BackfillFromAt(init, c, i);
      match NextKnown(init, i)
      case Some(j) =>
        NextKnownIs(col, i, j);
      case None =>
        if col[n].Some? { NextKnownIs(col, i, n); }
    }
  }

  /**
   * Pad then backfill: a known cell keeps its value; a NaN takes the nearest
   * earlier known value if there is one and the nearest later one otherwise;
   * a column with any value ends with no NaN, and an all-NaN column stays so.
   */
  lemma PadThenBackfill<T>(col: seq<Option<T>>, i: nat)
    requires i < |col|
    ensures var r := Backfill(Pad(col));
      && (col[i].Some? ==> r[i] == col[i])
      && (forall j :: PrevKnown(col, i) == Some(j) ==> r[i] == col[j])
      && (forall j :: PrevKnown(col, i).None? && NextKnown(col, i) == Some(j) ==> r[i] == col[j])
      && ((exists k :: 0 <= k < |col| && col[k].Some?) <==> r[i].Some?)
  {
    var pad := Pad(col);
    var r := Backfill(pad);
    PadFromAt(col, None, i);
    BackfillFromAt(pad, None, i);
    if pad[i].Some? {
      NextKnownIs(pad, i, i);
      if col[i].Some? { PrevKnownIs(col, i, i); }
      var j := PrevKnown(col, i).value;
      assert col[j].Some?;
    } else {
      // nothing is known at or above row i
      forall k | i <= k < |col| && (NextKnown(col, i).None? || k < NextKnown(col, i).value)
        ensures pad[k].None?
      {
        PadFromAt(col, None, k);
      }
      match NextKnown(col, i)
      case Some(q) =>
        PadFromAt(col, None, q);
        PrevKnownIs(col, q, q);
        NextKnownIs(pad, i, q);
      case None =>
        assert NextKnown(pad, i).None?;
    }
  }

  // ---------------------------------------------------------------------------
  // Interpolation

  /** After interpolation the only NaNs are the ones before the first known cell. */
  lemma InterpolateNulls(col: seq<Cell>, i: nat)
    requires i < |col|
    ensures Interpolate(col)[i].None? <==> PrevKnown(col, i).None?
    ensures col[i].Some? ==> Interpolate(col)[i] == col[i]
  {
    if col[i].Some? { PrevKnownIs(col, i, i); }
  }

  lemma FractionBounds(x: int, y: int)
    requires 0 < x < y
    ensures 0.0 < x as real / y as real < 1.0
  {
  }

  lemma ScaleBetween(d: real, f: real)
    requires 0.0 < f < 1.0
    ensures d >= 0.0 ==> 0.0 <= d * f <= d
    ensures d <= 0.0 ==> d <= d * f <= 0.0
  {
    assert d - d * f == d * (1.0 - f);
  }

  /** A value interpolated strictly between two rows lies between their values. */
  lemma LerpBetween(vp: real, vq: real, p: int, q: int, i: int)
    requires p < i < q
    ensures vp <= vq ==> vp <= Lerp(vp, vq, p, q, i) <= vq
    ensures vq <= vp ==> vq <= Lerp(vp, vq, p, q, i) <= vp
  {
    FractionBounds(i - p, q - p);
    ScaleBetween(vq - vp, (i - p) as real / (q - p) as real);
  }

  /** Interpolating two points of a line gives the line. */
  lemma LerpLine(a: real, b: real, p: int, q: int, i: int)
    requires p < q
    ensures Lerp(a + b * p as real, a + b * q as real, p, q, i) == a + b * i as real
  {
    var d := (q - p) as real;
    var f := (i - p) as real / d;
    assert (a + b * q as real) - (a + b * p as real) == b * d;
    assert d * f == (i - p) as real;
    assert (b * d) * f == b * (d * f);
  }

  /** A value filled between two known cells lies between them. */
  lemma InterpolateBetween(col: seq<Cell>, i: nat, p: nat, q: nat)
    requires i < |col| && col[i].None? && PrevKnown(col, i) == Some(p) && NextKnown(col, i) == Some(q)
    ensures var v := Interpolate(col)[i].value;
      (col[p].value <= col[q].value ==> col[p].value <= v <= col[q].value) &&
      (col[q].value <= col[p].value ==> col[q].value <= v <= col[p].value)
  {
    LerpBetween(col[p].value, col[q].value, p, q, i);
  }

  /** Where the two neighbouring known cells lie on a line, the filled values lie on the same line. */
  lemma InterpolateLine(col: seq<Cell>, i: nat, p: nat, q: nat, a: real, b: real)
    requires i < |col| && col[i].None? && PrevKnown(col, i) == Some(p) && NextKnown(col, i) == Some(q)
    requires col[p].value == a + b * p as real && col[q].value == a + b * q as real
    ensures Interpolate(col)[i] == Some(a + b * i as real)
  {
    LerpLine(a, b, p, q, i);
  }

  /** After the last known cell, interpolation holds that cell's value. */
  lemma InterpolateTrailing(col: seq<Cell>, i: nat, p: nat)
    requires i < |col| && col[i].None? && PrevKnown(col, i) == Some(p) && NextKnown(col, i).None?
    ensures Interpolate(col)[i] == col[p]
  {
  }

  /** A second interpolation changes nothing. */
  lemma InterpolateIdempotent(col: seq<Cell>)
    ensures Interpolate(Interpolate(col)) == Interpolate(col)
  {
    var m := Interpolate(col);
    forall i | 0 <= i < |col| ensures Interpolate(m)[i] == m[i] {
      InterpolateNulls(col, i);
      if m[i].None? {
        forall k | 0 <= k <= i ensures m[k].None? {
          InterpolateNulls(col, k);
        }
      }
    }
  }

  /** Forward fill leaves a column alone when its NaNs all come before its first value. */
  lemma PadLeadingOnly<T>(col: seq<Option<T>>)
    requires forall i, k :: 0 <= k <= i < |col| && col[k].Some? ==> col[i].Some?
    ensures Pad(col) == col
  {
    forall i | 0 <= i < |col| ensures Pad(col)[i] == col[i] {
      PadFromAt(col, None, i);
      if col[i].Some? { PrevKnownIs(col, i, i); }
    }
  }

  /** Forward fill has nothing left to do after interpolation. */
  lemma FillIsBackfillOfInterpolate(col: seq<Cell>)
    ensures FillColumn(col) == Backfill(Interpolate(col))
  {
    var m := Interpolate(col);
    forall a, b | 0 <= b <= a < |m| && m[b].Some? ensures m[a].Some? {
      InterpolateNulls(col, a);
      InterpolateNulls(col, b);
    }
    PadLeadingOnly(m);
  }

  /** Backfill after interpolation: interpolated cells stay, leading NaNs take the first known value. */
  lemma BackfillInterpolated(col: seq<Cell>, i: nat)
    requires i < |col|
    ensures Backfill(Interpolate(col))[i] ==
      if Interpolate(col)[i].Some? then Interpolate(col)[i]
      else match NextKnown(col, i) case Some(q) => col[q] case None => None
  {
    var m := Interpolate(col);
    BackfillFromAt(m, None, i);
    InterpolateNulls(col, i);
    if m[i].Some? {
      NextKnownIs(m, i, i);
    } else {
      forall k | i <= k < |col| && (NextKnown(col, i).None? || k < NextKnown(col, i).value)
        ensures m[k].None?
      {
        InterpolateNulls(col, k);
      }
      match NextKnown(col, i)
      case Some(q) =>
        InterpolateNulls(col, q);
        NextKnownIs(m, i, q);
      case None =>
        assert NextKnown(m, i).None?;
    }
  }

  /**
   * The whole fill of one column: known cells are kept; a NaN between two
   * known cells is interpolated; a NaN after the last known cell takes its
   * value, one before the first known cell takes the first value; a column
   * with any value ends with no NaN and an all-NaN column stays all NaN.
   */
  lemma FillColumnSpec(col: seq<Cell>, i: nat)
    requires i < |col|
    ensures var r := FillColumn(col);
      && (col[i].Some? ==> r[i] == col[i])
      && (forall p, q :: col[i].None? && PrevKnown(col, i) == Some(p) && NextKnown(col, i) == Some(q) ==>
            r[i] == Some(Lerp(col[p].value, col[q].value, p, q, i)))
      && (forall p :: col[i].None? && PrevKnown(col, i) == Some(p) && NextKnown(col, i).None? ==> r[i] == col[p])
      && (forall q :: PrevKnown(col, i).None? && NextKnown(col, i) == Some(q) ==> r[i] == col[q])
      && ((exists k :: 0 <= k < |col| && col[k].Some?) <==> r[i].Some?)
  {
    FillIsBackfillOfInterpolate(col);
    BackfillInterpolated(col, i);
    InterpolateNulls(col, i);
    if PrevKnown(col, i).Some? {
      var p := PrevKnown(col, i).value;
      assert col[p].Some?;
    } else if NextKnown(col, i).Some? {
      var q := NextKnown(col, i).value;
      assert col[q].Some?;
    }
  }

  // ---------------------------------------------------------------------------
  // Whole frames

  datatype FillPass = Linear | ForwardFill | BackwardFill

  function ApplyToColumn(pass: FillPass, col: seq<Cell>): (r: seq<Cell>)
    ensures |r| == |col|
  {
    match pass
    case Linear => Interpolate(col)
    case ForwardFill => Pad(col)
    case BackwardFill => Backfill(col)
  }

  /** One pass over every column of a frame, as the in-place pandas call does. */
  function ApplyPass<C>(f: Frame<C>, pass: FillPass): (g: Frame<C>)
    requires f.WellFormed()
    ensures g.WellFormed() && g.columns == f.columns && g.Index() == f.Index()
  {
    Frame(f.columns, seq(|f.rows|, i requires 0 <= i < |f.rows| =>
      Record(f.rows[i].time, seq(|f.columns|, j requires 0 <= j < |f.columns| => ApplyToColumn(pass, f.Column(j))[i]))))
  }

  lemma ApplyPassColumn<C>(f: Frame<C>, pass: FillPass, j: nat)
    requires f.WellFormed() && j < |f.columns|
    ensures ApplyPass(f, pass).Column(j) == ApplyToColumn(pass, f.Column(j))
  {
  }

  /** Lines 77-79 on the combined frame. */
  function FillFrame<C>(f: Frame<C>): (g: Frame<C>)
    requires f.WellFormed()
    ensures g.WellFormed() && g.columns == f.columns && g.Index() == f.Index()
  {
    ApplyPass(ApplyPass(ApplyPass(f, Linear), ForwardFill), BackwardFill)
  }

  /** Every column of the filled frame is the column filled on its own. */
  lemma FillFrameColumn<C>(f: Frame<C>, j: nat)
    requires f.WellFormed() && j < |f.columns|
    ensures FillFrame(f).Column(j) == FillColumn(f.Column(j))
  {
    var f1 := ApplyPass(f, Linear);
    var f2 := ApplyPass(f1, ForwardFill);
    ApplyPassColumn(f, Linear, j);
    ApplyPassColumn(f1, ForwardFill, j);
    ApplyPassColumn(f2, BackwardFill, j);
  }

  /** In the filled frame, a column with any known cell has no NaN left, and one without stays all NaN. */
  lemma FillFrameComplete<C>(f: Frame<C>, j: nat)
    requires f.WellFormed() && j < |f.columns|
    ensures (exists i :: 0 <= i < |f.rows| && f.rows[i].cells[j].Some?) ==>
      forall i :: 0 <= i < |f.rows| ==> FillFrame(f).rows[i].cells[j].Some?
    ensures (forall i :: 0 <= i < |f.rows| ==> f.rows[i].cells[j].None?) ==>
      forall i :: 0 <= i < |f.rows| ==> FillFrame(f).rows[i].cells[j].None?
  {
    var col := f.Column(j);
    var g := FillFrame(f);
    FillFrameColumn(f, j);
    if exists i :: 0 <= i < |f.rows| && f.rows[i].cells[j].Some? {
      var i0 :| 0 <= i0 < |f.rows| && f.rows[i0].cells[j].Some?;
      assert col[i0].Some?;
      forall i | 0 <= i < |f.rows| ensures g.rows[i].cells[j].Some? {
        FillColumnSpec(col, i);
        assert g.Column(j)[i] == g.rows[i].cells[j];
      }
    } else {
      forall i | 0 <= i < |f.rows| ensures g.rows[i].cells[j].None? {
        FillColumnSpec(col, i);
        assert g.Column(j)[i] == g.rows[i].cells[j];
      }
    }
  }
}
