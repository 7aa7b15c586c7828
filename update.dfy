/**
 * `download_clean_update` after the download (source lines 51-93): parse the
 * interval, build the time index, align every ticker onto it, combine the
 * tickers, fill the gaps and merge the result into the store.
 *
 * The download itself is an input: one provider frame per ticker, in the
 * order of the ticker mapping. The store file is an input and an output: its
 * content before the call (`None` when there is no file) and the frame that
 * is written back.
 */
module Update {
  import opened Wrappers
  import opened Seqs
  import opened Interval
  import opened TimeGrid
  import opened Frames
  import opened Align
  import opened Concat
  import opened Fill
  import opened Store

  /** The exceptions the core can raise. */
  datatype UpdateError =
    | IntervalError(cause: ParseError)  // parsing the interval (lines 58-61)
    | TimeOverflow                      // `time += increment` leaving the `datetime` range (line 67)
    | NoObjectsToConcatenate            // `pd.concat` of an empty ticker mapping (line 74)

  predicate DownloadWellFormed(downloaded: seq<(Ticker, RawFrame)>) {
    forall k :: 0 <= k < |downloaded| ==> downloaded[k].1.WellFormed()
  }

  predicate StoreWellFormed(stored: Option<Frame<ColumnKey>>) {
    stored.Some? ==> stored.value.WellFormed()
  }

  /**
   * The arguments the source takes: `start` and `end` are `date`s, and the
   * loop ends, which needs a nonzero increment when there is a day to fill.
   */
  predicate AdmissibleCall(start: Day, end: Day, interval: string) {
    && ValidDay(start) && ValidDay(end)
    && (start < end && ParseInterval(interval).Ok? ==> ParseInterval(interval).value != 0)
  }

  /** Some ticker reported a row at `t` with at least one value (the rows `dropna` keeps). */
  ghost predicate Reported(downloaded: seq<(Ticker, RawFrame)>, t: Timestamp) {
    exists k :: 0 <= k < |downloaded| && t in downloaded[k].1.data && !AllNull(downloaded[k].1.data[t])
  }

  /** The cleaned download of lines 72-79: aligned, combined and filled. */
  function CleanData(downloaded: seq<(Ticker, RawFrame)>, index: seq<Timestamp>): (data: Frame<ColumnKey>)
    requires DownloadWellFormed(downloaded)
    ensures data.WellFormed()
    ensures data.columns == CombineColumns(AlignedFrames(downloaded, index))
    ensures data.Index() == CombineIndex(AlignedFrames(downloaded, index))
  {
    var aligned := AlignedFrames(downloaded, index);
    AlignedWellFormed(downloaded, index);
    CombineShape(aligned);
    FillFrame(Combine(aligned))
  }

  /** The store written back, or the exception raised. */
  function UpdatedStore(downloaded: seq<(Ticker, RawFrame)>, start: Day, end: Day, interval: string,
                        stored: Option<Frame<ColumnKey>>): Result<Frame<ColumnKey>, UpdateError>
    requires DownloadWellFormed(downloaded) && StoreWellFormed(stored) && AdmissibleCall(start, end, interval)
  {
    match ParseInterval(interval)
    case Err(e) => Err(IntervalError(e))
    case Ok(increment) =>
      match TimeIndexResult(start, end, increment)
      case Err(_) => Err(TimeOverflow)
      case Ok(index) =>
        if |downloaded| == 0 then Err(NoObjectsToConcatenate)
        else Ok(Merge(stored, CleanData(downloaded, index)))
  }

  /** Lines 51-93, step by step; the in-place pandas calls reassign `data`. */
  method DownloadCleanUpdate(downloaded: seq<(Ticker, RawFrame)>, start: Day, end: Day, interval: string,
                             stored: Option<Frame<ColumnKey>>)
    returns (result: Result<Frame<ColumnKey>, UpdateError>)
    requires DownloadWellFormed(downloaded) && StoreWellFormed(stored) && AdmissibleCall(start, end, interval)
    ensures result == UpdatedStore(downloaded, start, end, interval, stored)
  {
    var parsed := ParseInterval(interval);
    if parsed.Err? {
      return Err(IntervalError(parsed.error));
    }
    var increment := parsed.value;
    var built := BuildTimeIndex(start, end, increment);
    if built.Err? {
      return Err(TimeOverflow);
    }
    var timeIndex := built.value;
    var aligned := AlignAll(downloaded, timeIndex);
    if |aligned| == 0 {
      return Err(NoObjectsToConcatenate);
    }
    AlignedWellFormed(downloaded, timeIndex);
    CombineShape(aligned);
    var data := Combine(aligned);
    data := ApplyPass(data, Linear);
    data := ApplyPass(data, ForwardFill);
    data := ApplyPass(data, BackwardFill);
    result := Ok(Merge(stored, data));
  }

  // ---------------------------------------------------------------------------

  lemma AlignedWellFormed(downloaded: seq<(Ticker, RawFrame)>, index: seq<Timestamp>)
    requires DownloadWellFormed(downloaded)
    ensures forall k :: 0 <= k < |downloaded| ==> AlignedFrames(downloaded, index)[k].1.WellFormed()
  {
    forall k | 0 <= k < |downloaded| ensures AlignedFrames(downloaded, index)[k].1.WellFormed() {
      AlignWellFormed(downloaded[k].1, index);
    }
  }

  /**
   * The error cases, in the order the source meets them: a bad interval, a
   * step out of the `datetime` range, an empty ticker mapping; otherwise the
   * call succeeds, and it always does for a non-empty mapping and an interval
   * of at most a day, such as "5m".
   */
  lemma UpdateOutcome(downloaded: seq<(Ticker, RawFrame)>, start: Day, end: Day, interval: string,
                      stored: Option<Frame<ColumnKey>>)
    requires DownloadWellFormed(downloaded) && StoreWellFormed(stored) && AdmissibleCall(start, end, interval)
    ensures ParseInterval(interval).Err? ==>
      UpdatedStore(downloaded, start, end, interval, stored) == Err(IntervalError(ParseInterval(interval).error))
    ensures ParseInterval(interval).Ok? && TimeIndexResult(start, end, ParseInterval(interval).value).Err? ==>
      UpdatedStore(downloaded, start, end, interval, stored) == Err(TimeOverflow)
    ensures ParseInterval(interval).Ok? && TimeIndexResult(start, end, ParseInterval(interval).value).Ok? ==>
      (UpdatedStore(downloaded, start, end, interval, stored).Ok? <==> |downloaded| > 0) &&
      (|downloaded| == 0 ==> UpdatedStore(downloaded, start, end, interval, stored) == Err(NoObjectsToConcatenate))
    ensures ParseInterval(interval).Ok? && 0 < ParseInterval(interval).value <= MinutesPerDay && |downloaded| > 0 ==>
      UpdatedStore(downloaded, start, end, interval, stored).Ok?
  {
    if ParseInterval(interval).Ok? && 0 < ParseInterval(interval).value <= MinutesPerDay && start < end {
      TimeIndexOutcome(start, end, ParseInterval(interval).value);
    }
  }

  /** The cleaned data holds a row at exactly the index slots that some ticker reported a value for. */
  lemma CleanDataTimes(downloaded: seq<(Ticker, RawFrame)>, index: seq<Timestamp>, t: Timestamp)
    requires DownloadWellFormed(downloaded) && StrictlyIncreasing(index)
    ensures t in TimeSet(CleanData(downloaded, index).rows) <==> t in index && Reported(downloaded, t)
  {
    var aligned := AlignedFrames(downloaded, index);
    forall k | 0 <= k < |aligned| ensures StrictlyIncreasing(aligned[k].1.Index()) {
      AlignIndex(downloaded[k].1, index);
    }
    CombineIndexSpec(aligned);
    TimeSetMembers(CleanData(downloaded, index).rows);
    if t in TimeSet(CleanData(downloaded, index).rows) {
      var k :| 0 <= k < |aligned| && t in aligned[k].1.Index();
      AlignIndex(downloaded[k].1, index);
      SubsequenceMembers(aligned[k].1.Index(), index);
      AlignKeepsSlot(downloaded[k].1, index, t);
    }
    if t in index && Reported(downloaded, t) {
      var k :| 0 <= k < |downloaded| && t in downloaded[k].1.data && !AllNull(downloaded[k].1.data[t]);
      AlignKeepsSlot(downloaded[k].1, index, t);
      assert t in aligned[k].1.Index();
    }
  }

  /**
   * After a successful call the store holds exactly its old timestamps and
   * the trading-hour slots of the days in [start, end) that some ticker
   * reported a value for.
   */
  lemma UpdateTimes(downloaded: seq<(Ticker, RawFrame)>, start: Day, end: Day, interval: string,
                    stored: Option<Frame<ColumnKey>>, t: Timestamp)
    requires DownloadWellFormed(downloaded) && StoreWellFormed(stored) && AdmissibleCall(start, end, interval)
    requires UpdatedStore(downloaded, start, end, interval, stored).Ok?
    ensures var increment := ParseInterval(interval).value;
      t in TimeSet(UpdatedStore(downloaded, start, end, interval, stored).value.rows) <==>
        (stored.Some? && t in TimeSet(stored.value.rows)) ||
        (start <= DayOf(t) < end && OnGrid(t, increment) && Reported(downloaded, t))
  {
    var increment := ParseInterval(interval).value;
    var index := TimeIndexResult(start, end, increment).value;
    var data := CleanData(downloaded, index);
    assert UpdatedStore(downloaded, start, end, interval, stored) == Ok(Merge(stored, data));
    if start < end {
      assert index == TimeIndex(start, end, increment);
      TimeIndexIncreasing(start, end, increment);
      TimeIndexMembers(start, end, increment, t);
    } else {
      assert index == [];
    }
    CleanDataTimes(downloaded, index, t);
    MergeTimes(stored, data);
  }

  /**
   * Running the same update again on the store it wrote leaves the store as
   * it is, when tickers are distinct, each ticker's fields are distinct and
   * the store's labels are distinct.
   */
  lemma UpdateIdempotent(downloaded: seq<(Ticker, RawFrame)>, start: Day, end: Day, interval: string,
                         stored: Option<Frame<ColumnKey>>)
    requires DownloadWellFormed(downloaded) && StoreWellFormed(stored) && AdmissibleCall(start, end, interval)
    requires forall k, l :: 0 <= k < l < |downloaded| ==> downloaded[k].0 != downloaded[l].0
    requires forall k :: 0 <= k < |downloaded| ==> Distinct(downloaded[k].1.fields)
    requires stored.Some? ==> Distinct(stored.value.columns)
    requires UpdatedStore(downloaded, start, end, interval, stored).Ok?
    ensures var once := UpdatedStore(downloaded, start, end, interval, stored).value;
      UpdatedStore(downloaded, start, end, interval, Some(once)) == Ok(once)
  {
    var increment := ParseInterval(interval).value;
    var index := TimeIndexResult(start, end, increment).value;
    var aligned := AlignedFrames(downloaded, index);
    forall k | 0 <= k < |aligned| ensures Distinct(aligned[k].1.columns) {
      AlignIndex(downloaded[k].1, index);
    }
    CombineColumnsDistinct(aligned);
    MergeIdempotent(stored, CleanData(downloaded, index));
  }

  /**
   * An empty date range (`download_day` passes start = end) adds no
   * timestamp: the store keeps exactly the timestamps it had.
   */
  lemma EmptyRangeAddsNothing(downloaded: seq<(Ticker, RawFrame)>, day: Day, interval: string,
                              stored: Option<Frame<ColumnKey>>)
    requires DownloadWellFormed(downloaded) && StoreWellFormed(stored) && ValidDay(day)
    requires UpdatedStore(downloaded, day, day, interval, stored).Ok?
    ensures TimeSet(UpdatedStore(downloaded, day, day, interval, stored).value.rows) ==
      (if stored.Some? then TimeSet(stored.value.rows) else {})
  {
    var r := UpdatedStore(downloaded, day, day, interval, stored).value;
    forall t ensures t in TimeSet(r.rows) <==> stored.Some? && t in TimeSet(stored.value.rows) {
      UpdateTimes(downloaded, day, day, interval, stored, t);
    }
  }
}
