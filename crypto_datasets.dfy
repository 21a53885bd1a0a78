/**
 * `UnifiedDataDownloader.download_interval` of the yfinance crypto script:
 * intraday intervals are fetched in day-chunks over the last
 * `historical_days` days and merged behind the saved file; every other
 * interval is fetched with a single `period="max"` request.
 */
module CryptoDatasets {
  import opened Common
  import opened Rows
  import opened Tables
  import opened YfColumns
  import opened YfFrames
  import opened Windowing

  const IntradayIntervals: set<string> := {"1m", "2m", "5m", "15m", "30m", "60m", "90m", "1h"}

  /** Default `historical_days` of an intraday interval. */
  function DefaultHistoricalDays(interval: string): int
  {
    if interval in {"1m", "2m", "5m", "15m", "30m"} then 30
    else if interval in {"60m", "1h"} then 90
    else if interval == "90m" then 60
    else 30
  }

  /** Default `chunk_days`. */
  function DefaultChunkDays(interval: string): int
  {
    if interval == "1m" then 8 else 15
  }

  function HistoricalDays(interval: string, given: Option<int>): int
  {
    given.GetOr(DefaultHistoricalDays(interval))
  }

  function ChunkDays(interval: string, given: Option<int>): int
  {
    given.GetOr(DefaultChunkDays(interval))
  }

  /**
   * The defaults: 30 days for the minute intervals, 90 for `60m` and `1h`,
   * 60 for `90m` and 30 for anything else; chunks of 8 days for `1m` and 15
   * otherwise. A value that is given is used as it is.
   */
  lemma DefaultsSpec(interval: string, days: int, chunk: int)
    ensures DefaultHistoricalDays(interval) == 90 <==> interval in {"60m", "1h"}
    ensures DefaultHistoricalDays(interval) == 60 <==> interval == "90m"
    ensures DefaultHistoricalDays(interval) == 30 <==> interval !in {"60m", "1h", "90m"}
    ensures DefaultChunkDays(interval) == 8 <==> interval == "1m"
    ensures DefaultChunkDays(interval) == 15 <==> interval != "1m"
    ensures HistoricalDays(interval, Some(days)) == days && ChunkDays(interval, Some(chunk)) == chunk
  {
  }

  /** The per-interval parameters the script passes for its eight intraday intervals. */
  const ScriptParams: map<string, (int, int)> := map[
    "1m" := (30, 8), "2m" := (30, 15), "5m" := (30, 15), "15m" := (30, 15),
    "30m" := (30, 15), "60m" := (90, 15), "90m" := (60, 15), "1h" := (90, 15)]

  /** The script's explicit parameters are exactly the defaults, interval by interval. */
  lemma ScriptParamsAreDefaults(interval: string)
    requires interval in ScriptParams
    ensures interval in IntradayIntervals
    ensures ScriptParams[interval] == (DefaultHistoricalDays(interval), DefaultChunkDays(interval))
  {
  }

  /** `now - timedelta(days=historical_days) + timedelta(days=1)`. */
  function RangeStart(now: int, days: int): int
  {
    now - days * DAY_MS + DAY_MS
  }

  /** The windows of the intraday loop. */
  function IntradayWindows(interval: string, historicalDays: Option<int>, chunkDays: Option<int>, now: int): seq<Window>
    requires ChunkDays(interval, chunkDays) > 0
  {
    Plan(RangeStart(now, HistoricalDays(interval, historicalDays)), now, ChunkDays(interval, chunkDays) * DAY_MS)
  }

  /** What a call returns and what it writes to `{ticker}_{interval}.csv` (`None`: nothing written). */
  datatype Outcome = Outcome(result: Table, written: Option<Table>)

  /** The single `period="max"` request of a non-intraday interval. */
  function HistoricalOutcome(saveCsv: bool, answer: Option<YfFrame>): Outcome
  {
    match answer
    case None => Outcome(EmptyTable, None)
    case Some(f) =>
      if IsEmpty(f) then Outcome(EmptyTable, None)
      else
        match HistoricColumns(ResetHeader(f))
        case None => Outcome(EmptyTable, None)
        case Some(h) =>
          var t := Table(h, f.rows);
          Outcome(t, if saveCsv then Some(t) else None)
  }

  /** The whole of `download_interval`, as a value. */
  function DownloadIntervalSpec(interval: string, saveCsv: bool, historicalDays: Option<int>, chunkDays: Option<int>,
                                now: int, fetch: (int, int) -> Option<YfFrame>, answer: Option<YfFrame>,
                                file: FileState): Outcome
    requires interval in IntradayIntervals ==> ChunkDays(interval, chunkDays) > 0
  {
    if interval in IntradayIntervals then
      var result := Downloaded(Successes(IntradayWindows(interval, historicalDays, chunkDays, now), ChunkRequest(fetch)));
      if saveCsv then
        var merged := MergeExisting(file, result);
        Outcome(merged, Some(merged))
      else Outcome(result, None)
    else HistoricalOutcome(saveCsv, answer)
  }

  /**
   * `download_interval`. `now` is the clock reading, `fetch(start, end)` the
   * chunk request, `answer` the reply to the single `period="max"` request,
   * `file` the output file before the call. A positive chunk is required for
   * intraday intervals: with any other the loop never advances.
   */
  method DownloadInterval(interval: string, saveCsv: bool, historicalDays: Option<int>, chunkDays: Option<int>,
                          now: int, fetch: (int, int) -> Option<YfFrame>, answer: Option<YfFrame>,
                          file: FileState)
    returns (out: Outcome)
    requires interval in IntradayIntervals ==> ChunkDays(interval, chunkDays) > 0
    ensures out == DownloadIntervalSpec(interval, saveCsv, historicalDays, chunkDays, now, fetch, answer, file)
  {
    if interval in IntradayIntervals {
      var days := if historicalDays.Some? then historicalDays.value else DefaultHistoricalDays(interval);
      var chunk := if chunkDays.Some? then chunkDays.value else DefaultChunkDays(interval);
      var ws, frames := FetchAll(RangeStart(now, days), now, chunk * DAY_MS, ChunkRequest(fetch));
      var result := Downloaded(frames);
      if saveCsv {
        result := MergeExisting(file, result);
        out := Outcome(result, Some(result));
      } else {
        out := Outcome(result, None);
      }
    } else {
      out := HistoricalOutcome(saveCsv, answer);
    }
  }

  /**
   * The intraday windows start one day after `now - historical_days`, end
   * exactly at `now`, are contiguous and at most `chunk_days` long; there
   * are none at all when `historical_days <= 1`.
   */
  lemma IntradayWindowsShape(interval: string, historicalDays: Option<int>, chunkDays: Option<int>, now: int)
    requires ChunkDays(interval, chunkDays) > 0
    ensures var ws := IntradayWindows(interval, historicalDays, chunkDays, now);
      && (|ws| == 0 <==> HistoricalDays(interval, historicalDays) <= 1)
      && (|ws| > 0 ==> ws[0].start == now - (HistoricalDays(interval, historicalDays) - 1) * DAY_MS && ws[|ws| - 1].end == now)
      && (forall i :: 0 <= i < |ws| ==> ws[i].start < ws[i].end <= ws[i].start + ChunkDays(interval, chunkDays) * DAY_MS)
      && (forall i, j :: 0 <= i && j == i + 1 && j < |ws| ==> ws[i].end == ws[j].start)
  {
    var days := HistoricalDays(interval, historicalDays);
    PlanShape(RangeStart(now, days), now, ChunkDays(interval, chunkDays) * DAY_MS);
  }

  /**
   * An intraday call with `save_csv` writes exactly the table it returns,
   * even when nothing was downloaded; without `save_csv` it writes nothing.
   */
  lemma IntradayWrites(interval: string, saveCsv: bool, historicalDays: Option<int>, chunkDays: Option<int>,
                       now: int, fetch: (int, int) -> Option<YfFrame>, answer: Option<YfFrame>, file: FileState)
    requires interval in IntradayIntervals && ChunkDays(interval, chunkDays) > 0
    ensures var out := DownloadIntervalSpec(interval, saveCsv, historicalDays, chunkDays, now, fetch, answer, file);
      out.written == if saveCsv then Some(out.result) else None
  {
  }

  /**
   * After a saving intraday call whose result has a `datetime` column, the
   * file's rows are ascending with unique timestamps, cover the timestamps of
   * the old file and of every chunk, and the old file's row wins on a
   * shared timestamp.
   */
  lemma IntradayMerged(interval: string, historicalDays: Option<int>, chunkDays: Option<int>,
                       now: int, fetch: (int, int) -> Option<YfFrame>, answer: Option<YfFrame>, prev: Table, x: Row)
    requires interval in IntradayIntervals && ChunkDays(interval, chunkDays) > 0
    requires UnifyTable(prev).Some?
    requires Key in DownloadIntervalSpec(interval, true, historicalDays, chunkDays, now, fetch, answer, Readable(prev)).result.header
    ensures var out := DownloadIntervalSpec(interval, true, historicalDays, chunkDays, now, fetch, answer, Readable(prev));
      var frames := Successes(IntradayWindows(interval, historicalDays, chunkDays, now), ChunkRequest(fetch));
      && Ascending(out.result.rows)
      && Keys(out.result.rows) == Keys(prev.rows) + Keys(AllRows(frames))
      && (x in out.result.rows && x.time in Keys(prev.rows) ==> x == FirstWith(prev.rows, x.time))
  {
    var frames := Successes(IntradayWindows(interval, historicalDays, chunkDays, now), ChunkRequest(fetch));
    MergeExistingSorted(prev, frames);
    if x in DownloadIntervalSpec(interval, true, historicalDays, chunkDays, now, fetch, answer, Readable(prev)).result.rows {
      MergeExistingPrecedence(prev, frames, x);
    }
  }

  /**
   * When no chunk returns data, a saving call leaves the old file's unified
   * rows, de-duplicated and sorted, and writes them back.
   */
  lemma NothingDownloadedKeepsFile(interval: string, historicalDays: Option<int>, chunkDays: Option<int>,
                                   now: int, fetch: (int, int) -> Option<YfFrame>, answer: Option<YfFrame>, prev: Table)
    requires interval in IntradayIntervals && ChunkDays(interval, chunkDays) > 0
    requires Successes(IntradayWindows(interval, historicalDays, chunkDays, now), ChunkRequest(fetch)) == []
    requires UnifyTable(prev).Some? && Key in UnifyTable(prev).value.header
    ensures var out := DownloadIntervalSpec(interval, true, historicalDays, chunkDays, now, fetch, answer, Readable(prev));
      && out.result.header == UnifyTable(prev).value.header
      && out.result.rows == SortByTime(DedupKeepFirst(prev.rows))
      && out.written == Some(out.result)
  {
    var e := UnifyTable(prev).value;
    assert Concat(e, EmptyTable) == e;
  }

  /**
   * A non-intraday interval never chunks: it returns an empty frame and
   * writes nothing, or returns the six final columns and writes them when
   * `save_csv` is set.
   */
  lemma HistoricalBranch(interval: string, saveCsv: bool, historicalDays: Option<int>, chunkDays: Option<int>,
                         now: int, fetch: (int, int) -> Option<YfFrame>, answer: Option<YfFrame>, file: FileState)
    requires interval !in IntradayIntervals
    ensures var out := DownloadIntervalSpec(interval, saveCsv, historicalDays, chunkDays, now, fetch, answer, file);
      || (out.result == EmptyTable && out.written == None)
      || (&& (forall w :: w in out.result.header <==> w in FinalColumns)
          && out.result.rows == answer.value.rows
          && out.written == if saveCsv then Some(out.result) else None)
  {
    if answer.Some? && !IsEmpty(answer.value) {
      HistoricColumnsShape(ResetHeader(answer.value));
    }
  }
}
