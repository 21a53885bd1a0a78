/**
 * `IntradayDataDownloader` of the short-term intraday script: the
 * constructor settles the date range and the chunk size, `adjust_dates`
 * pulls a future end date back to the present, and `download` fetches the
 * range chunk by chunk and merges the result behind the saved file.
 */
module IntradayShortTerm {
  import opened Common
  import opened Rows
  import opened Tables
  import opened YfFrames
  import opened Windowing
  import CryptoDatasets

  /** The intervals for which yfinance keeps only about 30 days. */
  const MinuteIntervals: set<string> := {"1m", "2m", "5m", "15m", "30m"}

  /** `historical_days` after the defaults and the 30-day clamp of the constructor. */
  function EffectiveHistoricalDays(interval: string, given: Option<int>): int
  {
    match given
    case None =>
      if interval in MinuteIntervals then 30
      else if interval in {"60m", "90m", "1h"} then 90
      else 30
    case Some(d) =>
      if interval in MinuteIntervals && d > 30 then 30 else d
  }

  /** `chunk_days` after the default and the 8-day clamp for `1m`. */
  function EffectiveChunkDays(interval: string, given: Option<int>): int
  {
    match given
    case None => if interval == "1m" then 8 else 15
    case Some(c) => if interval == "1m" && c > 8 then 8 else c
  }

  /**
   * A given `historical_days` is kept, except that a minute interval never
   * goes past 30 days; a given `chunk_days` is kept, except that `1m` never
   * goes past 8 days.
   */
  lemma ClampsSpec(interval: string, days: int, chunk: int)
    ensures var d := EffectiveHistoricalDays(interval, Some(days));
      && d <= days
      && (interval in MinuteIntervals ==> d <= 30)
      && (d == days || (interval in MinuteIntervals && days > 30 && d == 30))
    ensures var c := EffectiveChunkDays(interval, Some(chunk));
      && c <= chunk
      && (interval == "1m" ==> c <= 8)
      && (c == chunk || (interval == "1m" && chunk > 8 && c == 8))
  {
  }

  /**
   * The defaults agree with those of the crypto script on every interval
   * except `90m`, where this script takes 90 days and the other 60; the
   * chunk defaults agree everywhere.
   */
  lemma DefaultsAgainstCryptoScript(interval: string)
    ensures EffectiveHistoricalDays(interval, None) == CryptoDatasets.DefaultHistoricalDays(interval) <==> interval != "90m"
    ensures EffectiveChunkDays(interval, None) == CryptoDatasets.DefaultChunkDays(interval)
  {
  }

  /** Why `download` can stop with an exception: the saved file does not load, or its columns cannot be unified. */
  datatype DownloadError = ExistingFileUnreadable | ExistingColumnsInvalid

  /** What `download` returns and writes (`None`: no file written). */
  datatype Outcome = Outcome(result: Table, written: Option<Table>)

  /** `download`, as a value, over the downloader's range and chunk. */
  function DownloadSpec(start: int, end: int, chunk: int, saveCsv: bool,
                        fetch: (int, int) -> Option<YfFrame>, file: FileState): Result<Outcome, DownloadError>
    requires chunk > 0
  {
    var frames := Successes(Plan(start, end, chunk), ChunkRequest(fetch));
    if frames == [] then Ok(Outcome(EmptyTable, None))
    else
      var result := Downloaded(frames);
      if !saveCsv then Ok(Outcome(result, None))
      else
        match file
        case Missing => Ok(Outcome(result, Some(result)))
        case Unreadable => Err(ExistingFileUnreadable)
        case Readable(prev) =>
          match UnifyTable(prev)
          case None => Err(ExistingColumnsInvalid)
          case Some(e) =>
            var merged := DedupSortFirst(Concat(e, result), Key);
            Ok(Outcome(merged, Some(merged)))
  }

  class IntradayDownloader {
    const interval: string
    /** The range `[startDate, endDate)` to download, in milliseconds. */
    var startDate: int
    var endDate: int
    /** `max_chunk`, in milliseconds. */
    var maxChunk: int

    /**
     * `__init__`: `now` is the clock reading of the constructor, `clock` the
     * later one taken by `adjust_dates`.
     */
    constructor(interval: string, chunkDays: Option<int>, historicalDays: Option<int>, now: int, clock: int)
      ensures this.interval == interval
      ensures startDate == now - EffectiveHistoricalDays(interval, historicalDays) * DAY_MS + DAY_MS
      ensures endDate == Min(now, clock)
      ensures maxChunk == EffectiveChunkDays(interval, chunkDays) * DAY_MS
    {
      this.interval := interval;
      endDate := now;
      startDate := now - EffectiveHistoricalDays(interval, historicalDays) * DAY_MS + DAY_MS;
      maxChunk := EffectiveChunkDays(interval, chunkDays) * DAY_MS;
      new;
      AdjustDates(clock);
    }

    /** `adjust_dates`: an end date in the future becomes `now`; any other is kept. */
    method AdjustDates(now: int)
      modifies this`endDate
      ensures endDate <= now
      ensures old(endDate) <= now ==> endDate == old(endDate)
      ensures old(endDate) > now ==> endDate == now
    {
      if endDate > now {
        endDate := now;
      }
    }

    /**
     * `download`. The chunk loop needs a positive chunk to advance. A saved
     * file that fails to load makes the call raise: unlike the other
     * downloaders this one reads it outside any `try`.
     */
    method Download(saveCsv: bool, fetch: (int, int) -> Option<YfFrame>, file: FileState)
      returns (r: Result<Outcome, DownloadError>)
      requires maxChunk > 0
      ensures r == DownloadSpec(startDate, endDate, maxChunk, saveCsv, fetch, file)
    {
      var ws, frames := FetchAll(startDate, endDate, maxChunk, ChunkRequest(fetch));
      if frames == [] {
        return Ok(Outcome(EmptyTable, None));
      }
      var result := Downloaded(frames);
      if !saveCsv {
        return Ok(Outcome(result, None));
      }
      match file {
        case Missing =>
          r := Ok(Outcome(result, Some(result)));
        case Unreadable =>
          r := Err(ExistingFileUnreadable);
        case Readable(prev) =>
          var e := UnifyTable(prev);
          if e.None? {
            return Err(ExistingColumnsInvalid);
          }
          result := DedupSortFirst(Concat(e.value, result), Key);
          r := Ok(Outcome(result, Some(result)));
      }
    }
  }

  /** When no chunk returns data, `download` returns an empty frame and writes no file. */
  lemma NoDataNoFile(start: int, end: int, chunk: int, saveCsv: bool, fetch: (int, int) -> Option<YfFrame>, file: FileState)
    requires chunk > 0
    requires forall w :: w in Plan(start, end, chunk) ==> ChunkRequest(fetch)(w).None?
    ensures DownloadSpec(start, end, chunk, saveCsv, fetch, file) == Ok(Outcome(EmptyTable, None))
  {
    NoSuccesses(Plan(start, end, chunk), ChunkRequest(fetch));
  }

  lemma {:induction false} NoSuccesses<T>(ws: seq<Window>, fetch: Window -> Option<T>)
    requires forall w :: w in ws ==> fetch(w).None?
    ensures Successes(ws, fetch) == []
  {
    if ws != [] {
      assert forall w :: w in ws[..|ws| - 1] ==> w in ws;
      NoSuccesses(ws[..|ws| - 1], fetch);
      assert ws[|ws| - 1] in ws;
    }
  }

  /**
   * A successful saving download whose result has a `datetime` column
   * writes rows ascending with unique timestamps, covering the saved and the
   * downloaded timestamps, the saved row winning on a shared timestamp.
   */
  lemma DownloadMerged(start: int, end: int, chunk: int, fetch: (int, int) -> Option<YfFrame>, prev: Table, x: Row)
    requires chunk > 0
    requires DownloadSpec(start, end, chunk, true, fetch, Readable(prev)).Ok?
    requires DownloadSpec(start, end, chunk, true, fetch, Readable(prev)).value.written.Some?
    requires Key in DownloadSpec(start, end, chunk, true, fetch, Readable(prev)).value.result.header
    ensures var out := DownloadSpec(start, end, chunk, true, fetch, Readable(prev)).value;
      var frames := Successes(Plan(start, end, chunk), ChunkRequest(fetch));
      && out.written == Some(out.result)
      && Ascending(out.result.rows)
      && Keys(out.result.rows) == Keys(prev.rows) + Keys(AllRows(frames))
      && (x in out.result.rows && x.time in Keys(prev.rows) ==> x == FirstWith(prev.rows, x.time))
  {
    var frames := Successes(Plan(start, end, chunk), ChunkRequest(fetch));
    assert DownloadSpec(start, end, chunk, true, fetch, Readable(prev)).value.result == MergeExisting(Readable(prev), Downloaded(frames));
    MergeExistingSorted(prev, frames);
    if x in MergeExisting(Readable(prev), Downloaded(frames)).rows {
      MergeExistingPrecedence(prev, frames, x);
    }
  }
}
