/**
 * The stocks script: for every ticker of the list and every interval, the
 * answer of the provider is renamed, merged keep-last with the file already
 * on disk (so fresh rows win), sorted by `Date` and written back. A failed
 * or empty request skips the interval.
 */
module Stocks {
  import opened Common
  import opened Rows
  import opened Tables
  import opened Tickers
  import opened TickerHistory

  /**
   * The only way the run stops early: the combined frame has no `Date`
   * column, so `drop_duplicates(subset="Date")` raises outside any `try`.
   */
  datatype StocksError = MissingDateColumn(path: string)

  /**
   * Where a run got to: the disk as the files written so far left it, and
   * the error that stopped the run, if one did. Files written before the
   * error stay written.
   */
  datatype Progress = Progress(disk: Disk, error: Option<StocksError>)

  /** The saved file as `read_csv(parse_dates=["Date"])` loads it; a file that fails to load counts as empty. */
  function Loaded(file: FileState): (t: Table)
    ensures t == EmptyTable || (file.Readable? && t == file.table && "Date" in t.header)
  {
    match file
    case Readable(t) => if "Date" in t.header then t else EmptyTable
    case _ => EmptyTable
  }

  /**
   * `pd.concat([data_existente, data])`, de-duplicated keep-last on `Date` and
   * sorted; `None` when there is no `Date` column to de-duplicate on.
   */
  function Combine(file: FileState, data: Table): Option<Table>
  {
    var existing := Loaded(file);
    var combined := Concat(existing, data);
    if "Date" !in combined.header then None
    else Some(Table(combined.header, MergeKeepLast(existing.rows, data.rows)))
  }

  /** One pass of the interval loop, as a value. */
  function IntervalStep(cwd: string, ticker: string, interval: string, answer: Option<History>, disk: Disk): Progress
  {
    if Skipped(answer) then Progress(disk, None)
    else
      var data := Fresh(answer.value);
      var path := OutputPath(cwd, ticker, interval);
      if Exists(disk, path) then
        match Combine(disk[path], data)
        case None => Progress(disk, Some(MissingDateColumn(path)))
        case Some(t) => Progress(disk[path := Readable(t)], None)
      else Progress(disk[path := Readable(data)], None)
  }

  /** The interval loop of one ticker over `intervals`, as a value; an error stops it. */
  function RunIntervals(cwd: string, ticker: string, intervals: seq<string>, history: Provider, disk: Disk): Progress
  {
    if intervals == [] then Progress(disk, None)
    else
      var last := intervals[|intervals| - 1];
      var p := RunIntervals(cwd, ticker, intervals[..|intervals| - 1], history, disk);
      if p.error.Some? then p else IntervalStep(cwd, ticker, last, Ask(history, ticker, last), p.disk)
  }

  /** The ticker loop, as a value; an error stops it. */
  function RunTickers(cwd: string, tickers: seq<string>, history: Provider, disk: Disk): Progress
  {
    if tickers == [] then Progress(disk, None)
    else
      var p := RunTickers(cwd, tickers[..|tickers| - 1], history, disk);
      if p.error.Some? then p else RunIntervals(cwd, tickers[|tickers| - 1], Intervals, history, p.disk)
  }

  /** `main`, as a value: without a ticker file nothing happens. */
  function UpdateStocksSpec(cwd: string, tickerFile: Option<seq<string>>, history: Provider, disk: Disk): Progress
  {
    match tickerFile
    case None => Progress(disk, None)
    case Some(lines) => RunTickers(cwd, ParseTickers(lines), history, disk)
  }

  /** Running one more interval: the step is applied to the earlier result unless that was stopped. */
  lemma RunIntervalsSnoc(cwd: string, ticker: string, intervals: seq<string>, i: nat, history: Provider, disk: Disk)
    requires i < |intervals|
    ensures var p := RunIntervals(cwd, ticker, intervals[..i], history, disk);
      RunIntervals(cwd, ticker, intervals[..i + 1], history, disk) ==
        if p.error.Some? then p else IntervalStep(cwd, ticker, intervals[i], Ask(history, ticker, intervals[i]), p.disk)
  {
    assert intervals[..i + 1][..i] == intervals[..i];
  }

  /** Running one more ticker: its interval loop is applied to the earlier result unless that was stopped. */
  lemma RunTickersSnoc(cwd: string, tickers: seq<string>, i: nat, history: Provider, disk: Disk)
    requires i < |tickers|
    ensures var p := RunTickers(cwd, tickers[..i], history, disk);
      RunTickers(cwd, tickers[..i + 1], history, disk) ==
        if p.error.Some? then p else RunIntervals(cwd, tickers[i], Intervals, history, p.disk)
  {
    assert tickers[..i + 1][..i] == tickers[..i];
  }

  /**
   * Once the interval loop has stopped with an error, the later intervals
   * change nothing: the files written before the error are what the run
   * leaves.
   */
  lemma {:induction false} RunIntervalsStopped(cwd: string, ticker: string, intervals: seq<string>, n: nat, history: Provider, disk: Disk)
    requires n <= |intervals|
    requires RunIntervals(cwd, ticker, intervals[..n], history, disk).error.Some?
    ensures RunIntervals(cwd, ticker, intervals, history, disk) == RunIntervals(cwd, ticker, intervals[..n], history, disk)
  {
    if n < |intervals| {
      var init := intervals[..|intervals| - 1];
      assert init[..n] == intervals[..n];
      RunIntervalsStopped(cwd, ticker, init, n, history, disk);
    } else {
      assert intervals[..n] == intervals;
    }
  }

  /**
   * Where the interval loop stops: when the intervals before `n` ran without
   * error and interval `n` fails, the run ends with that error and with the
   * disk as those earlier intervals left it.
   */
  lemma RunIntervalsStopsAt(cwd: string, ticker: string, intervals: seq<string>, n: nat, history: Provider, disk: Disk)
    requires n < |intervals|
    requires RunIntervals(cwd, ticker, intervals[..n], history, disk).error.None?
    requires var before := RunIntervals(cwd, ticker, intervals[..n], history, disk).disk;
      IntervalStep(cwd, ticker, intervals[n], Ask(history, ticker, intervals[n]), before).error.Some?
    ensures var before := RunIntervals(cwd, ticker, intervals[..n], history, disk).disk;
      RunIntervals(cwd, ticker, intervals, history, disk)
        == Progress(before, Some(MissingDateColumn(OutputPath(cwd, ticker, intervals[n]))))
  {
    var before := RunIntervals(cwd, ticker, intervals[..n], history, disk).disk;
    RunIntervalsSnoc(cwd, ticker, intervals, n, history, disk);
    IntervalStepSpec(cwd, ticker, intervals[n], Ask(history, ticker, intervals[n]), before);
    RunIntervalsStopped(cwd, ticker, intervals, n + 1, history, disk);
  }

  /** Once the ticker loop has stopped with an error, the later tickers change nothing. */
  lemma {:induction false} RunTickersStopped(cwd: string, tickers: seq<string>, n: nat, history: Provider, disk: Disk)
    requires n <= |tickers|
    requires RunTickers(cwd, tickers[..n], history, disk).error.Some?
    ensures RunTickers(cwd, tickers, history, disk) == RunTickers(cwd, tickers[..n], history, disk)
  {
    if n < |tickers| {
      var init := tickers[..|tickers| - 1];
      assert init[..n] == tickers[..n];
      RunTickersStopped(cwd, init, n, history, disk);
    } else {
      assert tickers[..n] == tickers;
    }
  }

  /**
   * Where the ticker loop stops: when the tickers before `n` ran without
   * error and the run of ticker `n` stops, the whole run ends as that
   * ticker's run ended, keeping what the earlier tickers and its own earlier
   * intervals wrote.
   */
  lemma RunTickersStopsAt(cwd: string, tickers: seq<string>, n: nat, history: Provider, disk: Disk)
    requires n < |tickers|
    requires RunTickers(cwd, tickers[..n], history, disk).error.None?
    requires RunIntervals(cwd, tickers[n], Intervals, history, RunTickers(cwd, tickers[..n], history, disk).disk).error.Some?
    ensures RunTickers(cwd, tickers, history, disk)
      == RunIntervals(cwd, tickers[n], Intervals, history, RunTickers(cwd, tickers[..n], history, disk).disk)
  {
    RunTickersSnoc(cwd, tickers, n, history, disk);
    RunTickersStopped(cwd, tickers, n + 1, history, disk);
  }

  /**
   * The interval loop of one ticker: each interval is processed in turn, and
   * an error ends the loop.
   */
  method ProcessTicker(cwd: string, ticker: string, history: Provider, disk: Disk) returns (r: Progress)
    ensures r == RunIntervals(cwd, ticker, Intervals, history, disk)
  {
    var current := disk;
    var i := 0;
    while i < |Intervals|
      invariant 0 <= i <= |Intervals|
      invariant RunIntervals(cwd, ticker, Intervals[..i], history, disk) == Progress(current, None)
    {
      var interval := Intervals[i];
      RunIntervalsSnoc(cwd, ticker, Intervals, i, history, disk);
      var answer := history(ticker, interval, PeriodFor(interval));
      var step := ProcessInterval(cwd, ticker, interval, answer, current);
      if step.error.Some? {
        RunIntervalsStopped(cwd, ticker, Intervals, i + 1, history, disk);
        return step;
      }
      current := step.disk;
      i := i + 1;
    }
    assert Intervals[..i] == Intervals;
    r := Progress(current, None);
  }

  /**
   * One pass of the interval loop: a request that raises or comes back
   * empty is skipped; otherwise the frame is renamed, merged with the file
   * if there is one, and written.
   */
  method ProcessInterval(cwd: string, ticker: string, interval: string, answer: Option<History>, disk: Disk)
    returns (r: Progress)
    ensures r == IntervalStep(cwd, ticker, interval, answer, disk)
  {
    if answer.None? || IsEmpty(answer.value) {
      return Progress(disk, None);
    }
    var data := Fresh(answer.value);
    var path := OutputPath(cwd, ticker, interval);
    var combined := data;
    if path in disk && !disk[path].Missing? {
      var existing := Loaded(disk[path]);
      combined := Concat(existing, data);
      if "Date" !in combined.header {
        return Progress(disk, Some(MissingDateColumn(path)));
      }
      combined := Table(combined.header, MergeKeepLast(existing.rows, data.rows));
    }
    r := Progress(disk[path := Readable(combined)], None);
  }

  /**
   * `main`: without a ticker file the run ends at once; otherwise every
   * parsed ticker is processed in order, and an error ends the run.
   */
  method UpdateStocks(cwd: string, tickerFile: Option<seq<string>>, history: Provider, disk: Disk) returns (r: Progress)
    ensures r == UpdateStocksSpec(cwd, tickerFile, history, disk)
  {
    if tickerFile.None? {
      return Progress(disk, None);
    }
    var tickers := ParseTickers(tickerFile.value);
    var current := disk;
    var i := 0;
    while i < |tickers|
      invariant 0 <= i <= |tickers|
      invariant RunTickers(cwd, tickers[..i], history, disk) == Progress(current, None)
    {
      RunTickersSnoc(cwd, tickers, i, history, disk);
      var step := ProcessTicker(cwd, tickers[i], history, current);
      if step.error.Some? {
        RunTickersStopped(cwd, tickers, i + 1, history, disk);
        return step;
      }
      current := step.disk;
      i := i + 1;
    }
    assert tickers[..i] == tickers;
    r := Progress(current, None);
  }

  /**
   * One interval: a skipped answer leaves the disk as it was; otherwise only
   * the interval's own file changes, the run stops exactly when the file
   * exists and neither it nor the answer has a `Date` column, and then
   * nothing is written; a file that did not exist receives the renamed
   * answer, without `Datetime`.
   */
  lemma IntervalStepSpec(cwd: string, ticker: string, interval: string, answer: Option<History>, disk: Disk)
    ensures Skipped(answer) ==> IntervalStep(cwd, ticker, interval, answer, disk) == Progress(disk, None)
    ensures var path := OutputPath(cwd, ticker, interval);
      var step := IntervalStep(cwd, ticker, interval, answer, disk);
      && (step.error.Some? <==>
            !Skipped(answer) && Exists(disk, path) && "Date" !in Loaded(disk[path]).header && "Date" !in Fresh(answer.value).header)
      && (step.error.Some? ==> step.disk == disk && step.error.value == MissingDateColumn(path))
      && (forall p :: p != path ==> (p in step.disk <==> p in disk))
      && (forall p :: p != path && p in disk ==> step.disk[p] == disk[p])
      && (!Skipped(answer) && !Exists(disk, path) ==>
            step == Progress(disk[path := Readable(Fresh(answer.value))], None)
            && "Datetime" !in Fresh(answer.value).header)
  {
    if !Skipped(answer) {
      var h := answer.value;
      RenameDatetimeSpec([h.index] + h.columns);
    }
  }

  /** With a saved file that loads, the step writes the keep-last merge of its rows and the downloaded ones. */
  lemma MergedStep(cwd: string, ticker: string, interval: string, answer: Option<History>, disk: Disk)
    requires !Skipped(answer)
    requires var path := OutputPath(cwd, ticker, interval);
      path in disk && disk[path].Readable? && "Date" in disk[path].table.header
    ensures var path := OutputPath(cwd, ticker, interval);
      var saved := disk[path].table;
      var data := Fresh(answer.value);
      IntervalStep(cwd, ticker, interval, answer, disk)
        == Progress(disk[path := Readable(Table(Concat(saved, data).header, MergeKeepLast(saved.rows, data.rows)))], None)
  {
    var path := OutputPath(cwd, ticker, interval);
    assert Loaded(disk[path]) == disk[path].table;
  }

  /**
   * Merging with a saved file that loads: the rows written have unique,
   * ascending dates covering the saved and the downloaded dates, and on a
   * shared date the downloaded row wins; a saved date that was not
   * downloaded keeps its last saved row.
   */
  lemma MergedFile(cwd: string, ticker: string, interval: string, answer: Option<History>, disk: Disk, x: Row)
    requires !Skipped(answer)
    requires var path := OutputPath(cwd, ticker, interval);
      path in disk && disk[path].Readable? && "Date" in disk[path].table.header
    ensures var path := OutputPath(cwd, ticker, interval);
      var saved := disk[path].table.rows;
      var got := answer.value.rows;
      var out := IntervalStep(cwd, ticker, interval, answer, disk);
      && out.error.None? && path in out.disk && out.disk[path].Readable?
      && Ascending(out.disk[path].table.rows)
      && Keys(out.disk[path].table.rows) == Keys(saved) + Keys(got)
      && (x in out.disk[path].table.rows && x.time in Keys(got) ==> x == LastWith(got, x.time))
      && (x in out.disk[path].table.rows && x.time !in Keys(got) ==> x.time in Keys(saved) && x == LastWith(saved, x.time))
  {
    var path := OutputPath(cwd, ticker, interval);
    var saved := disk[path].table;
    var data := Fresh(answer.value);
    var merged := Table(Concat(saved, data).header, MergeKeepLast(saved.rows, data.rows));
    MergedStep(cwd, ticker, interval, answer, disk);
    assert IntervalStep(cwd, ticker, interval, answer, disk).disk[path].table == merged;
    MergeKeepLastSpec(saved.rows, data.rows);
    if x in merged.rows && x.time !in Keys(data.rows) {
      assert x.time in Keys(saved.rows) && x == LastWith(saved.rows, x.time);
    }
  }

  /**
   * A saved file that fails to load, or has no `Date` column, is treated as
   * empty: the file then holds the downloaded rows alone, de-duplicated
   * keep-last and sorted.
   */
  lemma UnloadableFile(cwd: string, ticker: string, interval: string, answer: Option<History>, disk: Disk)
    requires !Skipped(answer) && "Date" in Fresh(answer.value).header
    requires var path := OutputPath(cwd, ticker, interval);
      path in disk && (disk[path].Unreadable? || (disk[path].Readable? && "Date" !in disk[path].table.header))
    ensures var path := OutputPath(cwd, ticker, interval);
      var data := Fresh(answer.value);
      IntervalStep(cwd, ticker, interval, answer, disk)
        == Progress(disk[path := Readable(Table(HeaderUnion([], data.header), SortByTime(DedupKeepLast(data.rows))))], None)
  {
    var data := Fresh(answer.value);
    assert [] + data.rows == data.rows;
  }

  /** When every request of a ticker is skipped, its run leaves the disk as it was and goes on. */
  lemma {:induction false} AllSkipped(cwd: string, ticker: string, intervals: seq<string>, history: Provider, disk: Disk)
    requires forall iv :: iv in intervals ==> Skipped(Ask(history, ticker, iv))
    ensures RunIntervals(cwd, ticker, intervals, history, disk) == Progress(disk, None)
  {
    if intervals != [] {
      var init := intervals[..|intervals| - 1];
      assert forall iv :: iv in init ==> iv in intervals;
      AllSkipped(cwd, ticker, init, history, disk);
      assert intervals[|intervals| - 1] in intervals;
    }
  }

  /**
   * A ticker's run, whether it completes or stops, writes only the files of
   * that ticker's intervals; every other path keeps its state.
   */
  lemma {:induction false} RunIntervalsFrame(cwd: string, ticker: string, intervals: seq<string>, history: Provider, disk: Disk, p: string)
    requires forall iv :: iv in intervals ==> p != OutputPath(cwd, ticker, iv)
    ensures var d := RunIntervals(cwd, ticker, intervals, history, disk).disk;
      (p in d <==> p in disk) && (p in disk ==> d[p] == disk[p])
  {
    if intervals != [] {
      var init := intervals[..|intervals| - 1];
      var last := intervals[|intervals| - 1];
      assert forall iv :: iv in init ==> iv in intervals;
      assert last in intervals;
      RunIntervalsFrame(cwd, ticker, init, history, disk, p);
      IntervalStepSpec(cwd, ticker, last, Ask(history, ticker, last), RunIntervals(cwd, ticker, init, history, disk).disk);
    }
  }
}
