/**
 * The forex script: for every currency pair of the list and every interval,
 * the provider is asked for the pair's `=X` symbol, and a non-empty answer
 * is renamed and written over the interval's file. Nothing is merged and
 * nothing stops the run.
 */
module Forex {
  import opened Common
  import opened Tables
  import opened Tickers
  import opened TickerHistory

  /** One pass of the interval loop, as a value. */
  function IntervalStep(cwd: string, ticker: string, interval: string, answer: Option<History>, disk: Disk): Disk
  {
    if Skipped(answer) then disk
    else disk[OutputPath(cwd, ticker, interval) := Readable(Fresh(answer.value))]
  }

  /** The answer for one interval of a pair. */
  function PairAnswer(history: Provider, ticker: string, interval: string): Option<History>
  {
    Ask(history, ForexSymbol(ticker), interval)
  }

  /** The interval loop of one pair over `intervals`, as a value. */
  function RunIntervals(cwd: string, ticker: string, intervals: seq<string>, history: Provider, disk: Disk): Disk
  {
    if intervals == [] then disk
    else
      var last := intervals[|intervals| - 1];
      var d := RunIntervals(cwd, ticker, intervals[..|intervals| - 1], history, disk);
      IntervalStep(cwd, ticker, last, PairAnswer(history, ticker, last), d)
  }

  /** The pair loop, as a value. */
  function RunTickers(cwd: string, tickers: seq<string>, history: Provider, disk: Disk): Disk
  {
    if tickers == [] then disk
    else RunIntervals(cwd, tickers[|tickers| - 1], Intervals, history, RunTickers(cwd, tickers[..|tickers| - 1], history, disk))
  }

  /** `main`, as a value: without a list of pairs nothing happens. */
  function UpdateForexSpec(cwd: string, tickerFile: Option<seq<string>>, history: Provider, disk: Disk): Disk
  {
    match tickerFile
    case None => disk
    case Some(lines) => RunTickers(cwd, ParseTickers(lines), history, disk)
  }

  /** Running one more interval applies its step to the earlier result. */
  lemma RunIntervalsSnoc(cwd: string, ticker: string, intervals: seq<string>, i: nat, history: Provider, disk: Disk)
    requires i < |intervals|
    ensures RunIntervals(cwd, ticker, intervals[..i + 1], history, disk) ==
      IntervalStep(cwd, ticker, intervals[i], PairAnswer(history, ticker, intervals[i]), RunIntervals(cwd, ticker, intervals[..i], history, disk))
  {
    assert intervals[..i + 1][..i] == intervals[..i];
  }

  /** Running one more pair applies its interval loop to the earlier result. */
  lemma RunTickersSnoc(cwd: string, tickers: seq<string>, i: nat, history: Provider, disk: Disk)
    requires i < |tickers|
    ensures RunTickers(cwd, tickers[..i + 1], history, disk) ==
      RunIntervals(cwd, tickers[i], Intervals, history, RunTickers(cwd, tickers[..i], history, disk))
  {
    assert tickers[..i + 1][..i] == tickers[..i];
  }

  /**
   * The interval loop of one pair: the symbol carries `=X`; a request that
   * raises or comes back empty is skipped; otherwise the renamed frame is
   * written, whatever the file held before.
   */
  method ProcessPair(cwd: string, ticker: string, history: Provider, disk: Disk) returns (d: Disk)
    ensures d == RunIntervals(cwd, ticker, Intervals, history, disk)
  {
    d := disk;
    var symbol := ticker + "=X";
    var i := 0;
    while i < |Intervals|
      invariant 0 <= i <= |Intervals|
      invariant d == RunIntervals(cwd, ticker, Intervals[..i], history, disk)
    {
      RunIntervalsSnoc(cwd, ticker, Intervals, i, history, disk);
      d := ProcessInterval(cwd, ticker, symbol, Intervals[i], history, d);
      i := i + 1;
    }
    assert Intervals[..i] == Intervals;
  }

  /** One pass of the interval loop: an answer that raises or comes back empty is skipped. */
  method ProcessInterval(cwd: string, ticker: string, symbol: string, interval: string, history: Provider, disk: Disk)
    returns (d: Disk)
    requires symbol == ForexSymbol(ticker)
    ensures d == IntervalStep(cwd, ticker, interval, PairAnswer(history, ticker, interval), disk)
  {
    d := disk;
    var answer := history(symbol, interval, PeriodFor(interval));
    if answer.None? || IsEmpty(answer.value) {
      return;
    }
    var data := Fresh(answer.value);
    d := d[OutputPath(cwd, ticker, interval) := Readable(data)];
  }

  /** `main`: without a list of pairs the run ends at once; otherwise every parsed pair is processed in order. */
  method UpdateForex(cwd: string, tickerFile: Option<seq<string>>, history: Provider, disk: Disk) returns (d: Disk)
    ensures d == UpdateForexSpec(cwd, tickerFile, history, disk)
  {
    d := disk;
    if tickerFile.None? {
      return;
    }
    var tickers := ParseTickers(tickerFile.value);
    var i := 0;
    while i < |tickers|
      invariant 0 <= i <= |tickers|
      invariant d == RunTickers(cwd, tickers[..i], history, disk)
    {
      RunTickersSnoc(cwd, tickers, i, history, disk);
      d := ProcessPair(cwd, tickers[i], history, d);
      i := i + 1;
    }
    assert tickers[..i] == tickers;
  }

  /**
   * One interval: a skipped answer leaves the disk as it was; otherwise the
   * interval's file holds exactly the renamed answer, without `Datetime`,
   * whatever it held before, and no other path changes.
   */
  lemma IntervalStepSpec(cwd: string, ticker: string, interval: string, answer: Option<History>, disk: Disk)
    ensures Skipped(answer) ==> IntervalStep(cwd, ticker, interval, answer, disk) == disk
    ensures var path := OutputPath(cwd, ticker, interval);
      var d := IntervalStep(cwd, ticker, interval, answer, disk);
      && (!Skipped(answer) ==>
            && path in d && d[path].Readable?
            && d[path].table.rows == answer.value.rows
            && "Datetime" !in d[path].table.header
            && d[path].table.header[1..] == RenameDatetime(answer.value.columns))
      && (forall p :: p != path ==> (p in d <==> p in disk))
      && (forall p :: p != path && p in disk ==> d[p] == disk[p])
  {
    if !Skipped(answer) {
      var h := answer.value;
      RenameDatetimeSpec([h.index] + h.columns);
      assert RenameDatetime([h.index] + h.columns)[1..] == RenameDatetime(h.columns);
    }
  }

  /** A path that no unskipped request of the pair's run writes keeps its state. */
  lemma {:induction false} RunIntervalsUntouched(cwd: string, ticker: string, intervals: seq<string>, history: Provider, disk: Disk, p: string)
    requires forall iv :: iv in intervals && p == OutputPath(cwd, ticker, iv) ==> Skipped(PairAnswer(history, ticker, iv))
    ensures var d := RunIntervals(cwd, ticker, intervals, history, disk);
      (p in d <==> p in disk) && (p in disk ==> d[p] == disk[p])
  {
    if intervals != [] {
      var init := intervals[..|intervals| - 1];
      var last := intervals[|intervals| - 1];
      assert forall iv :: iv in init ==> iv in intervals;
      assert last in intervals;
      RunIntervalsUntouched(cwd, ticker, init, history, disk, p);
      IntervalStepSpec(cwd, ticker, last, PairAnswer(history, ticker, last), RunIntervals(cwd, ticker, init, history, disk));
    }
  }

  /**
   * After a pair's run, an interval's file holds the answer of the last
   * request for it that was not skipped, whatever it held before.
   */
  lemma {:induction false} RunIntervalsLastWrite(cwd: string, ticker: string, intervals: seq<string>, history: Provider, disk: Disk, n: nat)
    requires n < |intervals| && !Skipped(PairAnswer(history, ticker, intervals[n]))
    requires forall m :: n < m < |intervals| && OutputPath(cwd, ticker, intervals[m]) == OutputPath(cwd, ticker, intervals[n]) ==>
                Skipped(PairAnswer(history, ticker, intervals[m]))
    ensures var d := RunIntervals(cwd, ticker, intervals, history, disk);
      var p := OutputPath(cwd, ticker, intervals[n]);
      p in d && d[p] == Readable(Fresh(PairAnswer(history, ticker, intervals[n]).value))
  {
    var init := intervals[..|intervals| - 1];
    var last := intervals[|intervals| - 1];
    var before := RunIntervals(cwd, ticker, init, history, disk);
    IntervalStepSpec(cwd, ticker, last, PairAnswer(history, ticker, last), before);
    if n < |intervals| - 1 {
      assert init[n] == intervals[n];
      assert forall m :: n < m < |init| ==> init[m] == intervals[m];
      RunIntervalsLastWrite(cwd, ticker, init, history, disk, n);
    }
  }
}
