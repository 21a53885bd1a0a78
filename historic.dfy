/**
 * `HistoricDataDownloader` of the daily, weekly and monthly crypto script:
 * for every interval one `period="max"` request; a non-empty answer has its
 * columns reduced to `datetime, open, high, low, close, volume`, is kept in
 * the returned dictionary and, when asked, written to
 * `{ticker}_{interval}.csv` in the output directory. A request that fails
 * only loses its own interval.
 */
module HistoricDownloads {
  import opened Common
  import opened Rows
  import opened Tables
  import opened YfColumns
  import opened YfFrames
  import opened Tickers
  import TickerHistory

  /** The files on disk, by path, as in the stocks and forex scripts. */
  type Disk = TickerHistory.Disk

  /**
   * The header after `get_level_values(0)` and `reset_index`: the index,
   * then the level-0 names of a `MultiIndex`, or the plain names of a flat
   * index. A tuple label of a flat index is left as a tuple by this script;
   * it can never match a name that is renamed, dropped or selected, so it is
   * left out of the header here.
   */
  function Level0Header(f: YfFrame): (h: seq<string>)
    ensures |h| >= 1 && h[0] == f.index
  {
    match f.columns
    case MultiIndex(levels) => [f.index] + seq(|levels|, i requires 0 <= i < |levels| => levels[i].0)
    case FlatIndex(labels) => [f.index] + PlainNames(labels)
  }

  /** The names of the plain (non-tuple) labels, in order. */
  function PlainNames(labels: seq<Label>): (names: seq<string>)
    ensures forall n :: n in names <==> Name(n) in labels
  {
    if labels == [] then []
    else (if labels[0].Name? then [labels[0].name] else []) + PlainNames(labels[1..])
  }

  /**
   * The body of the `try` for one interval: `None` when the request raised,
   * came back empty, or the renamed and reduced columns could not be
   * selected (pandas raises there).
   */
  function IntervalFrame(answer: Option<YfFrame>): Option<Table>
  {
    match answer
    case None => None
    case Some(f) =>
      if IsEmpty(f) then None
      else
        match HistoricColumns(Level0Header(f))
        case None => None
        case Some(h) => Some(Table(h, f.rows))
  }

  /** `os.path.join(output_dir, f"{ticker}_{interval}.csv")`. */
  function FilePath(outputDir: string, ticker: string, interval: string): string
  {
    JoinPath(outputDir, DataFileName(ticker, interval))
  }

  /** What `download` returns and what it leaves on disk. */
  datatype Downloads = Downloads(dict: map<string, Table>, disk: Disk)

  /** The interval loop of `download`, as a value. */
  function DownloadSpec(outputDir: string, ticker: string, intervals: seq<string>, saveCsv: bool,
                        fetch: (string, string) -> Option<YfFrame>, disk: Disk): Downloads
  {
    if intervals == [] then Downloads(map[], disk)
    else
      var before := DownloadSpec(outputDir, ticker, intervals[..|intervals| - 1], saveCsv, fetch, disk);
      var last := intervals[|intervals| - 1];
      match IntervalFrame(fetch(ticker, last))
      case None => before
      case Some(t) =>
        Downloads(before.dict[last := t],
                  if saveCsv then before.disk[FilePath(outputDir, ticker, last) := Readable(t)] else before.disk)
  }

  /** Requesting one more interval: a usable answer is stored, and written when asked; otherwise nothing changes. */
  lemma DownloadSnoc(outputDir: string, ticker: string, intervals: seq<string>, i: nat, saveCsv: bool,
                     fetch: (string, string) -> Option<YfFrame>, disk: Disk)
    requires i < |intervals|
    ensures var before := DownloadSpec(outputDir, ticker, intervals[..i], saveCsv, fetch, disk);
      DownloadSpec(outputDir, ticker, intervals[..i + 1], saveCsv, fetch, disk) ==
        match IntervalFrame(fetch(ticker, intervals[i]))
        case None => before
        case Some(t) =>
          Downloads(before.dict[intervals[i] := t],
                    if saveCsv then before.disk[FilePath(outputDir, ticker, intervals[i]) := Readable(t)] else before.disk)
  {
    assert intervals[..i + 1][..i] == intervals[..i];
  }

  class HistoricDataDownloader {
    const ticker: string
    const outputDir: string

    /** `__init__`; creating the directory is not modelled. */
    constructor(ticker: string, outputDir: string)
      ensures this.ticker == ticker && this.outputDir == outputDir
    {
      this.ticker := ticker;
      this.outputDir := outputDir;
    }

    /**
     * `download`: every interval is requested in turn; a usable answer is
     * stored under its interval and, with `saveCsv`, written to its file.
     */
    method Download(intervals: seq<string>, saveCsv: bool, fetch: (string, string) -> Option<YfFrame>, disk: Disk)
      returns (r: Downloads)
      ensures r == DownloadSpec(outputDir, ticker, intervals, saveCsv, fetch, disk)
    {
      var dataDict: map<string, Table> := map[];
      var files := disk;
      var i := 0;
      while i < |intervals|
        invariant 0 <= i <= |intervals|
        invariant DownloadSpec(outputDir, ticker, intervals[..i], saveCsv, fetch, disk) == Downloads(dataDict, files)
      {
        var interval := intervals[i];
        DownloadSnoc(outputDir, ticker, intervals, i, saveCsv, fetch, disk);
        var answer := fetch(ticker, interval);
        if answer.Some? && !IsEmpty(answer.value) {
          var header := HistoricColumns(Level0Header(answer.value));
          if header.Some? {
            var df := Table(header.value, answer.value.rows);
            dataDict := dataDict[interval := df];
            if saveCsv {
              files := files[JoinPath(outputDir, ticker + "_" + interval + ".csv") := Readable(df)];
            }
          }
        }
        i := i + 1;
      }
      assert intervals[..i] == intervals;
      r := Downloads(dataDict, files);
    }
  }

  /**
   * A usable answer holds exactly the rows downloaded and the columns
   * `datetime, open, high, low, close, volume`, never `Adj Close`; a frame
   * in which each of those names occurs once after renaming gives them in
   * that order.
   */
  lemma IntervalFrameSpec(answer: Option<YfFrame>)
    ensures IntervalFrame(answer).Some? ==>
      && answer.Some? && !IsEmpty(answer.value)
      && IntervalFrame(answer).value.rows == answer.value.rows
      && "Adj Close" !in IntervalFrame(answer).value.header
      && (forall w :: w in IntervalFrame(answer).value.header <==> w in FinalColumns)
    ensures answer.Some? && !IsEmpty(answer.value) ==>
      var h := Level0Header(answer.value);
      var r := DropAll(seq(|h|, i requires 0 <= i < |h| => HistoricStandard(h[i]).GetOr(h[i])), "Adj Close");
      (forall w :: w in FinalColumns ==> Count(r, w) == 1) ==> IntervalFrame(answer) == Some(Table(FinalColumns, answer.value.rows))
  {
    if answer.Some? {
      HistoricColumnsShape(Level0Header(answer.value));
    }
  }

  /**
   * The returned dictionary has a key for an interval exactly when that
   * interval was asked for and its answer was usable, and holds that answer;
   * a failing interval does not affect the others.
   */
  lemma {:induction false} DownloadDict(outputDir: string, ticker: string, intervals: seq<string>, saveCsv: bool,
                                        fetch: (string, string) -> Option<YfFrame>, disk: Disk)
    ensures var dict := DownloadSpec(outputDir, ticker, intervals, saveCsv, fetch, disk).dict;
      && (forall iv :: iv in dict <==> iv in intervals && IntervalFrame(fetch(ticker, iv)).Some?)
      && (forall iv :: iv in dict ==> dict[iv] == IntervalFrame(fetch(ticker, iv)).value)
  {
    if intervals != [] {
      var init := intervals[..|intervals| - 1];
      DownloadDict(outputDir, ticker, init, saveCsv, fetch, disk);
      assert forall iv :: iv in intervals <==> iv in init || iv == intervals[|intervals| - 1];
    }
  }

  /** Two intervals of one ticker never share a file. */
  lemma FilePathInjective(outputDir: string, ticker: string, a: string, b: string)
    requires FilePath(outputDir, ticker, a) == FilePath(outputDir, ticker, b)
    ensures a == b
  {
    var na, nb := DataFileName(ticker, a), DataFileName(ticker, b);
    assert na[..|ticker|] == ticker && nb[..|ticker|] == ticker;
    assert |na| == |nb|;
    assert na == nb by {
      if na != [] && na[0] == '/' {
        assert nb[0] == '/';
      } else if outputDir == [] || outputDir[|outputDir| - 1] == '/' {
        assert na == FilePath(outputDir, ticker, a)[|outputDir|..];
        assert nb == FilePath(outputDir, ticker, b)[|outputDir|..];
      } else {
        assert na == FilePath(outputDir, ticker, a)[|outputDir| + 1..];
        assert nb == FilePath(outputDir, ticker, b)[|outputDir| + 1..];
      }
    }
    assert a == na[|ticker| + 1..|na| - 4];
    assert b == nb[|ticker| + 1..|nb| - 4];
  }

  /**
   * With `saveCsv`, the file of every interval in the dictionary holds that
   * interval's frame, and every path that is not the file of an interval
   * keeps its state; without it, nothing is written.
   */
  lemma {:induction false} DownloadFiles(outputDir: string, ticker: string, intervals: seq<string>, saveCsv: bool,
                                         fetch: (string, string) -> Option<YfFrame>, disk: Disk)
    ensures var r := DownloadSpec(outputDir, ticker, intervals, saveCsv, fetch, disk);
      && (!saveCsv ==> r.disk == disk)
      && (saveCsv ==> forall iv :: iv in r.dict ==>
            FilePath(outputDir, ticker, iv) in r.disk && r.disk[FilePath(outputDir, ticker, iv)] == Readable(r.dict[iv]))
      && (forall p :: (forall iv :: iv in intervals ==> p != FilePath(outputDir, ticker, iv)) ==>
            (p in r.disk <==> p in disk) && (p in disk ==> r.disk[p] == disk[p]))
  {
    if intervals != [] {
      var init := intervals[..|intervals| - 1];
      var last := intervals[|intervals| - 1];
      DownloadFiles(outputDir, ticker, init, saveCsv, fetch, disk);
      assert forall iv :: iv in init ==> iv in intervals;
      assert last in intervals;
      var before := DownloadSpec(outputDir, ticker, init, saveCsv, fetch, disk);
      var r := DownloadSpec(outputDir, ticker, intervals, saveCsv, fetch, disk);
      if saveCsv && IntervalFrame(fetch(ticker, last)).Some? {
        forall iv | iv in r.dict
          ensures FilePath(outputDir, ticker, iv) in r.disk && r.disk[FilePath(outputDir, ticker, iv)] == Readable(r.dict[iv])
        {
          if iv != last {
            if FilePath(outputDir, ticker, iv) == FilePath(outputDir, ticker, last) {
              FilePathInjective(outputDir, ticker, iv, last);
            }
          }
        }
      }
    }
  }

  /** `split("-")[0]`: the text before the first `-`, or all of it. */
  function BeforeDash(s: string): (r: string)
  {
    if s == [] || s[0] == '-' then [] else [s[0]] + BeforeDash(s[1..])
  }

  /** `str.lower` on one character; only ASCII letters are modelled. */
  function LowerChar(c: char): char
  {
    if 'A' <= c <= 'Z' then (c as int + 32) as char else c
  }

  /** The folder of a ticker: the text before its first `-`, in lower case. */
  function FolderName(ticker: string): (r: string)
  {
    var prefix := BeforeDash(ticker);
    seq(|prefix|, i requires 0 <= i < |prefix| => LowerChar(prefix[i]))
  }

  /** The text before the first dash is a prefix without a dash, followed by a dash or the end. */
  lemma {:induction false} BeforeDashSpec(s: string)
    ensures var r := BeforeDash(s);
      && |r| <= |s| && r == s[..|r|] && '-' !in r
      && (|r| < |s| ==> s[|r|] == '-')
  {
    if s != [] && s[0] != '-' {
      BeforeDashSpec(s[1..]);
    }
  }

  /**
   * The folder name is the ticker up to its first `-`, character for
   * character in lower case; it holds no `-` and no capital letter.
   */
  lemma FolderNameSpec(ticker: string)
    ensures var r := FolderName(ticker);
      && |r| <= |ticker|
      && (|r| < |ticker| ==> ticker[|r|] == '-')
      && (forall i :: 0 <= i < |r| ==> ticker[i] != '-' && r[i] == LowerChar(ticker[i]))
      && (forall i :: 0 <= i < |r| ==> r[i] != '-' && !('A' <= r[i] <= 'Z'))
  {
    BeforeDashSpec(ticker);
    var prefix := BeforeDash(ticker);
    assert forall i :: 0 <= i < |prefix| ==> prefix[i] == ticker[i] && prefix[i] in prefix;
  }

  /** The intervals the script asks for. */
  const HistoricIntervals: seq<string> := ["1d", "1wk", "1mo"]

  /** The ticker loop of the script, as a value: each ticker is saved in its own folder. */
  function RunTickers(tickers: seq<string>, fetch: (string, string) -> Option<YfFrame>, disk: Disk): Disk
  {
    if tickers == [] then disk
    else
      var t := tickers[|tickers| - 1];
      DownloadSpec(FolderName(t), t, HistoricIntervals, true, fetch, RunTickers(tickers[..|tickers| - 1], fetch, disk)).disk
  }

  /** The script: every ticker of the list is downloaded into the folder named after it. */
  method UpdateHistoric(tickers: seq<string>, fetch: (string, string) -> Option<YfFrame>, disk: Disk) returns (d: Disk)
    ensures d == RunTickers(tickers, fetch, disk)
  {
    d := disk;
    var i := 0;
    while i < |tickers|
      invariant 0 <= i <= |tickers|
      invariant d == RunTickers(tickers[..i], fetch, disk)
    {
      var ticker := tickers[i];
      assert tickers[..i + 1][..i] == tickers[..i];
      var downloader := new HistoricDataDownloader(ticker, FolderName(ticker));
      var r := downloader.Download(HistoricIntervals, true, fetch, d);
      d := r.disk;
      i := i + 1;
    }
    assert tickers[..i] == tickers;
  }
}
