/**
 * What the stocks and forex scripts do with one answer of
 * `yf.Ticker(symbol).history(interval, period)` before writing it: the
 * index becomes the first column and a `Datetime` column is renamed `Date`.
 * Files on disk are a map from path to their state; a path that is not in
 * the map does not exist.
 */
module TickerHistory {
  import opened Common
  import opened Rows
  import opened Tables
  import opened Tickers

  /** One answer: the name of its time index, its columns, and its rows keyed by the index. */
  datatype History = History(index: string, columns: seq<string>, rows: seq<Row>)

  /** `data.empty`: no rows or no columns. */
  predicate IsEmpty(h: History)
  {
    h.rows == [] || h.columns == []
  }

  /** `rename(columns={"Datetime": "Date"})`: every `Datetime` column becomes `Date`. */
  function RenameDatetime(header: seq<string>): (r: seq<string>)
  {
    seq(|header|, i requires 0 <= i < |header| => if header[i] == "Datetime" then "Date" else header[i])
  }

  /**
   * After the renaming there is no `Datetime` column, every other column
   * keeps its name and place, and there is a `Date` column exactly when
   * there was a `Date` or a `Datetime` one.
   */
  lemma RenameDatetimeSpec(header: seq<string>)
    ensures var r := RenameDatetime(header);
      && |r| == |header|
      && "Datetime" !in r
      && (forall i :: 0 <= i < |header| && header[i] != "Datetime" ==> r[i] == header[i])
      && ("Date" in r <==> "Date" in header || "Datetime" in header)
  {
    var r := RenameDatetime(header);
    if "Datetime" in header {
      var i :| 0 <= i < |header| && header[i] == "Datetime";
      assert r[i] == "Date";
    }
    if "Date" in header {
      var i :| 0 <= i < |header| && header[i] == "Date";
      assert r[i] == "Date";
    }
  }

  /** The downloaded frame after `reset_index` and the renaming. */
  function Fresh(h: History): (t: Table)
    ensures t.rows == h.rows && |t.header| == 1 + |h.columns|
  {
    Table(RenameDatetime([h.index] + h.columns), h.rows)
  }

  /** The files on disk, by path. */
  type Disk = map<string, FileState>

  /** `os.path.exists`. */
  predicate Exists(disk: Disk, path: string)
  {
    path in disk && !disk[path].Missing?
  }

  /** `os.path.join(os.getcwd(), ticker, f"{ticker}_{interval}.csv")`. */
  function OutputPath(cwd: string, ticker: string, interval: string): string
  {
    JoinPath(JoinPath(cwd, ticker), DataFileName(ticker, interval))
  }

  /** Where the answer is skipped: the request raised, or came back empty. */
  predicate Skipped(answer: Option<History>)
  {
    answer.None? || IsEmpty(answer.value)
  }

  /** The provider, asked for a symbol, an interval and a period; `None` where the call raises. */
  type Provider = (string, string, string) -> Option<History>

  /** The answer for one interval, with the period of the table. */
  function Ask(history: Provider, symbol: string, interval: string): Option<History>
  {
    history(symbol, interval, PeriodFor(interval))
  }
}
