/**
 * The Binance downloader: interval table, naming of the kline columns, the
 * search for the first available candle (a 30-day forward scan from
 * 2017-01-01 followed by a bisection) and `download_interval`, which
 * resumes after the last saved candle, fetches day-chunks and merges them
 * behind the saved file.
 */
module Binance {
  import opened Common
  import opened Rows
  import opened Tables
  import opened Windowing

  /** `binance_interval_map`: the project's interval names and the client's. */
  const IntervalMap: map<string, string> := map[
    "1m" := "1m", "5m" := "5m", "15m" := "15m", "30m" := "30m", "1h" := "1h",
    "1d" := "1d", "1wk" := "1w", "1mo" := "1M"]

  const IntradayIntervals: set<string> := {"1m", "5m", "15m", "30m", "1h"}
  const HistoricalIntervals: set<string> := {"1d", "1wk", "1mo"}

  /**
   * Every mapped interval is intraday or historical and none is both, so the
   * "not recognised" branch of `download_interval` is unreachable; an
   * interval outside the map is neither.
   */
  lemma IntervalClassification(interval: string)
    ensures interval in IntervalMap <==> interval in IntradayIntervals || interval in HistoricalIntervals
    ensures !(interval in IntradayIntervals && interval in HistoricalIntervals)
  {
  }

  /** The names `process_klines` gives the twelve fields of a kline, in order. */
  const KlineColumns: seq<string> := [
    "open_time", "open", "high", "low", "close", "volume",
    "close_time", "quote_asset_volume", "num_trades",
    "taker_buy_base_vol", "taker_buy_quote_vol", "ignore"]

  /** A kline as the client returns it: its open time in milliseconds, then its other fields. */
  datatype Kline = Kline(openTime: int, rest: seq<string>)

  /** The column count of `pd.DataFrame(klines)`: the longest kline. */
  function KlineWidth(ks: seq<Kline>): (w: nat)
    ensures forall k :: k in ks ==> 1 + |k.rest| <= w
    ensures ks != [] ==> exists k :: k in ks && 1 + |k.rest| == w
  {
    if ks == [] then 0
    else
      var w := KlineWidth(ks[1..]);
      assert forall k :: k in ks ==> k == ks[0] || k in ks[1..];
      if 1 + |ks[0].rest| >= w then 1 + |ks[0].rest| else w
  }

  /** A shorter kline is padded with missing cells, written as empty text. */
  function Pad(s: seq<string>, n: nat): (r: seq<string>)
    ensures |s| <= n ==> |r| == n && r[..|s|] == s
    ensures |s| <= n ==> forall j :: |s| <= j < n ==> r[j] == ""
    ensures |s| > n ==> r == s
    decreases n - |s|
  {
    if |s| < n then
      var r := Pad(s + [""], n);
      assert (s + [""])[..|s|] == s;
      assert r[..|s|] == r[..|s| + 1][..|s|];
      r
    else s
  }

  /**
   * The open time as `process_klines` writes it, `%Y-%m-%d %H:%M:%S`: the
   * milliseconds are cut off.
   */
  function SecondFloor(t: int): (s: int)
    ensures s <= t < s + SECOND_MS && s % SECOND_MS == 0
  {
    t - t % SECOND_MS
  }

  /**
   * The fields after the open time as `process_klines` leaves them: padded
   * to eleven, with `close_time` (the sixth of them) rendered by `stamp`,
   * which stands for `pd.to_datetime(..., unit='ms')` formatted as
   * `%Y-%m-%d %H:%M:%S`.
   */
  function KlineCells(rest: seq<string>, stamp: string -> string): seq<string>
    requires |rest| <= 11
  {
    var p := Pad(rest, 11);
    p[5 := stamp(p[5])]
  }

  /**
   * `pd.DataFrame(klines)` then `process_klines`. Assigning the twelve names
   * raises unless the frame has exactly twelve columns.
   */
  function ProcessKlines(ks: seq<Kline>, stamp: string -> string): Option<Table>
  {
    if KlineWidth(ks) == |KlineColumns| then
      Some(Table(KlineColumns, seq(|ks|, i requires 0 <= i < |ks| =>
        assert ks[i] in ks;
        Row(SecondFloor(ks[i].openTime), KlineCells(ks[i].rest, stamp)))))
    else None
  }

  /**
   * `process_klines` names exactly the twelve columns, in order, and keeps
   * one row per kline: its open time cut to the second, its `close_time`
   * rendered by `stamp` and every other field unchanged, missing fields
   * read as empty. It fails exactly when some kline is longer than twelve
   * fields or none reaches twelve.
   */
  lemma ProcessKlinesSpec(ks: seq<Kline>, stamp: string -> string)
    ensures ProcessKlines(ks, stamp).Some? <==>
      (forall k :: k in ks ==> |k.rest| <= 11) && (exists k :: k in ks && |k.rest| == 11)
    ensures ProcessKlines(ks, stamp).Some? ==>
      var t := ProcessKlines(ks, stamp).value;
      && t.header == KlineColumns
      && |t.rows| == |ks|
      && forall i :: 0 <= i < |ks| ==>
           && t.rows[i].time == SecondFloor(ks[i].openTime)
           && |t.rows[i].values| == 11
           && t.rows[i].values[5] == stamp(if 5 < |ks[i].rest| then ks[i].rest[5] else "")
           && forall j :: 0 <= j < 11 && j != 5 ==>
                t.rows[i].values[j] == if j < |ks[i].rest| then ks[i].rest[j] else ""
  {
    if ProcessKlines(ks, stamp).Some? {
      var t := ProcessKlines(ks, stamp).value;
      forall i, j | 0 <= i < |ks| && 0 <= j < 11
        ensures j != 5 ==> t.rows[i].values[j] == if j < |ks[i].rest| then ks[i].rest[j] else ""
        ensures j == 5 ==> t.rows[i].values[5] == stamp(if 5 < |ks[i].rest| then ks[i].rest[5] else "")
      {
        assert ks[i] in ks;
        var p := Pad(ks[i].rest, 11);
        if j < |ks[i].rest| {
          assert p[j] == p[..|ks[i].rest|][j];
        }
      }
    }
  }

  // ---------------------------------------------------------------------
  // The first available candle
  // ---------------------------------------------------------------------

  /** 2017-01-01 00:00, in milliseconds: day 17167 of the Unix clock. */
  const Epoch: int := 1_483_228_800_000

  /** The k-th probe of the forward scan: 2017-01-01 plus 30k days. */
  function ScanPoint(k: nat): int
  {
    Epoch + k * 2_592_000_000
  }

  /**
   * A probe asks for at most one candle in the day named by the request.
   * `probe(d)` is the open time of that candle, for the day starting at `d`,
   * or nothing when the request raised or returned no candle.
   */
  predicate HasData(probe: int -> Option<int>, t: int)
  {
    probe(DayFloor(t)).Some?
  }

  /** Once a day has data, every later day has data. */
  ghost predicate Monotone(probe: int -> Option<int>)
  {
    forall t1, t2 :: t1 <= t2 && HasData(probe, t1) ==> HasData(probe, t2)
  }

  /** The candle found for a day does not open before that day. */
  ghost predicate Sane(probe: int -> Option<int>)
  {
    forall d :: probe(d).Some? ==> probe(d).value >= d
  }

  datatype ScanResult = NoData | Found(lastNoData: Option<int>, firstWithData: int)

  /** The forward scan from the k-th probe on. */
  function ScanFrom(k: nat, now: int, probe: int -> Option<int>): ScanResult
    decreases now - ScanPoint(k)
  {
    if ScanPoint(k) < now then
      match probe(DayFloor(ScanPoint(k)))
      case Some(t) => Found(if k == 0 then None else Some(ScanPoint(k - 1)), t)
      case None => ScanFrom(k + 1, now, probe)
    else NoData
  }

  /** The scan finds nothing exactly when no probe before `now` has data. */
  lemma {:induction false} ScanNoData(k: nat, now: int, probe: int -> Option<int>)
    ensures ScanFrom(k, now, probe).NoData? <==> forall j: nat :: k <= j && ScanPoint(j) < now ==> !HasData(probe, ScanPoint(j))
    decreases now - ScanPoint(k)
  {
    if ScanPoint(k) < now {
      if probe(DayFloor(ScanPoint(k))).None? {
        ScanNoData(k + 1, now, probe);
      }
    } else {
      forall j: nat | k <= j ensures ScanPoint(j) >= now {
      }
    }
  }

  /**
   * When the scan finds data it stopped at the first probe that has data,
   * before `now`, and the last empty probe is the one before it.
   */
  lemma ScanFound(k: nat, now: int, probe: int -> Option<int>)
    requires ScanFrom(k, now, probe).Found?
    ensures exists j: nat :: StopsAt(k, now, probe, j)
  {
    ScanFoundAt(k, now, probe);
    assert StopsAt(k, now, probe, FoundIndex(k, now, probe));
  }

  /**
   * The scan from `k` stopped at probe `j`: the first from `k` on that has
   * data, before `now`, its answer is the one returned, and the last empty
   * probe reported is the one before it.
   */
  predicate StopsAt(k: nat, now: int, probe: int -> Option<int>, j: nat)
    requires ScanFrom(k, now, probe).Found?
  {
    && k <= j && ScanPoint(j) < now
    && probe(DayFloor(ScanPoint(j))) == Some(ScanFrom(k, now, probe).firstWithData)
    && (forall i: nat :: k <= i < j ==> !HasData(probe, ScanPoint(i)))
    && ScanFrom(k, now, probe).lastNoData == (if j == 0 then None else Some(ScanPoint(j - 1)))
  }

  /** The index of the probe the scan from `k` stops at. */
  function FoundIndex(k: nat, now: int, probe: int -> Option<int>): (j: nat)
    requires ScanFrom(k, now, probe).Found?
    ensures k <= j
    decreases now - ScanPoint(k)
  {
    if probe(DayFloor(ScanPoint(k))).Some? then k else FoundIndex(k + 1, now, probe)
  }

  /** `ScanFound` with its witness named. */
  lemma {:induction false} ScanFoundAt(k: nat, now: int, probe: int -> Option<int>)
    requires ScanFrom(k, now, probe).Found?
    ensures var j := FoundIndex(k, now, probe);
      && ScanPoint(j) < now
      && probe(DayFloor(ScanPoint(j))) == Some(ScanFrom(k, now, probe).firstWithData)
      && (forall i: nat :: k <= i < j ==> !HasData(probe, ScanPoint(i)))
      && ScanFrom(k, now, probe).lastNoData == (if j == 0 then None else Some(ScanPoint(j - 1)))
    decreases now - ScanPoint(k)
  {
    if probe(DayFloor(ScanPoint(k))).None? {
      ScanFoundAt(k + 1, now, probe);
      var j := FoundIndex(k + 1, now, probe);
      forall i: nat | k <= i < j ensures !HasData(probe, ScanPoint(i)) {
        if i > k { assert k + 1 <= i < j; }
      }
    }
  }

  /** The forward loop of `get_first_available_date`. */
  method CoarseScan(now: int, probe: int -> Option<int>) returns (r: ScanResult)
    ensures r == ScanFrom(0, now, probe)
  {
    var current := Epoch;
    var k: nat := 0;
    var lastNoData: Option<int> := None;
    while current < now
      invariant current == ScanPoint(k)
      invariant lastNoData == if k == 0 then None else Some(ScanPoint(k - 1))
      invariant ScanFrom(k, now, probe) == ScanFrom(0, now, probe)
      decreases now - current
    {
      var klines := probe(DayFloor(current));
      if klines.Some? {
        return Found(lastNoData, klines.value);
      }
      lastNoData := Some(current);
      current := current + 30 * DAY_MS;
      k := k + 1;
    }
    r := NoData;
  }

  /** The bisection between `low` and `high`, as a value. */
  function BisectFrom(low: int, high: int, probe: int -> Option<int>): int
    decreases high - low
  {
    if low < high then
      var mid := low + (high - low) / 2;
      if HasData(probe, mid) then BisectFrom(low, mid, probe) else BisectFrom(mid + 1, high, probe)
    else high
  }

  /**
   * The bisection returns a point of `[low, high]` that is `high` itself or
   * has data; for a monotone probe no earlier point of the range has data,
   * so it is the least point of the range with data.
   */
  lemma {:induction false} BisectSpec(low: int, high: int, probe: int -> Option<int>)
    requires low <= high
    ensures low <= BisectFrom(low, high, probe) <= high
    ensures BisectFrom(low, high, probe) == high || HasData(probe, BisectFrom(low, high, probe))
    ensures Monotone(probe) ==> forall t :: low <= t < BisectFrom(low, high, probe) ==> !HasData(probe, t)
    decreases high - low
  {
    if low < high {
      var mid := low + (high - low) / 2;
      if HasData(probe, mid) {
        BisectSpec(low, mid, probe);
      } else {
        BisectSpec(mid + 1, high, probe);
        if Monotone(probe) {
          forall t | low <= t <= mid ensures !HasData(probe, t) {
          }
        }
      }
    }
  }

  /**
   * The bisection loop of `get_first_available_date`: `low <= high`
   * throughout, `high` is the first candle found or a point with data, and
   * the range shrinks at every step.
   */
  method Bisect(low0: int, high0: int, probe: int -> Option<int>) returns (r: int)
    requires low0 <= high0
    ensures r == BisectFrom(low0, high0, probe)
    ensures low0 <= r <= high0 && (r == high0 || HasData(probe, r))
  {
    var low, high := low0, high0;
    while low < high
      invariant low0 <= low <= high <= high0
      invariant high == high0 || HasData(probe, high)
      invariant BisectFrom(low, high, probe) == BisectFrom(low0, high0, probe)
      decreases high - low
    {
      var mid := low + (high - low) / 2;
      if probe(DayFloor(mid)).Some? {
        high := mid;
      } else {
        low := mid + 1;
      }
    }
    r := high;
  }

  datatype BinanceError = UnsupportedInterval | NoDataFound

  /** Where the bisection starts: the day after the last empty probe, or 2017-01-01. */
  function BisectLow(lastNoData: Option<int>): int
  {
    match lastNoData
    case None => Epoch
    case Some(d) => d + DAY_MS
  }

  /** `get_first_available_date`, as a value. */
  function FirstAvailableDate(now: int, probe: int -> Option<int>): Result<int, BinanceError>
  {
    match ScanFrom(0, now, probe)
    case NoData => Err(NoDataFound)
    case Found(lastNoData, first) => Ok(BisectFrom(BisectLow(lastNoData), first, probe))
  }

  /**
   * `get_first_available_date`: the forward scan, an exception when it finds
   * nothing, then the bisection. The bisection is entered only when the
   * first candle found is not before its lower end, which holds for a sane
   * provider; otherwise the loop is skipped and that candle is returned.
   */
  method GetFirstAvailableDate(now: int, probe: int -> Option<int>) returns (r: Result<int, BinanceError>)
    ensures r == FirstAvailableDate(now, probe)
  {
    var scan := CoarseScan(now, probe);
    if scan.NoData? {
      return Err(NoDataFound);
    }
    var low := BisectLow(scan.lastNoData);
    var high := scan.firstWithData;
    if low < high {
      high := Bisect(low, high, probe);
    }
    r := Ok(high);
  }

  lemma DayFloorOfDay(d: int, u: int)
    requires d % DAY_MS == 0 && d <= u < d + DAY_MS
    ensures DayFloor(u) == d
  {
    var f := DayFloor(u);
    assert (f - d) % DAY_MS == 0;
  }

  lemma ScanPointAligned(k: nat)
    ensures DayFloor(ScanPoint(k)) == ScanPoint(k)
  {
    DayFloorOfDay(ScanPoint(k), ScanPoint(k));
  }

  /** The search fails exactly when no probe before `now` has data. */
  lemma FirstAvailableDateFails(now: int, probe: int -> Option<int>)
    ensures FirstAvailableDate(now, probe).Err? <==> forall k: nat :: ScanPoint(k) < now ==> !HasData(probe, ScanPoint(k))
  {
    ScanNoData(0, now, probe);
  }

  /**
   * Below the lower end of the bisection nothing has data when the probes
   * before the j-th are empty: the day after the last empty probe is the
   * first one the scan leaves open.
   */
  lemma NoDataBelowBisection(probe: int -> Option<int>, j: nat)
    requires Monotone(probe)
    requires forall i: nat :: i < j ==> !HasData(probe, ScanPoint(i))
    ensures forall u :: Epoch <= u < BisectLow(if j == 0 then None else Some(ScanPoint(j - 1))) ==> !HasData(probe, u)
  {
    if j > 0 {
      var p := ScanPoint(j - 1);
      assert !HasData(probe, p);
      ScanPointAligned(j - 1);
      forall u | Epoch <= u < p + DAY_MS ensures !HasData(probe, u) {
        if p < u {
          DayFloorOfDay(p, u);
        }
      }
    }
  }

  /**
   * For a monotone, sane provider the search returns the first instant from
   * 2017-01-01 on whose day has data.
   */
  lemma FirstAvailableDateIsFirst(now: int, probe: int -> Option<int>)
    requires Monotone(probe) && Sane(probe) && FirstAvailableDate(now, probe).Ok?
    ensures var t := FirstAvailableDate(now, probe).value;
      && Epoch <= t
      && HasData(probe, t)
      && forall u :: Epoch <= u < t ==> !HasData(probe, u)
  {
    var s := ScanFrom(0, now, probe);
    ScanFoundAt(0, now, probe);
    var j := FoundIndex(0, now, probe);
    var low := BisectLow(s.lastNoData);
    var first := s.firstWithData;
    ScanPointAligned(j);
    assert first >= ScanPoint(j);
    assert HasData(probe, ScanPoint(j));
    assert HasData(probe, first);
    assert low <= ScanPoint(j);
    BisectSpec(low, first, probe);
    NoDataBelowBisection(probe, j);
  }

  // ---------------------------------------------------------------------
  // download_interval
  // ---------------------------------------------------------------------

  /**
   * Where an intraday download resumes: one second after the `open_time` of
   * the last saved row. Nothing when there is no file, it does not load, it
   * has no rows or no `open_time` column; the first available candle is
   * searched for then.
   */
  function ResumeStart(file: FileState): Option<int>
  {
    match file
    case Readable(t) =>
      if t.rows != [] && "open_time" in t.header then Some(t.rows[|t.rows| - 1].time + SECOND_MS) else None
    case _ => None
  }

  /** Resuming from a sorted file starts strictly after every saved candle. */
  lemma ResumeAfterSaved(t: Table)
    requires ResumeStart(Readable(t)).Some? && Ascending(t.rows)
    ensures forall x :: x in t.rows ==> x.time < ResumeStart(Readable(t)).value
  {
    forall x | x in t.rows ensures x.time < ResumeStart(Readable(t)).value {
      var i :| 0 <= i < |t.rows| && t.rows[i] == x;
      if i < |t.rows| - 1 {
        assert t.rows[i].time < t.rows[|t.rows| - 1].time;
      }
    }
  }

  /** `pd.DataFrame(columns=column_names)`. */
  const EmptyKlines: Table := Table(KlineColumns, [])

  /** One chunk request: the client sees the day strings of the window bounds. */
  function ChunkRequest(fetch: (int, int) -> Option<seq<Kline>>, stamp: string -> string): Window -> Option<Table>
  {
    (w: Window) =>
      match fetch(DayFloor(w.start), DayFloor(w.end))
      case Some(ks) => if ks != [] then ProcessKlines(ks, stamp) else None
      case None => None
  }

  /** The chunk loop's result: the concatenation, keep-first on `open_time`, sorted. */
  function Downloaded(frames: seq<Table>): Table
  {
    if frames != [] then DedupSortFirst(ConcatAll(frames), "open_time") else EmptyKlines
  }

  predicate IsEmpty(t: Table)
  {
    t.rows == [] || t.header == []
  }

  /**
   * Merging with a saved file: both non-empty are concatenated, saved rows
   * first; a non-empty file alone replaces the result; then keep-first on
   * `open_time` and sort. An unreadable file changes nothing; a file without
   * `open_time` makes the de-duplication raise after the concatenation, so
   * the concatenation stays as it is.
   */
  function MergeSaved(file: FileState, result: Table): Table
  {
    match file
    case Readable(e) =>
      var combined := if !IsEmpty(e) && !IsEmpty(result) then Concat(e, result)
                      else if !IsEmpty(e) then e
                      else result;
      DedupSortFirst(combined, "open_time")
    case _ => result
  }

  datatype Outcome = Outcome(result: Table, written: Option<Table>)

  /** The single request of a historical interval, from 2017-01-01 to today. */
  function HistoricalOutcome(saveCsv: bool, answer: Option<seq<Kline>>, stamp: string -> string): Outcome
  {
    match answer
    case Some(ks) =>
      if ks == [] then Outcome(EmptyKlines, None)
      else
        (match ProcessKlines(ks, stamp)
         case Some(t) => Outcome(t, if saveCsv then Some(t) else None)
         case None => Outcome(EmptyKlines, None))
    case None => Outcome(EmptyKlines, None)
  }

  function ChunkMs(chunkDays: Option<int>): int
  {
    chunkDays.GetOr(15) * DAY_MS
  }

  /** Where an intraday download starts: after the last saved candle, else at the first available one. */
  function StartOf(file: FileState, now: int, probe: int -> Option<int>): Result<int, BinanceError>
  {
    match ResumeStart(file)
    case Some(s) => Ok(s)
    case None => FirstAvailableDate(now, probe)
  }

  /** The processed chunks of an intraday download from `start` to `now`, in window order. */
  function ChunkFrames(start: int, now: int, chunkDays: Option<int>,
                       fetch: (int, int) -> Option<seq<Kline>>, stamp: string -> string): seq<Table>
    requires ChunkMs(chunkDays) > 0
  {
    Successes(Plan(start, now, ChunkMs(chunkDays)), ChunkRequest(fetch, stamp))
  }

  /** `download_interval`, as a value. */
  function DownloadIntervalSpec(interval: string, saveCsv: bool, chunkDays: Option<int>, now: int,
                                probe: int -> Option<int>, fetch: (int, int) -> Option<seq<Kline>>,
                                stamp: string -> string, file: FileState): Result<Outcome, BinanceError>
    requires interval in IntradayIntervals ==> ChunkMs(chunkDays) > 0
  {
    if interval !in IntervalMap then Err(UnsupportedInterval)
    else if interval in IntradayIntervals then
      var start := StartOf(file, now, probe);
      if start.Err? then Err(start.error)
      else
        var result := MergeSaved(file, Downloaded(ChunkFrames(start.value, now, chunkDays, fetch, stamp)));
        Ok(Outcome(result, if saveCsv then Some(result) else None))
    else
      Ok(HistoricalOutcome(saveCsv, fetch(Epoch, DayFloor(now)), stamp))
  }

  /**
   * `download_interval`. `probe` answers the one-candle requests of the
   * search, `fetch(start, end)` the range requests, `stamp` renders a
   * `close_time` cell, `file` is the output file before the call. An
   * intraday download needs a positive chunk to advance.
   */
  method DownloadInterval(interval: string, saveCsv: bool, chunkDays: Option<int>, now: int,
                          probe: int -> Option<int>, fetch: (int, int) -> Option<seq<Kline>>,
                          stamp: string -> string, file: FileState)
    returns (r: Result<Outcome, BinanceError>)
    requires interval in IntradayIntervals ==> ChunkMs(chunkDays) > 0
    ensures r == DownloadIntervalSpec(interval, saveCsv, chunkDays, now, probe, fetch, stamp, file)
  {
    if interval !in IntervalMap {
      return Err(UnsupportedInterval);
    }
    if interval in IntradayIntervals {
      var start: int;
      var resume := ResumeStart(file);
      if resume.Some? {
        start := resume.value;
      } else {
        var first := GetFirstAvailableDate(now, probe);
        if first.Err? {
          return Err(first.error);
        }
        start := first.value;
      }
      var ws, frames := FetchAll(start, now, ChunkMs(chunkDays), ChunkRequest(fetch, stamp));
      var result := Downloaded(frames);
      result := MergeSaved(file, result);
      r := Ok(Outcome(result, if saveCsv then Some(result) else None));
    } else {
      IntervalClassification(interval);
      assert interval in HistoricalIntervals;
      r := Ok(HistoricalOutcome(saveCsv, fetch(Epoch, DayFloor(now)), stamp));
    }
  }

  /**
   * The merge rules: with nothing downloaded a non-empty file survives alone,
   * de-duplicated and sorted; with neither side holding rows the result is
   * the empty frame with the twelve kline columns.
   */
  lemma MergeSavedEmptyCases(e: Table)
    ensures !IsEmpty(e) ==> MergeSaved(Readable(e), EmptyKlines) == DedupSortFirst(e, "open_time")
    ensures e.rows == [] ==> MergeSaved(Readable(e), EmptyKlines) == EmptyKlines
  {
    if e.rows == [] {
      assert DedupKeepFirst([]) == [];
      assert SortByTime([]) == [];
    }
  }

  /**
   * When the file holds rows and has an `open_time` column and the download
   * `d` holds the batch's rows, keep-first and sorted, the merged rows are
   * ascending with unique open times and cover both sides' open times.
   */
  lemma MergeSavedSorted(e: Table, d: Table, batch: seq<Row>)
    requires e.rows != [] && "open_time" in e.header
    requires d.rows == SortByTime(DedupKeepFirst(batch)) && d.rows != [] && d.header != []
    ensures Ascending(MergeSaved(Readable(e), d).rows)
    ensures Keys(MergeSaved(Readable(e), d).rows) == Keys(e.rows) + Keys(batch)
  {
    MergedRows(e, d);
    MergeKeepFirstSpec(e.rows, d.rows);
  }

  /**
   * Precedence in that merge: on an open time present in the file the file's
   * first row wins; otherwise the batch's first row is kept.
   */
  lemma MergeSavedPrecedence(e: Table, d: Table, batch: seq<Row>, x: Row)
    requires e.rows != [] && "open_time" in e.header
    requires d.rows == SortByTime(DedupKeepFirst(batch)) && d.rows != [] && d.header != []
    requires x in MergeSaved(Readable(e), d).rows
    ensures x.time in Keys(e.rows) ==> x == FirstWith(e.rows, x.time)
    ensures x.time !in Keys(e.rows) ==> x.time in Keys(batch) && x == FirstWith(batch, x.time)
  {
    MergedRows(e, d);
    CleanedBatchPrecedence(e.rows, batch, MergeSaved(Readable(e), d).rows, x);
  }

  /** `MergeOfCleanedBatch`, split into the file's case and the batch's case. */
  lemma CleanedBatchPrecedence(existing: seq<Row>, batch: seq<Row>, merged: seq<Row>, x: Row)
    requires merged == MergeKeepFirst(existing, SortByTime(DedupKeepFirst(batch))) && x in merged
    ensures x.time in Keys(existing) ==> x == FirstWith(existing, x.time)
    ensures x.time !in Keys(existing) ==> x.time in Keys(batch) && x == FirstWith(batch, x.time)
  {
    MergeOfCleanedBatch(existing, batch, x);
  }

  /** Both sides non-empty and a key column on the file's side: the merge is keep-first over the file's rows, then the download's. */
  lemma MergedRows(e: Table, d: Table)
    requires e.rows != [] && "open_time" in e.header && d.rows != [] && d.header != []
    ensures MergeSaved(Readable(e), d).rows == MergeKeepFirst(e.rows, d.rows)
  {
    var c := Concat(e, d);
    assert !IsEmpty(e) && !IsEmpty(d);
    assert "open_time" in c.header;
    assert MergeSaved(Readable(e), d) == DedupSortFirst(c, "open_time");
  }

  lemma DownloadedKlines(frames: seq<Table>)
    requires forall i :: 0 <= i < |frames| ==> frames[i].header == KlineColumns
    requires frames != []
    ensures Downloaded(frames).rows == SortByTime(DedupKeepFirst(AllRows(frames)))
    ensures "open_time" in Downloaded(frames).header
  {
    ConcatAllRows(frames);
    assert KlineColumns[0] == "open_time";
    assert "open_time" in frames[0].header;
    assert "open_time" in ConcatAll(frames).header;
  }

  /** Every chunk a request returns is a processed kline frame, with the twelve kline columns. */
  lemma {:induction false} ChunkHeaders(ws: seq<Window>, fetch: (int, int) -> Option<seq<Kline>>, stamp: string -> string)
    ensures forall t :: t in Successes(ws, ChunkRequest(fetch, stamp)) ==> t.header == KlineColumns
  {
    if ws != [] {
      ChunkHeaders(ws[..|ws| - 1], fetch, stamp);
      var v := ChunkRequest(fetch, stamp)(ws[|ws| - 1]);
      if v.Some? {
        var ks := fetch(DayFloor(ws[|ws| - 1].start), DayFloor(ws[|ws| - 1].end)).value;
        assert v == ProcessKlines(ks, stamp);
      }
    }
  }

  /**
   * The chunk loop's result for any chunks with the kline columns: it keeps
   * `open_time`, and its rows are the chunks' rows de-duplicated keep-first
   * and sorted (none when no chunk came back).
   */
  lemma DownloadedRows(frames: seq<Table>)
    requires forall t :: t in frames ==> t.header == KlineColumns
    ensures "open_time" in Downloaded(frames).header
    ensures Downloaded(frames).rows == SortByTime(DedupKeepFirst(AllRows(frames)))
  {
    assert KlineColumns[0] == "open_time";
    if frames == [] {
      assert DedupKeepFirst([]) == [];
      assert SortByTime([]) == [];
    } else {
      assert forall i :: 0 <= i < |frames| ==> frames[i] in frames;
      DownloadedKlines(frames);
    }
  }

  /** The rows a saved file brings to the merge: none unless it loads and holds rows. */
  function SavedRows(file: FileState): seq<Row>
  {
    match file
    case Readable(e) => if IsEmpty(e) then [] else e.rows
    case _ => []
  }

  /** A saved file that loads with rows has the `open_time` column the merge de-duplicates on. */
  predicate Keyed(file: FileState)
  {
    file.Readable? && !IsEmpty(file.table) ==> "open_time" in file.table.header
  }

  /**
   * What the merge promises for merged rows `r`, a file and the batch the
   * download was made of: open times ascending and unique, covering the
   * file's and the batch's, the file's first row winning a shared open time
   * and the batch's first row kept otherwise.
   */
  predicate MergePromise(file: FileState, r: seq<Row>, batch: seq<Row>, x: Row)
  {
    var saved := SavedRows(file);
    && Ascending(r)
    && Keys(r) == Keys(saved) + Keys(batch)
    && (x in r && x.time in Keys(saved) ==> x == FirstWith(saved, x.time))
    && (x in r && x.time !in Keys(saved) ==> x.time in Keys(batch) && x == FirstWith(batch, x.time))
  }

  /** Merging any file that keys its rows with a download holding a batch de-duplicated and sorted keeps that promise. */
  lemma MergeSavedSpec(file: FileState, d: Table, batch: seq<Row>, x: Row)
    requires Keyed(file)
    requires "open_time" in d.header && d.rows == SortByTime(DedupKeepFirst(batch))
    ensures MergePromise(file, MergeSaved(file, d).rows, batch, x)
  {
    if file.Readable? && !IsEmpty(file.table) {
      var e := file.table;
      if IsEmpty(d) {
        assert MergeSaved(file, d) == DedupSortFirst(e, "open_time");
        PromiseFileOnly(e, d, batch, x);
      } else {
        PromiseBoth(e, d, batch, x);
      }
    } else {
      if file.Readable? {
        assert MergeSaved(file, d) == DedupSortFirst(d, "open_time");
        KeptSorted(batch, d.rows, x);
        PromiseNoSaved(file, DedupSortFirst(d, "open_time").rows, d.rows, batch, x);
      } else {
        assert MergeSaved(file, d) == d;
        KeptSorted(batch, d.rows, x);
        PromiseNoSaved(file, d.rows, d.rows, batch, x);
      }
    }
  }

  lemma UnionEmpty(a: set<int>, b: set<int>)
    requires b == {}
    ensures a + b == a && b + a == a
  {
  }

  /** Keep-first then sort: ascending, the batch's keys, and each row the first of its key. */
  lemma KeptSorted(batch: seq<Row>, rows: seq<Row>, x: Row)
    requires rows == SortByTime(DedupKeepFirst(batch))
    ensures Ascending(rows) && Keys(rows) == Keys(batch)
    ensures x in rows ==> x.time in Keys(batch) && x == FirstWith(batch, x.time)
  {
    if x in rows {
      assert x in multiset(rows);
      assert x in DedupKeepFirst(batch);
    }
  }

  /** Both sides hold rows: the keep-first merge of the file's rows and the download's. */
  lemma PromiseBoth(e: Table, d: Table, batch: seq<Row>, x: Row)
    requires !IsEmpty(e) && "open_time" in e.header && !IsEmpty(d)
    requires d.rows == SortByTime(DedupKeepFirst(batch))
    ensures MergePromise(Readable(e), MergeSaved(Readable(e), d).rows, batch, x)
  {
    assert SavedRows(Readable(e)) == e.rows;
    MergeSavedSorted(e, d, batch);
    if x in MergeSaved(Readable(e), d).rows {
      MergeSavedPrecedence(e, d, batch, x);
    }
  }

  /** A file with rows and an empty download: the file's rows alone, keep-first and sorted. */
  lemma PromiseFileOnly(e: Table, d: Table, batch: seq<Row>, x: Row)
    requires !IsEmpty(e) && "open_time" in e.header
    requires "open_time" in d.header && d.rows == SortByTime(DedupKeepFirst(batch)) && IsEmpty(d)
    ensures MergePromise(Readable(e), DedupSortFirst(e, "open_time").rows, batch, x)
  {
    assert SavedRows(Readable(e)) == e.rows;
    var r := DedupSortFirst(e, "open_time").rows;
    KeptSorted(e.rows, r, x);
    KeptSorted(batch, d.rows, x);
    assert d.rows == [];
    KeysNil();
    UnionEmpty(Keys(e.rows), Keys(batch));
  }

  /** A file that brings no rows: the merged rows `r` keep the batch's promise, as `rows` does. */
  lemma PromiseNoSaved(file: FileState, r: seq<Row>, rows: seq<Row>, batch: seq<Row>, x: Row)
    requires !(file.Readable? && !IsEmpty(file.table))
    requires Ascending(rows) && Keys(rows) == Keys(batch)
    requires x in rows ==> x.time in Keys(batch) && x == FirstWith(batch, x.time)
    requires r == rows || r == SortByTime(DedupKeepFirst(rows))
    ensures MergePromise(file, r, batch, x)
  {
    assert SavedRows(file) == [];
    KeysNil();
    UnionEmpty(Keys(batch), Keys(SavedRows(file)));
    if r != rows {
      KeptSorted(rows, r, x);
    }
  }

  /**
   * What an intraday `download_interval` returns, end to end: its open times
   * are ascending and unique and cover exactly the saved ones and those of
   * every chunk downloaded from the start it chose; on a shared open time
   * the saved row wins, and any other row is the first one downloaded with
   * its open time. This holds for a missing, unreadable, empty or non-empty
   * file, given that a file with rows has an `open_time` column; the
   * result is written exactly when `save_csv` is set.
   */
  lemma DownloadMerged(interval: string, saveCsv: bool, chunkDays: Option<int>, now: int,
                       probe: int -> Option<int>, fetch: (int, int) -> Option<seq<Kline>>,
                       stamp: string -> string, file: FileState, x: Row)
    requires interval in IntradayIntervals && ChunkMs(chunkDays) > 0 && Keyed(file)
    requires DownloadIntervalSpec(interval, saveCsv, chunkDays, now, probe, fetch, stamp, file).Ok?
    ensures StartOf(file, now, probe).Ok?
    ensures var out := DownloadIntervalSpec(interval, saveCsv, chunkDays, now, probe, fetch, stamp, file).value;
      var got := AllRows(ChunkFrames(StartOf(file, now, probe).value, now, chunkDays, fetch, stamp));
      var saved := SavedRows(file);
      && Ascending(out.result.rows)
      && Keys(out.result.rows) == Keys(saved) + Keys(got)
      && (x in out.result.rows && x.time in Keys(saved) ==> x == FirstWith(saved, x.time))
      && (x in out.result.rows && x.time !in Keys(saved) ==> x.time in Keys(got) && x == FirstWith(got, x.time))
      && out.written == (if saveCsv then Some(out.result) else None)
  {
    IntervalClassification(interval);
    var start := StartOf(file, now, probe).value;
    var frames := ChunkFrames(start, now, chunkDays, fetch, stamp);
    ChunkHeaders(Plan(start, now, ChunkMs(chunkDays)), fetch, stamp);
    DownloadedRows(frames);
    MergeSavedSpec(file, Downloaded(frames), AllRows(frames), x);
  }

  /**
   * An intraday download resumes one second after the last saved candle and
   * its windows then tile `[start, now)`: contiguous, at most `chunk_days`
   * long, the last ending at `now`.
   */
  lemma ResumedWindows(t: Table, chunkDays: Option<int>, now: int)
    requires ChunkMs(chunkDays) > 0 && ResumeStart(Readable(t)).Some?
    ensures var ws := Plan(ResumeStart(Readable(t)).value, now, ChunkMs(chunkDays));
      && (|ws| > 0 ==> ws[0].start == t.rows[|t.rows| - 1].time + SECOND_MS && ws[|ws| - 1].end == now)
      && (forall i :: 0 <= i < |ws| ==> ws[i].start < ws[i].end <= ws[i].start + ChunkMs(chunkDays))
      && (forall i, j :: 0 <= i && j == i + 1 && j < |ws| ==> ws[i].end == ws[j].start)
  {
    PlanShape(ResumeStart(Readable(t)).value, now, ChunkMs(chunkDays));
  }
}
