/**
 * What the chunked yfinance downloaders do with each answer of the provider
 * and with the file already on disk: reset the index, flatten and unify the
 * columns, concatenate, de-duplicate keep-first on `datetime`, sort, and
 * merge behind the existing rows.
 */
module YfFrames {
  import opened Common
  import opened Rows
  import opened Tables
  import opened YfColumns
  import opened Windowing

  /**
   * A frame as `yf.download` returns it: the name of its time index
   * (`Date` or `Datetime`), its columns and its rows keyed by the index.
   */
  datatype YfFrame = YfFrame(index: string, columns: ColumnIndex, rows: seq<Row>)

  /** `df.empty`: no rows or no columns. */
  predicate IsEmpty(f: YfFrame)
  {
    f.rows == [] || Width(f.columns) == 0
  }

  /** `reset_index` followed by `flatten_columns`: the index becomes the first column. */
  function ResetHeader(f: YfFrame): (h: seq<string>)
    ensures |h| == Width(f.columns) + 1 && h[0] == f.index
  {
    [f.index] + Flattened(f.columns)
  }

  /** `unify_columns` on a whole frame; `None` where it raises. */
  function UnifyTable(t: Table): (r: Option<Table>)
    ensures r.Some? ==> r.value.rows == t.rows
  {
    match Unified(t.header)
    case Some(h) => Some(Table(h, t.rows))
    case None => None
  }

  /**
   * One chunk request inside the `try`: nothing when the request raised,
   * came back empty, or its columns could not be unified.
   */
  function ChunkTable(answer: Option<YfFrame>): (r: Option<Table>)
    ensures r.Some? ==> answer.Some? && !IsEmpty(answer.value) && r.value.rows == answer.value.rows
  {
    match answer
    case None => None
    case Some(f) =>
      if IsEmpty(f) then None else UnifyTable(Table(ResetHeader(f), f.rows))
  }

  /** One chunk: the provider is asked for the day strings of the window bounds. */
  function ChunkRequest(fetch: (int, int) -> Option<YfFrame>): Window -> Option<Table>
  {
    (w: Window) => ChunkTable(fetch(DayFloor(w.start), DayFloor(w.end)))
  }

  /** The key column of the unified frames. */
  const Key: string := "datetime"

  /**
   * The result of the chunk loop: an empty frame when no chunk returned data,
   * otherwise the concatenation, de-duplicated keep-first and sorted when
   * it has a `datetime` column.
   */
  function Downloaded(frames: seq<Table>): (t: Table)
  {
    if frames == [] then EmptyTable else DedupSortFirst(ConcatAll(frames), Key)
  }

  /**
   * Merging with a file that exists: its unified rows come first, then the
   * new ones, keep-first on `datetime`, sorted. An unreadable file, or one
   * whose columns cannot be unified, leaves the new result as it is.
   */
  function MergeExisting(file: FileState, result: Table): (t: Table)
  {
    match file
    case Readable(prev) =>
      (match UnifyTable(prev)
       case Some(e) => DedupSortFirst(Concat(e, result), Key)
       case None => result)
    case _ => result
  }

  /**
   * The downloaded rows come out keyed uniquely and ascending whenever the
   * result has a `datetime` column, and they are the raw rows of the chunks
   * with the first occurrence of each timestamp kept.
   */
  lemma DownloadedSpec(frames: seq<Table>)
    ensures frames == [] ==> Downloaded(frames) == EmptyTable
    ensures frames != [] && Key in Downloaded(frames).header ==>
      && Ascending(Downloaded(frames).rows)
      && Keys(Downloaded(frames).rows) == Keys(AllRows(frames))
      && Downloaded(frames).rows == SortByTime(DedupKeepFirst(AllRows(frames)))
    ensures frames != [] && Key !in Downloaded(frames).header ==>
      Downloaded(frames).rows == AllRows(frames)
  {
    ConcatAllRows(frames);
  }

  /**
   * The merged file, when it has a `datetime` column: rows ascending with
   * unique timestamps, covering the timestamps of the file and of the chunks.
   */
  lemma MergeExistingSorted(prev: Table, frames: seq<Table>)
    requires UnifyTable(prev).Some?
    requires Key in MergeExisting(Readable(prev), Downloaded(frames)).header
    ensures Ascending(MergeExisting(Readable(prev), Downloaded(frames)).rows)
    ensures Keys(MergeExisting(Readable(prev), Downloaded(frames)).rows) == Keys(prev.rows) + Keys(AllRows(frames))
  {
    var e := UnifyTable(prev).value;
    var d := Downloaded(frames);
    DownloadedSpec(frames);
    assert MergeExisting(Readable(prev), d).rows == MergeKeepFirst(e.rows, d.rows);
    MergeKeepFirstSpec(e.rows, d.rows);
    if frames == [] {
      assert AllRows(frames) == [];
      assert Keys(d.rows) == {};
    }
  }

  /**
   * Precedence in the merged file: on a timestamp present in the file the
   * file's first row wins; otherwise the first downloaded row is kept.
   */
  lemma MergeExistingPrecedence(prev: Table, frames: seq<Table>, x: Row)
    requires UnifyTable(prev).Some?
    requires Key in MergeExisting(Readable(prev), Downloaded(frames)).header
    requires x in MergeExisting(Readable(prev), Downloaded(frames)).rows
    ensures x.time in Keys(prev.rows) ==> x == FirstWith(prev.rows, x.time)
    ensures x.time !in Keys(prev.rows) ==> x.time in Keys(AllRows(frames)) && x == FirstWith(AllRows(frames), x.time)
  {
    var e := UnifyTable(prev).value;
    var d := Downloaded(frames);
    DownloadedSpec(frames);
    assert MergeExisting(Readable(prev), d).rows == MergeKeepFirst(e.rows, d.rows);
    MergeKeepFirstSpec(e.rows, d.rows);
    if frames != [] && Key in d.header {
      MergeOfCleanedBatch(e.rows, AllRows(frames), x);
    } else if frames == [] {
      assert AllRows(frames) == [];
      assert Keys(d.rows) == {};
    }
  }
}
