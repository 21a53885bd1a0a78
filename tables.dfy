/**
 * Data frames as the downloaders see them: a header of column names and rows
 * keyed by the value of the timestamp column, plus the state of a CSV file
 * on disk.
 */
module Tables {
  import opened Rows

  datatype Table = Table(header: seq<string>, rows: seq<Row>)

  /** `pd.DataFrame()`: no columns, no rows. */
  const EmptyTable: Table := Table([], [])

  /**
   * An output file before a run: absent, present but failing to load
   * (`read_csv` raises), or present and loaded.
   */
  datatype FileState = Missing | Unreadable | Readable(table: Table)

  /**
   * The columns of `pd.concat([a, b])`: those of `a`, then those of `b` that
   * `a` lacks, in order of appearance.
   */
  function HeaderUnion(a: seq<string>, b: seq<string>): (h: seq<string>)
    ensures forall c :: c in h <==> c in a || c in b
    ensures |a| <= |h| && h[..|a|] == a
    decreases |b|
  {
    if b == [] then a
    else if b[0] in a then HeaderUnion(a, b[1..])
    else
      var h := HeaderUnion(a + [b[0]], b[1..]);
      assert (a + [b[0]])[..|a|] == a;
      h
  }

  /** `pd.concat([a, b], ignore_index=True)`. */
  function Concat(a: Table, b: Table): (t: Table)
    ensures t.rows == a.rows + b.rows
    ensures forall c :: c in t.header <==> c in a.header || c in b.header
  {
    Table(HeaderUnion(a.header, b.header), a.rows + b.rows)
  }

  /** `pd.concat(frames, ignore_index=True)`, folded left to right. */
  function ConcatAll(frames: seq<Table>): (t: Table)
    ensures forall c :: c in t.header <==> exists i :: 0 <= i < |frames| && c in frames[i].header
  {
    if frames == [] then EmptyTable
    else
      var init := ConcatAll(frames[..|frames| - 1]);
      var r := Concat(init, frames[|frames| - 1]);
      assert forall i :: 0 <= i < |frames| - 1 ==> frames[..|frames| - 1][i] == frames[i];
      r
  }

  /** The rows of `pd.concat(frames)`: every frame's rows, frame after frame. */
  function AllRows(frames: seq<Table>): seq<Row>
  {
    if frames == [] then [] else AllRows(frames[..|frames| - 1]) + frames[|frames| - 1].rows
  }

  lemma {:induction false} ConcatAllRows(frames: seq<Table>)
    ensures ConcatAll(frames).rows == AllRows(frames)
  {
    if frames != [] {
      ConcatAllRows(frames[..|frames| - 1]);
    }
  }

  /**
   * `drop_duplicates(subset=[key], keep='first')` then `sort_values(by=key)`,
   * applied only when the key column is present, as the scripts guard it.
   */
  function DedupSortFirst(t: Table, key: string): (r: Table)
    ensures r.header == t.header
    ensures key in t.header ==> Ascending(r.rows) && Keys(r.rows) == Keys(t.rows)
    ensures key !in t.header ==> r == t
  {
    if key in t.header then Table(t.header, SortByTime(DedupKeepFirst(t.rows))) else t
  }
}
