/**
 * `clean_dataset` of the long-term intraday folder: the `Date` column of a
 * loaded CSV is converted to UTC, the columns `Date, Close, High, Low, Open,
 * Volume` are selected in that order, and the result is written when an
 * output file is named. Cells are opaque text: the model follows which
 * cell goes where, not how `read_csv` and `to_csv` reformat numbers.
 */
module CleanDataset {
  import opened Common

  /**
   * A loaded CSV: its header and its records. `read_csv` gives distinct
   * column names, renaming repeated ones, so a name is found at its first
   * position.
   */
  datatype Frame = Frame(header: seq<string>, rows: seq<seq<string>>)

  /** `columnas_deseadas`. */
  const Wanted: seq<string> := ["Date", "Close", "High", "Low", "Open", "Volume"]

  /** The first position of `c` in `h`. */
  function IndexOf(h: seq<string>, c: string): (k: nat)
    requires c in h
    ensures k < |h| && h[k] == c && c !in h[..k]
  {
    if h[0] == c then 0
    else
      var k := 1 + IndexOf(h[1..], c);
      assert h[..k] == [h[0]] + h[1..][..k - 1];
      k
  }

  /** The cell of a record at column `k`; a short record reads as missing, which is written back as empty text. */
  function Cell(row: seq<string>, k: nat): string
  {
    if k < |row| then row[k] else ""
  }

  /** Why `clean_dataset` raises: there is no `Date` column, or some wanted columns are absent. */
  datatype CleanError = MissingDate | MissingColumns(names: seq<string>)

  /** The wanted columns absent from `h`, in the order they are wanted. */
  function Absent(wanted: seq<string>, h: seq<string>): (m: seq<string>)
    ensures forall c :: c in m <==> c in wanted && c !in h
  {
    if wanted == [] then []
    else (if wanted[0] in h then [] else [wanted[0]]) + Absent(wanted[1..], h)
  }

  /** When every wanted column is present, none is absent. */
  lemma {:induction false} AbsentNone(wanted: seq<string>, h: seq<string>)
    requires forall c :: c in wanted ==> c in h
    ensures Absent(wanted, h) == []
  {
    if wanted != [] {
      assert wanted[0] in wanted;
      assert forall c :: c in wanted[1..] ==> c in wanted;
      AbsentNone(wanted[1..], h);
    }
  }

  /**
   * One record of `df[columnas_deseadas]` after the `Date` conversion: the
   * cell of each wanted column, the `Date` cell converted by `toUtc`
   * (`pd.to_datetime` then `tz_localize('UTC')`).
   */
  function ProjectRow(h: seq<string>, row: seq<string>, toUtc: string -> string): (r: seq<string>)
    requires forall c :: c in Wanted ==> c in h
  {
    seq(|Wanted|, k requires 0 <= k < |Wanted| =>
      var c := Cell(row, IndexOf(h, Wanted[k]));
      if k == 0 then toUtc(c) else c)
  }

  /** The cleaned frame, or the error `clean_dataset` raises. */
  function Cleaned(input: Frame, toUtc: string -> string): Result<Frame, CleanError>
  {
    if "Date" !in input.header then Err(MissingDate)
    else if Absent(Wanted, input.header) != [] then Err(MissingColumns(Absent(Wanted, input.header)))
    else
      Ok(Frame(Wanted, ProjectRows(input.header, input.rows, toUtc)))
  }

  /** Every record projected, in order. */
  function ProjectRows(h: seq<string>, rows: seq<seq<string>>, toUtc: string -> string): (r: seq<seq<string>>)
    requires forall c :: c in Wanted ==> c in h
    ensures |r| == |rows| && forall i :: 0 <= i < |rows| ==> r[i] == ProjectRow(h, rows[i], toUtc)
  {
    if rows == [] then [] else [ProjectRow(h, rows[0], toUtc)] + ProjectRows(h, rows[1..], toUtc)
  }

  /** What a call returns and the file it writes, with its path (`None`: nothing written). */
  datatype CleanOutcome = CleanOutcome(result: Frame, written: Option<(string, Frame)>)

  /** `clean_dataset(input_file, output_file)`: `if output_file:` is false for no name and for the empty name. */
  function CleanFile(input: Frame, outputFile: Option<string>, toUtc: string -> string): Result<CleanOutcome, CleanError>
  {
    match Cleaned(input, toUtc)
    case Err(e) => Err(e)
    case Ok(df) =>
      if outputFile.Some? && outputFile.value != "" then Ok(CleanOutcome(df, Some((outputFile.value, df))))
      else Ok(CleanOutcome(df, None))
  }

  /**
   * Cleaning succeeds exactly when every wanted column is present; the
   * result then has the wanted columns in order and as many records as the
   * input, each `Date` cell is the converted input `Date` cell and every
   * other cell is the input cell of the same column.
   */
  lemma CleanedSpec(input: Frame, toUtc: string -> string)
    ensures Cleaned(input, toUtc).Ok? <==> forall c :: c in Wanted ==> c in input.header
    ensures (forall c :: c in Wanted ==> c in input.header) ==>
      && Cleaned(input, toUtc).Ok?
      && var out := Cleaned(input, toUtc).value;
      && out.header == Wanted
      && |out.rows| == |input.rows|
      && (forall i :: 0 <= i < |out.rows| ==> |out.rows[i]| == |Wanted|)
      && (forall i :: 0 <= i < |out.rows| ==> out.rows[i][0] == toUtc(Cell(input.rows[i], IndexOf(input.header, "Date"))))
      && (forall i, k :: 0 <= i < |out.rows| && 1 <= k < |Wanted| ==>
            out.rows[i][k] == Cell(input.rows[i], IndexOf(input.header, Wanted[k])))
  {
    if forall c :: c in Wanted ==> c in input.header {
      AbsentNone(Wanted, input.header);
      var out := Cleaned(input, toUtc).value;
      forall i, k | 0 <= i < |out.rows| && 1 <= k < |Wanted|
        ensures out.rows[i][k] == Cell(input.rows[i], IndexOf(input.header, Wanted[k]))
      {
        assert Wanted[k] in Wanted;
      }
    } else {
      var c :| c in Wanted && c !in input.header;
      assert c in Absent(Wanted, input.header);
    }
  }

  /**
   * The error names what is missing: no `Date` column, or else every wanted
   * column the input lacks, and only those.
   */
  lemma CleanedErrors(input: Frame, toUtc: string -> string)
    ensures Cleaned(input, toUtc) == Err(MissingDate) <==> "Date" !in input.header
    ensures Cleaned(input, toUtc).Err? && Cleaned(input, toUtc).error.MissingColumns? ==>
      var names := Cleaned(input, toUtc).error.names;
      && names != []
      && forall c :: c in names <==> c in Wanted && c !in input.header
  {
  }

  /** A file is written exactly when a non-empty output name is given, and it holds what is returned. */
  lemma CleanFileWrites(input: Frame, outputFile: Option<string>, toUtc: string -> string)
    ensures CleanFile(input, outputFile, toUtc).Ok? <==> Cleaned(input, toUtc).Ok?
    ensures CleanFile(input, outputFile, toUtc).Ok? ==>
      var out := CleanFile(input, outputFile, toUtc).value;
      && out.result == Cleaned(input, toUtc).value
      && (out.written.Some? <==> outputFile.Some? && outputFile.value != "")
      && (out.written.Some? ==> out.written.value == (outputFile.value, out.result))
  {
  }

  /** No conversion: the column selection alone. */
  function Unconverted(c: string): string
  {
    c
  }

  /**
   * `df[columnas_deseadas]` on a cleaned frame selects every record as it
   * is: the column selection is idempotent. (Cleaning a cleaned file as a
   * whole is not: its dates already carry a zone, and `tz_localize` raises
   * on them.)
   */
  lemma ReselectCleaned(input: Frame, toUtc: string -> string)
    requires Cleaned(input, toUtc).Ok?
    ensures var out := Cleaned(input, toUtc).value;
      && (forall c :: c in Wanted ==> c in out.header)
      && ProjectRows(out.header, out.rows, Unconverted) == out.rows
  {
    CleanedRows(input, toUtc);
    var out := Cleaned(input, toUtc).value;
    assert out.rows == ProjectRows(input.header, input.rows, toUtc);
    ProjectRowsTwice(input.header, input.rows, toUtc);
  }

  /** Selecting the wanted columns of projected records again gives them back. */
  lemma {:induction false} ProjectRowsTwice(h: seq<string>, rows: seq<seq<string>>, toUtc: string -> string)
    requires forall c :: c in Wanted ==> c in h
    ensures ProjectRows(Wanted, ProjectRows(h, rows, toUtc), Unconverted) == ProjectRows(h, rows, toUtc)
  {
    if rows != [] {
      ProjectRowTwice(h, rows[0], toUtc);
      ProjectRowsTwice(h, rows[1..], toUtc);
      var once := ProjectRows(h, rows, toUtc);
      assert once == [ProjectRow(h, rows[0], toUtc)] + ProjectRows(h, rows[1..], toUtc);
      assert once[1..] == ProjectRows(h, rows[1..], toUtc);
    }
  }

  /** A successful cleaning projects every record, keeping their order. */
  lemma CleanedRows(input: Frame, toUtc: string -> string)
    requires Cleaned(input, toUtc).Ok?
    ensures forall c :: c in Wanted ==> c in input.header
    ensures var out := Cleaned(input, toUtc).value;
      && out.header == Wanted
      && |out.rows| == |input.rows|
      && forall i :: 0 <= i < |out.rows| ==> out.rows[i] == ProjectRow(input.header, input.rows[i], toUtc)
  {
    assert Absent(Wanted, input.header) == [];
  }

  /** Selecting the wanted columns of a projected record again gives it back. */
  lemma ProjectRowTwice(h: seq<string>, row: seq<string>, toUtc: string -> string)
    requires forall c :: c in Wanted ==> c in h
    ensures ProjectRow(Wanted, ProjectRow(h, row, toUtc), Unconverted) == ProjectRow(h, row, toUtc)
  {
    var once := ProjectRow(h, row, toUtc);
    var twice := ProjectRow(Wanted, once, Unconverted);
    forall k | 0 <= k < |Wanted| ensures twice[k] == once[k] {
      IndexOfWanted(k);
      assert |once| == |Wanted|;
      var c := Cell(once, IndexOf(Wanted, Wanted[k]));
      assert c == once[k];
      assert twice[k] == if k == 0 then Unconverted(c) else c;
    }
  }

  /** Each wanted column is found at its own position of the wanted list. */
  lemma IndexOfWanted(k: nat)
    requires k < |Wanted|
    ensures IndexOf(Wanted, Wanted[k]) == k
  {
    var j := IndexOf(Wanted, Wanted[k]);
    assert Wanted[j] == Wanted[k];
    assert forall a, b :: 0 <= a < b < |Wanted| ==> Wanted[a] != Wanted[b];
  }

  /** `salida = f"clean_{archivo}"`. */
  function CleanName(name: string): (out: string)
  {
    "clean_" + name
  }

  /** The output name is the input name behind `clean_`, so distinct inputs never share an output. */
  lemma CleanNameSpec(a: string, b: string)
    ensures CleanName(a)[..6] == "clean_" && CleanName(a)[6..] == a
    ensures CleanName(a) == CleanName(b) <==> a == b
  {
    if CleanName(a) == CleanName(b) {
      assert a == CleanName(a)[6..];
      assert b == CleanName(b)[6..];
    }
  }

  /** The files the script cleans, in order. */
  const Inputs: seq<string> := ["BTC-USD_1h.csv", "BTC-USD_4h.csv", "BTC-USD_15m.csv"]

  /**
   * Where the script got to: every file written so far, by path, and the
   * error that stopped it, if one did. Files written before the error stay
   * written.
   */
  datatype CleanRun = CleanRun(files: map<string, Frame>, error: Option<CleanError>)

  /**
   * The script: each input is cleaned into its `clean_` file in turn; the
   * first error stops it.
   */
  function CleanAll(names: seq<string>, read: string -> Frame, toUtc: string -> string): CleanRun
  {
    if names == [] then CleanRun(map[], None)
    else
      var run := CleanAll(names[..|names| - 1], read, toUtc);
      var last := names[|names| - 1];
      if run.error.Some? then run
      else
        match CleanFile(read(last), Some(CleanName(last)), toUtc)
        case Err(e) => CleanRun(run.files, Some(e))
        case Ok(out) => CleanRun(run.files[CleanName(last) := out.result], None)
  }

  /** Cleaning one more input: its file is cleaned after the earlier ones unless those stopped. */
  lemma CleanAllSnoc(names: seq<string>, i: nat, read: string -> Frame, toUtc: string -> string)
    requires i < |names|
    ensures var run := CleanAll(names[..i], read, toUtc);
      CleanAll(names[..i + 1], read, toUtc) ==
        if run.error.Some? then run
        else match CleanFile(read(names[i]), Some(CleanName(names[i])), toUtc)
          case Err(e) => CleanRun(run.files, Some(e))
          case Ok(out) => CleanRun(run.files[CleanName(names[i]) := out.result], None)
  {
    assert names[..i + 1][..i] == names[..i];
  }

  /** Once the script has stopped with an error, the later inputs change nothing. */
  lemma {:induction false} CleanAllStopped(names: seq<string>, n: nat, read: string -> Frame, toUtc: string -> string)
    requires n <= |names|
    requires CleanAll(names[..n], read, toUtc).error.Some?
    ensures CleanAll(names, read, toUtc) == CleanAll(names[..n], read, toUtc)
  {
    if n < |names| {
      var init := names[..|names| - 1];
      assert init[..n] == names[..n];
      CleanAllStopped(init, n, read, toUtc);
    } else {
      assert names[..n] == names;
    }
  }

  /**
   * Where the script stops: when the inputs before `n` were cleaned and
   * input `n` raises, the script ends with that input's error and the files
   * written for the inputs before it.
   */
  lemma {:induction false} CleanAllStopsAt(names: seq<string>, n: nat, read: string -> Frame, toUtc: string -> string, e: CleanError)
    requires n < |names|
    requires CleanAll(names[..n], read, toUtc).error.None?
    requires Cleaned(read(names[n]), toUtc) == Err(e)
    ensures CleanAll(names, read, toUtc) == CleanRun(CleanAll(names[..n], read, toUtc).files, Some(e))
  {
    if n + 1 == |names| {
      CleanAllFails(names, n, read, toUtc, e);
      assert names[..n + 1] == names;
    } else {
      var init := names[..|names| - 1];
      assert init[..n] == names[..n] && init[n] == names[n];
      CleanAllStopsAt(init, n, read, toUtc, e);
    }
  }

  /** The input that raises ends the script with its error and adds no file. */
  lemma CleanAllFails(names: seq<string>, n: nat, read: string -> Frame, toUtc: string -> string, e: CleanError)
    requires n < |names|
    requires CleanAll(names[..n], read, toUtc).error.None?
    requires Cleaned(read(names[n]), toUtc) == Err(e)
    ensures CleanAll(names[..n + 1], read, toUtc) == CleanRun(CleanAll(names[..n], read, toUtc).files, Some(e))
  {
    CleanAllSnoc(names, n, read, toUtc);
    assert CleanFile(read(names[n]), Some(CleanName(names[n])), toUtc) == Err(e);
  }

  /** When the script completes, every input has its cleaned frame under its `clean_` name, and nothing else is written. */
  lemma {:induction false} CleanAllSpec(names: seq<string>, read: string -> Frame, toUtc: string -> string)
    requires CleanAll(names, read, toUtc).error.None?
    ensures var files := CleanAll(names, read, toUtc).files;
      && (forall p :: p in files <==> exists n :: n in names && p == CleanName(n))
      && (forall n :: n in names ==> Cleaned(read(n), toUtc).Ok? && files[CleanName(n)] == Cleaned(read(n), toUtc).value)
  {
    if names != [] {
      var init := names[..|names| - 1];
      var last := names[|names| - 1];
      CleanAllSpec(init, read, toUtc);
      var files := CleanAll(names, read, toUtc).files;
      forall n | n in names ensures Cleaned(read(n), toUtc).Ok? && files[CleanName(n)] == Cleaned(read(n), toUtc).value {
        if n != last {
          assert n in init;
          CleanNameSpec(n, last);
        }
      }
      forall p | p in files ensures exists n :: n in names && p == CleanName(n) {
        if p != CleanName(last) {
          var n :| n in init && p == CleanName(n);
          assert n in names;
        }
      }
      forall p | exists n :: n in names && p == CleanName(n) ensures p in files {
        var n :| n in names && p == CleanName(n);
        if n != last { assert n in init; }
      }
    }
  }
}
