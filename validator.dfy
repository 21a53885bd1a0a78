/**
 * The CSV validator of the bitcoin web datasets: a header check that depends
 * on the file name, then a row-by-row check of the column count, the date
 * shape, the numeric fields and the price coherence rule, every error being
 * collected rather than stopping the run; and the exit status of the whole
 * run over several files.
 */
module Validator {
  import opened Common

  const HeaderBase: seq<string> := ["datetime", "open", "high", "low", "close", "volume"]

  /** The one file that carries a seventh column. */
  const OneMinuteFile: string := "BTC-USD_1m.csv"

  // ---------------------------------------------------------------------
  // Dates
  // ---------------------------------------------------------------------

  predicate IsDigit(c: char)
  {
    '0' <= c <= '9'
  }

  function DigitValue(c: char): int
  {
    c as int - '0' as int
  }

  /** The number written by the decimal digits `s[i..j]`. */
  function Number(s: string, i: int, j: int): int
    requires 0 <= i <= j <= |s|
    decreases j - i
  {
    if i == j then 0 else Number(s, i, j - 1) * 10 + DigitValue(s[j - 1])
  }

  predicate AllDigits(s: string, i: int, j: int)
    requires 0 <= i <= j <= |s|
  {
    forall k :: i <= k < j ==> IsDigit(s[k])
  }

  predicate IsLeapYear(y: int)
  {
    y % 4 == 0 && (y % 100 != 0 || y % 400 == 0)
  }

  function DaysInMonth(y: int, m: int): int
  {
    if m == 2 then (if IsLeapYear(y) then 29 else 28)
    else if m in {4, 6, 9, 11} then 30
    else 31
  }

  /** A calendar date that `datetime` accepts: years 1 to 9999. */
  predicate CalendarDate(y: int, m: int, d: int)
  {
    1 <= y <= 9999 && 1 <= m <= 12 && 1 <= d <= DaysInMonth(y, m)
  }

  /** The two formats the validator tries, in order. */
  datatype DateFormat = DateOnly | DateAndTime

  const Formats: seq<DateFormat> := [DateOnly, DateAndTime]

  /** `YYYY-MM-DD`, with a real calendar date. */
  predicate MatchesDateOnly(s: string)
  {
    && |s| == 10 && s[4] == '-' && s[7] == '-'
    && AllDigits(s, 0, 4) && AllDigits(s, 5, 7) && AllDigits(s, 8, 10)
    && CalendarDate(Number(s, 0, 4), Number(s, 5, 7), Number(s, 8, 10))
  }

  /** `YYYY-MM-DD HH:MM:SS`, with a real date and a time of day. */
  predicate MatchesDateAndTime(s: string)
  {
    && |s| == 19 && MatchesDateOnly(s[..10])
    && s[10] == ' ' && s[13] == ':' && s[16] == ':'
    && AllDigits(s, 11, 13) && AllDigits(s, 14, 16) && AllDigits(s, 17, 19)
    && Number(s, 11, 13) <= 23 && Number(s, 14, 16) <= 59 && Number(s, 17, 19) <= 59
  }

  predicate Matches(s: string, f: DateFormat)
  {
    match f
    case DateOnly => MatchesDateOnly(s)
    case DateAndTime => MatchesDateAndTime(s)
  }

  /** The first-success search of `validar_fecha` over a list of formats. */
  function MatchesSome(s: string, formats: seq<DateFormat>): (b: bool)
    ensures b <==> exists i :: 0 <= i < |formats| && Matches(s, formats[i])
  {
    if formats == [] then false
    else if Matches(s, formats[0]) then true
    else
      var b := MatchesSome(s, formats[1..]);
      assert forall i :: 1 <= i < |formats| ==> formats[i] == formats[1..][i - 1];
      b
  }

  /** `validar_fecha`. */
  function ValidDate(s: string): bool
  {
    MatchesSome(s, Formats)
  }

  /** A date is valid exactly when it has one of the two shapes, which never overlap. */
  lemma ValidDateSpec(s: string)
    ensures ValidDate(s) <==> MatchesDateOnly(s) || MatchesDateAndTime(s)
    ensures !(MatchesDateOnly(s) && MatchesDateAndTime(s))
  {
    assert Matches(s, Formats[0]) == MatchesDateOnly(s);
    assert Matches(s, Formats[1]) == MatchesDateAndTime(s);
  }

  /** The character of a decimal digit. */
  function DigitChar(k: int): char
    requires 0 <= k <= 9
  {
    ('0' as int + k) as char
  }

  /** `n` written in `width` decimal digits, with leading zeros. */
  function Padded(n: nat, width: nat): (s: string)
    requires n < Power10(width)
    ensures |s| == width && AllDigits(s, 0, width) && Number(s, 0, width) == n
    decreases width
  {
    if width == 0 then ""
    else
      var init := Padded(n / 10, width - 1);
      var s := init + [DigitChar(n % 10)];
      NumberPrefix(init, [DigitChar(n % 10)], 0, width - 1);
      s
  }

  function Power10(k: nat): nat
  {
    if k == 0 then 1 else 10 * Power10(k - 1)
  }

  /** Reading digits is not disturbed by what follows them. */
  lemma {:induction false} NumberPrefix(a: string, b: string, i: int, j: int)
    requires 0 <= i <= j <= |a|
    ensures Number(a + b, i, j) == Number(a, i, j)
    decreases j - i
  {
    if i < j {
      NumberPrefix(a, b, i, j - 1);
    }
  }

  /** Reading digits shifted by an offset. */
  lemma {:induction false} NumberShift(a: string, b: string, i: int, j: int)
    requires 0 <= i <= j <= |b|
    ensures Number(a + b, |a| + i, |a| + j) == Number(b, i, j)
    decreases j - i
  {
    if i < j {
      NumberShift(a, b, i, j - 1);
      assert (a + b)[|a| + j - 1] == b[j - 1];
    }
  }

  /** `strftime('%Y-%m-%d')` of a year, month and day that fit their widths. */
  function RenderDate(y: nat, m: nat, d: nat): (s: string)
    requires y < 10000 && m < 100 && d < 100
    ensures |s| == 10
  {
    Padded(y, 4) + "-" + Padded(m, 2) + "-" + Padded(d, 2)
  }

  /**
   * A date written with zero-padded fields, as `strftime('%Y-%m-%d')` writes
   * it, is accepted exactly when it is a real calendar date.
   */
  lemma RenderDateValid(y: nat, m: nat, d: nat)
    requires y < 10000 && m < 100 && d < 100
    ensures MatchesDateOnly(RenderDate(y, m, d)) <==> CalendarDate(y, m, d)
  {
    RenderedFields(y, m, d);
    DateOnlyFields(RenderDate(y, m, d), y, m, d);
  }

  /** A ten-character text with dashes at 4 and 7 and digit fields around them has the date-only shape exactly when its fields form a calendar date. */
  lemma DateOnlyFields(s: string, y: int, m: int, d: int)
    requires |s| == 10 && s[4] == '-' && s[7] == '-'
    requires AllDigits(s, 0, 4) && AllDigits(s, 5, 7) && AllDigits(s, 8, 10)
    requires Number(s, 0, 4) == y && Number(s, 5, 7) == m && Number(s, 8, 10) == d
    ensures MatchesDateOnly(s) <==> CalendarDate(y, m, d)
  {
  }

  /** The fields of a rendered date: the padded year, month and day, separated by dashes. */
  lemma RenderedFields(y: nat, m: nat, d: nat)
    requires y < 10000 && m < 100 && d < 100
    ensures var s := RenderDate(y, m, d);
      && s[4] == '-' && s[7] == '-'
      && AllDigits(s, 0, 4) && AllDigits(s, 5, 7) && AllDigits(s, 8, 10)
      && Number(s, 0, 4) == y && Number(s, 5, 7) == m && Number(s, 8, 10) == d
  {
    var py, pm, pd := Padded(y, 4), Padded(m, 2), Padded(d, 2);
    var s := RenderDate(y, m, d);
    DigitsAt([], py, "-" + pm + "-" + pd);
    assert s == [] + py + ("-" + pm + "-" + pd);
    DigitsAt(py + "-", pm, "-" + pd);
    assert s == (py + "-") + pm + ("-" + pd);
    DigitsAt(py + "-" + pm + "-", pd, []);
    assert s == (py + "-" + pm + "-") + pd + [];
  }

  /** Digits keep their value wherever they are written. */
  lemma DigitsAt(a: string, b: string, c: string)
    requires AllDigits(b, 0, |b|)
    ensures var s := a + b + c;
      AllDigits(s, |a|, |a| + |b|) && Number(s, |a|, |a| + |b|) == Number(b, 0, |b|)
  {
    var s := a + b + c;
    assert s == a + (b + c);
    NumberShift(a, b + c, 0, |b|);
    NumberPrefix(b, c, 0, |b|);
    forall k | |a| <= k < |a| + |b| ensures IsDigit(s[k]) {
      assert s[k] == b[k - |a|];
    }
  }

  // ---------------------------------------------------------------------
  // Rows and files
  // ---------------------------------------------------------------------

  /** `os.path.basename`: the text after the last `/`. */
  function Basename(path: string): (b: string)
    ensures '/' !in b && |b| <= |path| && b == path[|path| - |b|..]
    ensures |b| < |path| ==> path[|path| - |b| - 1] == '/'
  {
    if path == [] then []
    else if path[|path| - 1] == '/' then []
    else
      var b := Basename(path[..|path| - 1]);
      b + [path[|path| - 1]]
  }

  function ExpectedColumns(path: string): int
  {
    if Basename(path) == OneMinuteFile then 7 else 6
  }

  /** `header_check`: seven columns beginning with the base header, or exactly the base header. */
  predicate HeaderOk(path: string, header: seq<string>)
  {
    if Basename(path) == OneMinuteFile then |header| == 7 && header[..6] == HeaderBase
    else header == HeaderBase
  }

  /**
   * The header passes exactly when it has the expected number of columns
   * and begins with the base header; the extra column of the one-minute file
   * may hold anything.
   */
  lemma HeaderOkSpec(path: string, header: seq<string>)
    ensures HeaderOk(path, header) <==> |header| == ExpectedColumns(path) && header[..6] == HeaderBase
  {
  }

  /** The errors `validar_archivo` reports; `line` is the line number of the row. */
  datatype ValidationError =
    | EmptyFile
    | BadHeader(found: seq<string>)
    | WrongColumnCount(line: int, expected: int, width: int)
    | BadDate(line: int, text: string)
    | NotANumber(line: int)
    | OpenOutOfRange(line: int)
    | CloseOutOfRange(line: int)
    | ReadFailure
  {
    /** The errors about one data row. */
    predicate HasLine()
    {
      WrongColumnCount? || BadDate? || NotANumber? || OpenOutOfRange? || CloseOutOfRange?
    }

    predicate OnLine(n: int)
    {
      HasLine() && line == n
    }
  }

  /**
   * A CSV file as the reader yields it: records of fields, or a file that
   * fails to open or decode. `parse` is `float` on one field; `None` where
   * it raises.
   */
  datatype CsvFile = Records(records: seq<seq<string>>) | FailsToRead

  /** The five conversions of open, high, low, close and volume all succeed. */
  predicate Numeric(row: seq<string>, parse: string -> Option<real>)
    requires |row| >= 6
  {
    parse(row[1]).Some? && parse(row[2]).Some? && parse(row[3]).Some? && parse(row[4]).Some? && parse(row[5]).Some?
  }

  /** The coherence rules on the prices of one row. */
  function PriceErrors(line: int, open: real, high: real, low: real, close: real): seq<ValidationError>
  {
    (if low <= open <= high then [] else [OpenOutOfRange(line)])
    + (if low <= close <= high then [] else [CloseOutOfRange(line)])
  }

  /** The checks on one data row, in the order the validator makes them. */
  function RowErrors(line: int, row: seq<string>, expected: int, parse: string -> Option<real>): seq<ValidationError>
    requires expected >= 6
  {
    if |row| != expected then [WrongColumnCount(line, expected, |row|)]
    else
      var dateErrors := if ValidDate(row[0]) then [] else [BadDate(line, row[0])];
      if !Numeric(row, parse) then dateErrors + [NotANumber(line)]
      else dateErrors + PriceErrors(line, parse(row[1]).value, parse(row[2]).value, parse(row[3]).value, parse(row[4]).value)
  }

  /** A row that raises nothing: right width, a valid date, five numbers and coherent prices. */
  predicate RowValid(row: seq<string>, expected: int, parse: string -> Option<real>)
  {
    && |row| == expected && expected >= 6
    && ValidDate(row[0])
    && Numeric(row, parse)
    && parse(row[3]).value <= parse(row[1]).value <= parse(row[2]).value
    && parse(row[3]).value <= parse(row[4]).value <= parse(row[2]).value
  }

  /**
   * The rules of one row: a wrong width gives exactly one error; otherwise
   * the date error is reported whenever the date is bad, a field that is not
   * a number gives one error and no price errors, and each price error is
   * reported exactly when its coherence rule fails. Every error carries the
   * row's line number, and there is none exactly when the row is valid.
   */
  lemma RowErrorsSpec(line: int, row: seq<string>, expected: int, parse: string -> Option<real>)
    requires expected >= 6
    ensures var r := RowErrors(line, row, expected, parse);
      && (|row| != expected ==> r == [WrongColumnCount(line, expected, |row|)])
      && (|row| == expected ==> (BadDate(line, row[0]) in r <==> !ValidDate(row[0])))
      && (|row| == expected && (exists k :: 1 <= k <= 5 && parse(row[k]).None?) ==>
            NotANumber(line) in r && OpenOutOfRange(line) !in r && CloseOutOfRange(line) !in r)
      && (|row| == expected && (forall k :: 1 <= k <= 5 ==> parse(row[k]).Some?) ==>
            && NotANumber(line) !in r
            && (OpenOutOfRange(line) in r <==> !(parse(row[3]).value <= parse(row[1]).value <= parse(row[2]).value))
            && (CloseOutOfRange(line) in r <==> !(parse(row[3]).value <= parse(row[4]).value <= parse(row[2]).value)))
      && (forall e :: e in r ==> e.OnLine(line))
      && (r == [] <==> RowValid(row, expected, parse))
  {
    RowErrorsCases(line, row, expected, parse);
    RowErrorsClean(line, row, expected, parse);
  }

  /** The error each rule of a row of the right width gives. */
  lemma RowErrorsCases(line: int, row: seq<string>, expected: int, parse: string -> Option<real>)
    requires expected >= 6
    ensures var r := RowErrors(line, row, expected, parse);
      && (|row| != expected ==> r == [WrongColumnCount(line, expected, |row|)])
      && (|row| == expected ==> (BadDate(line, row[0]) in r <==> !ValidDate(row[0])))
      && (|row| == expected && (exists k :: 1 <= k <= 5 && parse(row[k]).None?) ==>
            NotANumber(line) in r && OpenOutOfRange(line) !in r && CloseOutOfRange(line) !in r)
      && (|row| == expected && (forall k :: 1 <= k <= 5 ==> parse(row[k]).Some?) ==>
            && NotANumber(line) !in r
            && (OpenOutOfRange(line) in r <==> !(parse(row[3]).value <= parse(row[1]).value <= parse(row[2]).value))
            && (CloseOutOfRange(line) in r <==> !(parse(row[3]).value <= parse(row[4]).value <= parse(row[2]).value)))
  {
    if |row| == expected {
      if Numeric(row, parse) {
        assert forall k :: 1 <= k <= 5 ==> parse(row[k]).Some?;
      } else {
        assert exists k :: 1 <= k <= 5 && parse(row[k]).None?;
      }
    }
  }

  /** The errors of a row name its line, and there are none exactly when the row is valid. */
  lemma RowErrorsClean(line: int, row: seq<string>, expected: int, parse: string -> Option<real>)
    requires expected >= 6
    ensures var r := RowErrors(line, row, expected, parse);
      && (forall e :: e in r ==> e.OnLine(line))
      && (r == [] <==> RowValid(row, expected, parse))
  {
  }

  /** The checks on one data row, appending its errors in order. */
  method CheckRow(line: int, row: seq<string>, expected: int, parse: string -> Option<real>)
    returns (rowErrors: seq<ValidationError>)
    requires expected >= 6
    ensures rowErrors == RowErrors(line, row, expected, parse)
  {
    if |row| != expected {
      return [WrongColumnCount(line, expected, |row|)];
    }
    rowErrors := [];
    if !ValidDate(row[0]) {
      rowErrors := rowErrors + [BadDate(line, row[0])];
    }
    var open, high, low, close, volume := parse(row[1]), parse(row[2]), parse(row[3]), parse(row[4]), parse(row[5]);
    if open.None? || high.None? || low.None? || close.None? || volume.None? {
      rowErrors := rowErrors + [NotANumber(line)];
    } else {
      if !(low.value <= open.value <= high.value) {
        rowErrors := rowErrors + [OpenOutOfRange(line)];
      }
      if !(low.value <= close.value <= high.value) {
        rowErrors := rowErrors + [CloseOutOfRange(line)];
      }
    }
  }

  /** A check of one row: its errors, given the row's line number. */
  type RowCheck = (int, seq<string>) -> seq<ValidationError>

  /** The validator's check of one row. */
  function CheckOf(expected: int, parse: string -> Option<real>): RowCheck
    requires expected >= 6
  {
    (line, row) => RowErrors(line, row, expected, parse)
  }

  /** Applying the validator's row check is checking the row. */
  lemma CheckOfApply(expected: int, parse: string -> Option<real>, line: int, row: seq<string>)
    requires expected >= 6
    ensures CheckOf(expected, parse)(line, row) == RowErrors(line, row, expected, parse)
  {
  }

  /** Every error a check reports about a row names that row's line. */
  ghost predicate Localized(check: RowCheck)
  {
    forall line, row, e :: e in check(line, row) ==> e.OnLine(line)
  }

  /** The validator's row check is localized. */
  lemma CheckOfLocalized(expected: int, parse: string -> Option<real>)
    requires expected >= 6
    ensures Localized(CheckOf(expected, parse))
  {
    forall line, row, e | e in CheckOf(expected, parse)(line, row) ensures e.OnLine(line) {
      RowErrorsSpec(line, row, expected, parse);
    }
  }

  /** The errors of the data rows `rows`, the first of which is on line `first`, row after row. */
  function RowsErrors(rows: seq<seq<string>>, first: int, check: RowCheck): seq<ValidationError>
  {
    if rows == [] then []
    else RowsErrors(rows[..|rows| - 1], first, check) + check(first + |rows| - 1, rows[|rows| - 1])
  }

  /** `validar_archivo`, as a value. */
  function FileErrors(path: string, file: CsvFile, parse: string -> Option<real>): seq<ValidationError>
  {
    match file
    case FailsToRead => [ReadFailure]
    case Records(records) =>
      if records == [] then [EmptyFile]
      else
        (if HeaderOk(path, records[0]) then [] else [BadHeader(records[0])])
        + RowsErrors(records[1..], 2, CheckOf(ExpectedColumns(path), parse))
  }

  /**
   * `validar_archivo`: a file that fails to read or has no line gives one
   * error; any other file is checked line by line.
   */
  method ValidateFile(path: string, file: CsvFile, parse: string -> Option<real>) returns (errors: seq<ValidationError>)
    ensures errors == FileErrors(path, file, parse)
  {
    if file.FailsToRead? {
      return [ReadFailure];
    }
    if file.records == [] {
      return [EmptyFile];
    }
    errors := ValidateRecords(path, file.records, parse);
    FileErrorsParts(path, file.records, parse);
  }

  /** Reads the header, records a header mismatch and goes on, then checks every data row, counting lines from 2. */
  method ValidateRecords(path: string, records: seq<seq<string>>, parse: string -> Option<real>) returns (errors: seq<ValidationError>)
    requires records != []
    ensures errors == (if HeaderOk(path, records[0]) then [] else [BadHeader(records[0])])
                      + RowsErrors(records[1..], 2, CheckOf(ExpectedColumns(path), parse))
  {
    var expected := ExpectedColumns(path);
    errors := [];
    if !HeaderOk(path, records[0]) {
      errors := errors + [BadHeader(records[0])];
    }
    var rowErrors := CheckRows(records, expected, parse);
    errors := errors + rowErrors;
  }

  /** The loop of `validar_archivo` over the data rows, counting lines from 2. */
  method CheckRows(records: seq<seq<string>>, expected: int, parse: string -> Option<real>)
    returns (errors: seq<ValidationError>)
    requires records != [] && expected >= 6
    ensures errors == RowsErrors(records[1..], 2, CheckOf(expected, parse))
  {
    errors := [];
    var line := 1;
    var i := 1;
    while i < |records|
      invariant 1 <= i <= |records| && line == i
      invariant errors == RowsErrors(records[1..i], 2, CheckOf(expected, parse))
    {
      line := line + 1;
      var rowErrors := CheckRow(line, records[i], expected, parse);
      assert records[1..i + 1][..i - 1] == records[1..i];
      assert rowErrors == CheckOf(expected, parse)(line, records[i]);
      errors := errors + rowErrors;
      i := i + 1;
    }
    assert records[1..i] == records[1..];
  }

  /** Every error of the data rows names a line from `first` on, within the rows. */
  lemma {:induction false} RowsErrorsLineRange(rows: seq<seq<string>>, first: int, check: RowCheck, e: ValidationError)
    requires Localized(check)
    requires e in RowsErrors(rows, first, check)
    ensures e.HasLine() && first <= e.line < first + |rows|
  {
    var n := |rows|;
    var init := rows[..n - 1];
    if e in RowsErrors(init, first, check) {
      RowsErrorsLineRange(init, first, check, e);
    } else {
      assert e in check(first + n - 1, rows[n - 1]);
    }
  }

  /** ... and it comes from the row on that line. */
  lemma {:induction false} RowsErrorsLines(rows: seq<seq<string>>, first: int, check: RowCheck, e: ValidationError)
    requires Localized(check)
    requires e in RowsErrors(rows, first, check)
    ensures e.HasLine() && first <= e.line < first + |rows|
    ensures e in check(e.line, rows[e.line - first])
  {
    RowsErrorsLineRange(rows, first, check, e);
    var n := |rows|;
    var init := rows[..n - 1];
    if e in RowsErrors(init, first, check) {
      RowsErrorsLines(init, first, check, e);
      assert init[e.line - first] == rows[e.line - first];
    } else {
      assert e in check(first + n - 1, rows[n - 1]);
    }
  }

  /** Every error of every data row is reported. */
  lemma {:induction false} RowsErrorsComplete(rows: seq<seq<string>>, first: int, check: RowCheck, i: int)
    requires 0 <= i < |rows|
    ensures forall e :: e in check(first + i, rows[i]) ==> e in RowsErrors(rows, first, check)
  {
    var n := |rows|;
    if i < n - 1 {
      RowsErrorsComplete(rows[..n - 1], first, check, i);
      assert rows[..n - 1][i] == rows[i];
    }
  }

  /** The data rows raise nothing exactly when no row raises anything. */
  lemma {:induction false} RowsErrorsNone(rows: seq<seq<string>>, first: int, check: RowCheck)
    ensures RowsErrors(rows, first, check) == [] <==> forall i :: 0 <= i < |rows| ==> check(first + i, rows[i]) == []
  {
    if rows != [] {
      var n := |rows|;
      RowsErrorsNone(rows[..n - 1], first, check);
      assert forall i :: 0 <= i < n - 1 ==> rows[..n - 1][i] == rows[i];
    }
  }

  /**
   * A file with no line gives exactly one error and nothing else is checked;
   * the errors of any other file are its header's, then its rows', with
   * lines counted from 2.
   */
  lemma FileErrorsParts(path: string, records: seq<seq<string>>, parse: string -> Option<real>)
    ensures records == [] ==> FileErrors(path, Records(records), parse) == [EmptyFile]
    ensures records != [] ==>
      FileErrors(path, Records(records), parse)
        == (if HeaderOk(path, records[0]) then [] else [BadHeader(records[0])])
           + RowsErrors(records[1..], 2, CheckOf(ExpectedColumns(path), parse))
  {
  }

  /** `e` names a data line of `records`, counted from 2 after the header, and is one of that row's errors. */
  predicate FromDataRow(path: string, records: seq<seq<string>>, parse: string -> Option<real>, e: ValidationError)
  {
    e.HasLine() && 2 <= e.line <= |records| && e in RowErrors(e.line, records[e.line - 1], ExpectedColumns(path), parse)
  }

  /**
   * Every error of a non-empty file is the header's or names a data row's
   * line, counted from 2 after the header, and is one of that row's errors;
   * the header is reported exactly when it fails its check.
   */
  lemma FileErrorsLines(path: string, records: seq<seq<string>>, parse: string -> Option<real>)
    requires records != []
    ensures var errs := FileErrors(path, Records(records), parse);
      && (BadHeader(records[0]) in errs <==> !HeaderOk(path, records[0]))
      && forall e :: e in errs ==> e == BadHeader(records[0]) || FromDataRow(path, records, parse, e)
  {
    var check := CheckOf(ExpectedColumns(path), parse);
    var rows := records[1..];
    CheckOfLocalized(ExpectedColumns(path), parse);
    FileErrorsParts(path, records, parse);
    forall e | e in RowsErrors(rows, 2, check) ensures FromDataRow(path, records, parse, e) {
      RowsErrorsLines(rows, 2, check, e);
      assert rows[e.line - 2] == records[e.line - 1];
      CheckOfApply(ExpectedColumns(path), parse, e.line, records[e.line - 1]);
    }
    assert !BadHeader(records[0]).HasLine();
  }

  /** A header that fails its check does not stop the rows: every error of every data row is reported. */
  lemma FileErrorsRowsReported(path: string, records: seq<seq<string>>, parse: string -> Option<real>, i: int)
    requires 1 <= i < |records|
    ensures forall e :: e in RowErrors(i + 1, records[i], ExpectedColumns(path), parse) ==> e in FileErrors(path, Records(records), parse)
  {
    var check := CheckOf(ExpectedColumns(path), parse);
    FileErrorsParts(path, records, parse);
    RowsErrorsComplete(records[1..], 2, check, i - 1);
    assert records[1..][i - 1] == records[i] && 2 + (i - 1) == i + 1;
    CheckOfApply(ExpectedColumns(path), parse, i + 1, records[i]);
    forall e | e in RowErrors(i + 1, records[i], ExpectedColumns(path), parse)
      ensures e in RowsErrors(records[1..], 2, check)
    {
      assert e in check(2 + (i - 1), records[1..][i - 1]);
    }
  }

  /** The data rows of a file raise nothing exactly when every one of them is valid. */
  lemma DataRowsValid(records: seq<seq<string>>, expected: int, parse: string -> Option<real>)
    requires records != [] && expected >= 6
    ensures RowsErrors(records[1..], 2, CheckOf(expected, parse)) == [] <==>
      forall i :: 1 <= i < |records| ==> RowValid(records[i], expected, parse)
  {
    var rows := records[1..];
    RowsErrorsNone(rows, 2, CheckOf(expected, parse));
    forall i | 1 <= i < |records|
      ensures CheckOf(expected, parse)(2 + (i - 1), rows[i - 1]) == [] <==> RowValid(records[i], expected, parse)
    {
      assert rows[i - 1] == records[i];
      RowErrorsSpec(i + 1, records[i], expected, parse);
    }
  }

  /** A file with lines passes exactly when its header passes and every data row is valid. */
  lemma FileErrorsClean(path: string, records: seq<seq<string>>, parse: string -> Option<real>)
    requires records != []
    ensures FileErrors(path, Records(records), parse) == [] <==>
      HeaderOk(path, records[0]) && forall i :: 1 <= i < |records| ==> RowValid(records[i], ExpectedColumns(path), parse)
  {
    FileErrorsParts(path, records, parse);
    DataRowsValid(records, ExpectedColumns(path), parse);
  }

  // ---------------------------------------------------------------------
  // main
  // ---------------------------------------------------------------------

  /** Some report holds an error. */
  predicate AnyErrors(reports: seq<seq<ValidationError>>)
  {
    exists i :: 0 <= i < |reports| && reports[i] != []
  }

  /**
   * `main` over the files to validate, each with its path and its contents:
   * every file is validated, and the exit status is 1 exactly when some
   * file had errors.
   */
  method ValidateAll(files: seq<(string, CsvFile)>, parse: string -> Option<real>)
    returns (reports: seq<seq<ValidationError>>, status: int)
    ensures |reports| == |files|
    ensures forall i :: 0 <= i < |files| ==> reports[i] == FileErrors(files[i].0, files[i].1, parse)
    ensures status == (if AnyErrors(reports) then 1 else 0)
  {
    reports := [];
    var anyErrors := false;
    var i := 0;
    while i < |files|
      invariant 0 <= i <= |files| && |reports| == i
      invariant forall k :: 0 <= k < i ==> reports[k] == FileErrors(files[k].0, files[k].1, parse)
      invariant anyErrors == AnyErrors(reports)
    {
      var errors := ValidateFile(files[i].0, files[i].1, parse);
      if errors != [] {
        anyErrors := true;
        assert (reports + [errors])[i] == errors;
      }
      reports := reports + [errors];
      i := i + 1;
    }
    status := if anyErrors then 1 else 0;
  }
}
