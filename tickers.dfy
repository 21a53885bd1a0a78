/**
 * What the stocks and forex scripts share: reading the ticker list, the list
 * of intervals, the period asked for each interval, and the names of the
 * files they write.
 */
module Tickers {

  /**
   * `str.isspace` for one character: the ASCII controls tab to carriage
   * return, the separators 0x1C to 0x1F, space, and the Unicode spaces and
   * line separators.
   */
  predicate IsSpace(c: char)
  {
    || ('\t' <= c <= '\r')
    || ('\U{1C}' <= c <= ' ')
    || c == '\U{85}' || c == '\U{A0}' || c == '\U{1680}'
    || ('\U{2000}' <= c <= '\U{200A}')
    || c == '\U{2028}' || c == '\U{2029}' || c == '\U{202F}' || c == '\U{205F}' || c == '\U{3000}'
  }

  /** `str.lstrip()`: drops the leading whitespace. */
  function TrimStart(s: string): string
  {
    if s != [] && IsSpace(s[0]) then TrimStart(s[1..]) else s
  }

  /** `str.rstrip()`: drops the trailing whitespace. */
  function TrimEnd(s: string): string
  {
    if s != [] && IsSpace(s[|s| - 1]) then TrimEnd(s[..|s| - 1]) else s
  }

  /** What `lstrip` drops is whitespace, and what it keeps starts with something else. */
  lemma {:induction false} TrimStartSpec(s: string)
    ensures var r := TrimStart(s);
      && |r| <= |s| && r == s[|s| - |r|..]
      && (r != [] ==> !IsSpace(r[0]))
      && (forall k :: 0 <= k < |s| - |r| ==> IsSpace(s[k]))
  {
    if s != [] && IsSpace(s[0]) {
      TrimStartSpec(s[1..]);
    }
  }

  /** What `rstrip` drops is whitespace, and what it keeps ends with something else. */
  lemma {:induction false} TrimEndSpec(s: string)
    ensures var r := TrimEnd(s);
      && |r| <= |s| && r == s[..|r|]
      && (r != [] ==> !IsSpace(r[|r| - 1]))
      && (forall k :: |r| <= k < |s| ==> IsSpace(s[k]))
  {
    if s != [] && IsSpace(s[|s| - 1]) {
      TrimEndSpec(s[..|s| - 1]);
    }
  }

  /** `str.strip()`. */
  function Strip(s: string): string
  {
    TrimEnd(TrimStart(s))
  }

  /**
   * The stripped text is the slice of `s` between a run of leading and a run
   * of trailing whitespace, and it neither starts nor ends with whitespace.
   */
  lemma StripSpec(s: string)
    ensures var r := Strip(s); var i := |s| - |TrimStart(s)|;
      && 0 <= i && i + |r| <= |s| && r == s[i..i + |r|]
      && (forall k :: 0 <= k < i ==> IsSpace(s[k]))
      && (forall k :: i + |r| <= k < |s| ==> IsSpace(s[k]))
      && (r != [] ==> !IsSpace(r[0]) && !IsSpace(r[|r| - 1]))
  {
    var t := TrimStart(s);
    var r := Strip(s);
    var i := |s| - |t|;
    TrimStartSpec(s);
    TrimEndSpec(t);
    assert r == t[..|r|];
    forall k | i + |r| <= k < |s| ensures IsSpace(s[k]) {
      assert s[k] == t[k - i];
    }
  }

  /** It is the only such slice: any cut of `s` into whitespace, a trimmed middle and whitespace finds it. */
  lemma StripUnique(s: string, i: int, j: int)
    requires 0 <= i <= j <= |s|
    requires forall k :: 0 <= k < i ==> IsSpace(s[k])
    requires forall k :: j <= k < |s| ==> IsSpace(s[k])
    requires i < j ==> !IsSpace(s[i]) && !IsSpace(s[j - 1])
    ensures Strip(s) == s[i..j]
  {
    StripSpec(s);
    var t := TrimStart(s);
    var r := Strip(s);
    var i' := |s| - |t|;
    TrimStartSpec(s);
    if i < j {
      // The first non-space character of `s` is at `i`, and the last at `j - 1`.
      assert !IsSpace(s[i]) && !IsSpace(s[j - 1]);
      assert t[0] == s[i'];
      assert r[|r| - 1] == s[i' + |r| - 1];
    } else {
      assert forall k :: 0 <= k < |s| ==> IsSpace(s[k]);
      assert |t| == 0;
    }
  }

  /** Stripping twice is stripping once. */
  lemma StripIdempotent(s: string)
    ensures Strip(Strip(s)) == Strip(s)
  {
    var r := Strip(s);
    StripSpec(s);
    StripUnique(r, 0, |r|);
  }

  /** A stripped line names a ticker when it is neither empty nor a `#` comment. */
  predicate IsTickerLine(t: string)
  {
    t != [] && t[0] != '#'
  }

  /**
   * The ticker-list comprehension: every line is stripped, and the stripped
   * lines that are neither empty nor comments are kept, in file order.
   */
  function ParseTickers(lines: seq<string>): (tickers: seq<string>)
    ensures |tickers| <= |lines|
  {
    if lines == [] then []
    else
      var t := Strip(lines[0]);
      (if IsTickerLine(t) then [t] else []) + ParseTickers(lines[1..])
  }

  /** Parsing two halves of a file gives the tickers of the first, then those of the second. */
  lemma {:induction false} ParseTickersAppend(a: seq<string>, b: seq<string>)
    ensures ParseTickers(a + b) == ParseTickers(a) + ParseTickers(b)
  {
    if a != [] {
      assert (a + b)[0] == a[0];
      assert (a + b)[1..] == a[1..] + b;
      ParseTickersAppend(a[1..], b);
    } else {
      assert a + b == b;
    }
  }

  /**
   * The tickers are exactly the stripped lines that are ticker lines; each is
   * already stripped, non-empty and not a comment.
   */
  lemma {:induction false} ParseTickersSpec(lines: seq<string>)
    ensures forall t :: t in ParseTickers(lines) <==> exists l :: l in lines && Strip(l) == t && IsTickerLine(t)
    ensures forall t :: t in ParseTickers(lines) ==> Strip(t) == t && t != [] && t[0] != '#'
  {
    if lines != [] {
      ParseTickersSpec(lines[1..]);
      StripIdempotent(lines[0]);
      forall t | exists l :: l in lines && Strip(l) == t && IsTickerLine(t)
        ensures t in ParseTickers(lines)
      {
        var l :| l in lines && Strip(l) == t && IsTickerLine(t);
        if l != lines[0] {
          assert l in lines[1..];
        }
      }
    }
  }

  /** The thirteen intervals both scripts download, in this order. */
  const Intervals: seq<string> := ["1m", "2m", "5m", "15m", "30m", "60m", "90m", "1h", "1d", "5d", "1wk", "1mo", "3mo"]

  /** `periodos_por_intervalo`. */
  const PeriodTable: map<string, string> := map[
    "1m" := "7d", "2m" := "60d", "5m" := "60d", "15m" := "60d", "30m" := "60d",
    "60m" := "730d", "90m" := "60d", "1h" := "730d",
    "1d" := "max", "5d" := "max", "1wk" := "max", "1mo" := "max", "3mo" := "max"]

  /** `periodos_por_intervalo.get(interval, "max")`. */
  function PeriodFor(interval: string): string
  {
    if interval in PeriodTable then PeriodTable[interval] else "max"
  }

  /**
   * One minute gets seven days, the other minute intervals and 90 minutes
   * sixty days, hourly intervals two years, and every other interval,
   * listed or not, the whole history. Every downloaded interval is listed.
   */
  lemma PeriodForSpec(interval: string)
    ensures PeriodFor(interval) == "7d" <==> interval == "1m"
    ensures PeriodFor(interval) == "60d" <==> interval in {"2m", "5m", "15m", "30m", "90m"}
    ensures PeriodFor(interval) == "730d" <==> interval in {"60m", "1h"}
    ensures PeriodFor(interval) == "max" <==> interval !in {"1m", "2m", "5m", "15m", "30m", "60m", "90m", "1h"}
    ensures interval in Intervals <==> interval in PeriodTable
  {
    PeriodTableListed(interval);
    if interval !in PeriodTable {
      assert PeriodFor(interval) == "max";
    }
  }

  /** The table lists exactly the downloaded intervals. */
  lemma PeriodTableListed(interval: string)
    ensures interval in Intervals <==> interval in PeriodTable
  {
  }

  /** The provider symbol of a forex ticker: the pair with `=X` appended. */
  function ForexSymbol(ticker: string): (symbol: string)
  {
    ticker + "=X"
  }

  /** The symbol ends in `=X`, and dropping those two characters gives back the ticker, so no two tickers share a symbol. */
  lemma ForexSymbolSpec(t1: string, t2: string)
    ensures |ForexSymbol(t1)| == |t1| + 2 && ForexSymbol(t1)[|t1|..] == "=X"
    ensures ForexSymbol(t1)[..|t1|] == t1
    ensures ForexSymbol(t1) == ForexSymbol(t2) <==> t1 == t2
  {
    if ForexSymbol(t1) == ForexSymbol(t2) {
      assert t1 == ForexSymbol(t1)[..|t1|];
      assert t2 == ForexSymbol(t2)[..|t2|];
    }
  }

  /** `f"{ticker}_{interval}.csv"`. */
  function DataFileName(ticker: string, interval: string): string
  {
    ticker + "_" + interval + ".csv"
  }

  /**
   * `os.path.join(dir, name)` on POSIX: an absolute `name` replaces the
   * directory; otherwise a separator is inserted unless `dir` is empty or
   * already ends in one.
   */
  function JoinPath(dir: string, name: string): (p: string)
  {
    if name != [] && name[0] == '/' then name
    else if dir == [] || dir[|dir| - 1] == '/' then dir + name
    else dir + "/" + name
  }

  /** A relative name lands inside the directory: the path is the directory, a separator, and the name. */
  lemma JoinPathInside(dir: string, name: string)
    requires dir != [] && (name == [] || name[0] != '/')
    ensures var p := JoinPath(dir, name);
      && |p| > |name| && p[|p| - |name|..] == name && p[|p| - |name| - 1] == '/'
      && (p[..|dir|] == dir)
  {
  }
}
