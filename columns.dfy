/**
 * Column-header normalisation shared by the yfinance downloaders: tuple
 * labels are flattened to their first element, the provider's capitalised
 * names are renamed to lower case, `Adj Close` is dropped and the frame is
 * projected onto the fixed list `datetime, open, high, low, close, volume`.
 *
 * Headers are lists of names and may hold the same name twice, as pandas
 * allows; selecting a name then selects every column carrying it.
 */
module YfColumns {
  import opened Common

  /** A column label: a plain name, or a tuple such as yfinance's `("Close", "BTC-USD")`. */
  datatype Label = Name(name: string) | Tuple(first: string, rest: seq<string>)

  /**
   * The columns of a downloaded frame: a `MultiIndex` (level 0 and the other
   * levels of each column) or a flat index of labels.
   */
  datatype ColumnIndex =
    | MultiIndex(levels: seq<(string, seq<string>)>)
    | FlatIndex(labels: seq<Label>)

  function Width(cols: ColumnIndex): nat
  {
    match cols
    case MultiIndex(levels) => |levels|
    case FlatIndex(labels) => |labels|
  }

  function FirstName(l: Label): string
  {
    match l
    case Name(n) => n
    case Tuple(f, _) => f
  }

  /** The header after flattening, as a value. */
  function Flattened(cols: ColumnIndex): seq<string>
  {
    match cols
    case MultiIndex(levels) => seq(|levels|, i requires 0 <= i < |levels| => levels[i].0)
    case FlatIndex(labels) => seq(|labels|, i requires 0 <= i < |labels| => FirstName(labels[i]))
  }

  /**
   * `flatten_columns`: a `MultiIndex` keeps its level 0; otherwise the loop
   * replaces each tuple label by its first element and keeps every other
   * name. The column count never changes.
   */
  method FlattenColumns(cols: ColumnIndex) returns (names: seq<string>)
    ensures |names| == Width(cols)
    ensures cols.MultiIndex? ==> forall i :: 0 <= i < |names| ==> names[i] == cols.levels[i].0
    ensures cols.FlatIndex? ==> forall i :: 0 <= i < |names| ==>
      (cols.labels[i].Tuple? ==> names[i] == cols.labels[i].first) &&
      (cols.labels[i].Name? ==> names[i] == cols.labels[i].name)
    ensures names == Flattened(cols)
  {
    match cols {
      case MultiIndex(levels) =>
        names := seq(|levels|, i requires 0 <= i < |levels| => levels[i].0);
      case FlatIndex(labels) =>
        names := [];
        var i := 0;
        while i < |labels|
          invariant 0 <= i <= |labels|
          invariant |names| == i
          invariant forall j :: 0 <= j < i ==> names[j] == FirstName(labels[j])
        {
          match labels[i] {
            case Tuple(f, _) => names := names + [f];
            case Name(n) => names := names + [n];
          }
          i := i + 1;
        }
    }
  }

  /** Flattening an index that already holds plain names changes nothing. */
  lemma FlattenPlainNames(names: seq<string>)
    ensures Flattened(FlatIndex(seq(|names|, i requires 0 <= i < |names| => Name(names[i])))) == names
  {
  }

  // ---------------------------------------------------------------------
  // Renaming, dropping, projecting
  // ---------------------------------------------------------------------

  /** The renaming `unify_columns` applies to a column that is present. */
  function Standard(c: string): Option<string>
  {
    if c == "Date" || c == "Datetime" then Some("datetime")
    else if c == "Open" then Some("open")
    else if c == "High" then Some("high")
    else if c == "Low" then Some("low")
    else if c == "Close" then Some("close")
    else if c == "Volume" then Some("volume")
    else None
  }

  /** The renaming of the single-request (historical) downloads: as above but without `Datetime`. */
  function HistoricStandard(c: string): Option<string>
  {
    if c == "Datetime" then None else Standard(c)
  }

  /** The new name of column `c`. */
  function Renaming(c: string): string
  {
    Standard(c).GetOr(c)
  }

  /** `rename_map`, filled with an entry for each renamable column that is present. */
  function RenameMap(h: seq<string>): (m: map<string, string>)
    ensures forall c :: c in m <==> c in h && Standard(c).Some?
  {
    map c | c in h && Standard(c).Some? :: Standard(c).value
  }

  /** `df.rename(columns=m)`: each column whose name is a key of `m` takes the mapped name. */
  function Rename(h: seq<string>, m: map<string, string>): (r: seq<string>)
    ensures |r| == |h|
  {
    seq(|h|, i requires 0 <= i < |h| => if h[i] in m then m[h[i]] else h[i])
  }

  /** The header after the renaming step of `unify_columns`. */
  function Renamed(h: seq<string>): seq<string>
  {
    Rename(h, RenameMap(h))
  }

  /**
   * Building the map from the present columns gives the same header as
   * renaming every column through the fixed table.
   */
  lemma RenamedPointwise(h: seq<string>)
    ensures |Renamed(h)| == |h|
    ensures forall i :: 0 <= i < |h| ==> Renamed(h)[i] == Renaming(h[i])
  {
  }

  /** `df.drop(columns=[c])`: every column named `c` goes. */
  function DropAll(h: seq<string>, c: string): (r: seq<string>)
    ensures forall x :: x in r <==> x in h && x != c
  {
    if h == [] then []
    else (if h[0] == c then [] else [h[0]]) + DropAll(h[1..], c)
  }

  /** Number of columns named `c`. */
  function Count(h: seq<string>, c: string): nat
  {
    if h == [] then 0 else (if h[0] == c then 1 else 0) + Count(h[1..], c)
  }

  function Repeat(c: string, n: nat): (r: seq<string>)
    ensures |r| == n && forall x :: x in r ==> x == c
  {
    if n == 0 then [] else [c] + Repeat(c, n - 1)
  }

  /** `[w for w in ws if w in h]`. */
  function Present(ws: seq<string>, h: seq<string>): (r: seq<string>)
    ensures forall x :: x in r <==> x in ws && x in h
  {
    if ws == [] then []
    else (if ws[0] in h then [ws[0]] else []) + Present(ws[1..], h)
  }

  /** The header of `df[ws]`: for each requested name, every column carrying it. */
  function Pick(h: seq<string>, ws: seq<string>): seq<string>
  {
    if ws == [] then [] else Repeat(ws[0], Count(h, ws[0])) + Pick(h, ws[1..])
  }

  predicate NoDuplicates(s: seq<string>)
  {
    forall i, j :: 0 <= i < j < |s| ==> s[i] != s[j]
  }

  const FinalColumns: seq<string> := ["datetime", "open", "high", "low", "close", "volume"]

  lemma FinalColumnsDistinct()
    ensures NoDuplicates(FinalColumns)
  {
  }

  /**
   * `unify_columns` on a header. `None` when the renaming leaves two
   * `datetime` columns: `pd.to_datetime` then receives a frame and raises.
   */
  function Unified(h: seq<string>): Option<seq<string>>
  {
    var r := DropAll(Renamed(h), "Adj Close");
    if Count(r, "datetime") > 1 then None
    else Some(Pick(r, Present(FinalColumns, r)))
  }

  /**
   * The header of the single-request download after renaming, dropping,
   * `pd.to_datetime(df["datetime"])` and `df[FinalColumns]`. `None` when
   * `datetime` is missing or doubled, or another final column is missing:
   * pandas raises there.
   */
  function HistoricColumns(h: seq<string>): Option<seq<string>>
  {
    var r := DropAll(seq(|h|, i requires 0 <= i < |h| => HistoricStandard(h[i]).GetOr(h[i])), "Adj Close");
    if Count(r, "datetime") == 1 && forall w :: w in FinalColumns ==> w in r then Some(Pick(r, FinalColumns))
    else None
  }

  // ---------------------------------------------------------------------
  // Counting facts
  // ---------------------------------------------------------------------

  lemma {:induction false} CountAppend(a: seq<string>, b: seq<string>, c: string)
    ensures Count(a + b, c) == Count(a, c) + Count(b, c)
  {
    if a != [] {
      assert (a + b)[1..] == a[1..] + b;
      CountAppend(a[1..], b, c);
    } else {
      assert a + b == b;
    }
  }

  lemma {:induction false} CountPositive(h: seq<string>, c: string)
    ensures Count(h, c) > 0 <==> c in h
  {
    if h != [] {
      CountPositive(h[1..], c);
      assert h == [h[0]] + h[1..];
    }
  }

  lemma {:induction false} CountRepeat(w: string, n: nat, c: string)
    ensures Count(Repeat(w, n), c) == if w == c then n else 0
  {
    if n > 0 {
      CountRepeat(w, n - 1, c);
      assert Repeat(w, n)[1..] == Repeat(w, n - 1);
    }
  }

  /** A name occurs in `df[ws]` exactly as often as in `df`, when requested once. */
  lemma {:induction false} CountPick(h: seq<string>, ws: seq<string>, c: string)
    requires NoDuplicates(ws)
    ensures Count(Pick(h, ws), c) == if c in ws then Count(h, c) else 0
  {
    if ws != [] {
      CountAppend(Repeat(ws[0], Count(h, ws[0])), Pick(h, ws[1..]), c);
      CountRepeat(ws[0], Count(h, ws[0]), c);
      assert NoDuplicates(ws[1..]) by {
        forall i, j | 0 <= i < j < |ws[1..]| ensures ws[1..][i] != ws[1..][j] {
          assert ws[1..][i] == ws[i + 1] && ws[1..][j] == ws[j + 1];
        }
      }
      CountPick(h, ws[1..], c);
      assert c in ws <==> c == ws[0] || c in ws[1..] by { assert ws == [ws[0]] + ws[1..]; }
      if c == ws[0] {
        assert ws[0] !in ws[1..] by {
          forall k | 0 <= k < |ws[1..]| ensures ws[1..][k] != ws[0] {
            assert ws[1..][k] == ws[k + 1];
          }
        }
      }
    }
  }

  lemma {:induction false} InPick(h: seq<string>, ws: seq<string>, c: string)
    ensures c in Pick(h, ws) <==> c in ws && c in h
  {
    if ws != [] {
      InPick(h, ws[1..], c);
      CountPositive(h, ws[0]);
      assert c in ws <==> c == ws[0] || c in ws[1..] by { assert ws == [ws[0]] + ws[1..]; }
      if c == ws[0] && c in h {
        assert Repeat(ws[0], Count(h, ws[0]))[0] == c;
      }
    }
  }

  lemma {:induction false} PickCongruent(a: seq<string>, b: seq<string>, ws: seq<string>)
    requires forall w :: w in ws ==> Count(a, w) == Count(b, w)
    ensures Pick(a, ws) == Pick(b, ws)
  {
    if ws != [] {
      assert ws[0] in ws;
      assert forall w :: w in ws[1..] ==> w in ws;
      PickCongruent(a, b, ws[1..]);
    }
  }

  lemma {:induction false} PresentCongruent(ws: seq<string>, a: seq<string>, b: seq<string>)
    requires forall w :: w in ws ==> (w in a <==> w in b)
    ensures Present(ws, a) == Present(ws, b)
  {
    if ws != [] {
      assert ws[0] in ws;
      assert forall w :: w in ws[1..] ==> w in ws;
      PresentCongruent(ws[1..], a, b);
    }
  }

  lemma {:induction false} PresentNoDuplicates(ws: seq<string>, h: seq<string>)
    requires NoDuplicates(ws)
    ensures NoDuplicates(Present(ws, h))
  {
    if ws != [] {
      assert NoDuplicates(ws[1..]) by {
        forall i, j | 0 <= i < j < |ws[1..]| ensures ws[1..][i] != ws[1..][j] {
          assert ws[1..][i] == ws[i + 1] && ws[1..][j] == ws[j + 1];
        }
      }
      PresentNoDuplicates(ws[1..], h);
      var rest := Present(ws[1..], h);
      if ws[0] in h {
        assert ws[0] !in rest by {
          forall k | 0 <= k < |ws[1..]| ensures ws[1..][k] != ws[0] {
            assert ws[1..][k] == ws[k + 1];
          }
        }
        var p := [ws[0]] + rest;
        forall i, j | 0 <= i < j < |p| ensures p[i] != p[j] {
          if i == 0 {
            assert p[j] == rest[j - 1];
          } else {
            assert p[i] == rest[i - 1] && p[j] == rest[j - 1];
          }
        }
      }
    }
  }

  /** When every requested name occurs exactly once, `df[ws]` has exactly the columns `ws`. */
  lemma {:induction false} PickSingletons(h: seq<string>, ws: seq<string>)
    requires forall w :: w in ws ==> Count(h, w) == 1
    ensures Pick(h, ws) == ws
  {
    if ws != [] {
      assert ws[0] in ws;
      assert forall w :: w in ws[1..] ==> w in ws;
      PickSingletons(h, ws[1..]);
      assert Repeat(ws[0], 1) == [ws[0]];
      assert ws == [ws[0]] + ws[1..];
    }
  }

  lemma {:induction false} RenameIdentity(h: seq<string>)
    requires forall c :: c in h ==> c in FinalColumns
    ensures Renamed(h) == h
  {
    forall i | 0 <= i < |h| ensures Renamed(h)[i] == h[i] {
      FinalNotRenamed(h[i]);
    }
  }

  /** A final name is not renamed again: the renamed names all start with a capital. */
  lemma FinalNotRenamed(c: string)
    requires c in FinalColumns
    ensures Standard(c).None?
  {
    assert 'a' <= c[0] <= 'z';
  }

  lemma {:induction false} DropAbsent(h: seq<string>, c: string)
    requires c !in h
    ensures DropAll(h, c) == h
  {
    if h != [] {
      assert h[1..] == h[1..];
      assert forall x :: x in h[1..] ==> x in h;
      DropAbsent(h[1..], c);
      assert h == [h[0]] + h[1..];
    }
  }

  // ---------------------------------------------------------------------
  // What unify_columns promises
  // ---------------------------------------------------------------------

  /**
   * The unified header holds only final names, never `Adj Close`, and a final
   * name exactly when some input column is renamed to it (or already has it).
   */
  lemma UnifiedColumns(h: seq<string>)
    ensures Unified(h).Some? ==>
      && "Adj Close" !in Unified(h).value
      && (forall w :: w in Unified(h).value <==> w in FinalColumns && exists i :: 0 <= i < |h| && Renaming(h[i]) == w)
  {
    if Unified(h).Some? {
      var r := DropAll(Renamed(h), "Adj Close");
      var u := Unified(h).value;
      RenamedPointwise(h);
      forall w ensures w in u <==> w in FinalColumns && exists i :: 0 <= i < |h| && Renaming(h[i]) == w {
        InPick(r, Present(FinalColumns, r), w);
        if w in FinalColumns && exists i :: 0 <= i < |h| && Renaming(h[i]) == w {
          var i :| 0 <= i < |h| && Renaming(h[i]) == w;
          assert Renamed(h)[i] == w;
        }
      }
    }
  }

  /**
   * Without doubled names the unified header is the subsequence of
   * `datetime, open, high, low, close, volume` present after renaming, in that order.
   */
  lemma UnifiedOrder(h: seq<string>)
    requires forall w :: w in FinalColumns ==> Count(DropAll(Renamed(h), "Adj Close"), w) <= 1
    ensures Unified(h) == Some(Present(FinalColumns, DropAll(Renamed(h), "Adj Close")))
  {
    var r := DropAll(Renamed(h), "Adj Close");
    var p := Present(FinalColumns, r);
    forall w | w in p ensures Count(r, w) == 1 {
      CountPositive(r, w);
    }
    PickSingletons(r, p);
  }

  /**
   * `unify_columns` is idempotent: re-applying it to an already unified
   * header (as happens when the saved CSV is read back) changes nothing.
   */
  lemma UnifiedIdempotent(h: seq<string>)
    requires Unified(h).Some?
    ensures Unified(Unified(h).value) == Unified(h)
  {
    var r := DropAll(Renamed(h), "Adj Close");
    var p := Present(FinalColumns, r);
    assert Unified(h) == Some(Pick(r, p));
    PickedClean(r, p);
    PickedRepick(r, p);
  }

  /** Renaming and dropping `Adj Close` leave a picked header of final names as it is. */
  lemma PickedClean(r: seq<string>, p: seq<string>)
    requires p == Present(FinalColumns, r)
    ensures DropAll(Renamed(Pick(r, p)), "Adj Close") == Pick(r, p)
  {
    var u := Pick(r, p);
    forall c | c in u ensures c in FinalColumns {
      InPick(r, p, c);
    }
    RenameIdentity(u);
    InPick(r, p, "Adj Close");
    DropAbsent(u, "Adj Close");
  }

  /** Picking the final names present in a picked header gives it back, with `datetime` still at most once. */
  lemma PickedRepick(r: seq<string>, p: seq<string>)
    requires p == Present(FinalColumns, r) && Count(r, "datetime") <= 1
    ensures Count(Pick(r, p), "datetime") <= 1
    ensures Pick(Pick(r, p), Present(FinalColumns, Pick(r, p))) == Pick(r, p)
  {
    var u := Pick(r, p);
    FinalColumnsDistinct();
    PresentNoDuplicates(FinalColumns, r);
    CountPick(r, p, "datetime");
    forall w | w in FinalColumns ensures w in u <==> w in r {
      InPick(r, p, w);
    }
    PresentCongruent(FinalColumns, u, r);
    forall w | w in p ensures Count(u, w) == Count(r, w) {
      CountPick(r, p, w);
    }
    PickCongruent(u, r, p);
  }

  /**
   * The single-request download keeps exactly the six final columns and
   * never `Adj Close`; when each of them occurs once it is exactly
   * `datetime, open, high, low, close, volume`.
   */
  lemma HistoricColumnsShape(h: seq<string>)
    ensures HistoricColumns(h).Some? ==>
      && "Adj Close" !in HistoricColumns(h).value
      && (forall w :: w in HistoricColumns(h).value <==> w in FinalColumns)
    ensures var r := DropAll(seq(|h|, i requires 0 <= i < |h| => HistoricStandard(h[i]).GetOr(h[i])), "Adj Close");
      (forall w :: w in FinalColumns ==> Count(r, w) == 1) ==> HistoricColumns(h) == Some(FinalColumns)
  {
    var r := DropAll(seq(|h|, i requires 0 <= i < |h| => HistoricStandard(h[i]).GetOr(h[i])), "Adj Close");
    forall w ensures w in Pick(r, FinalColumns) <==> w in FinalColumns && w in r {
      InPick(r, FinalColumns, w);
    }
    if forall w :: w in FinalColumns ==> Count(r, w) == 1 {
      forall w | w in FinalColumns ensures w in r {
        CountPositive(r, w);
      }
      PickSingletons(r, FinalColumns);
    }
  }
}
