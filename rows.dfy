/**
 * Candle rows keyed by their timestamp, and the pandas idioms the downloaders
 * apply to them: `drop_duplicates(subset=key, keep='first' | 'last')` and
 * `sort_values(by=key)`.
 */
module Rows {

  /** One stored candle: the value of the timestamp column and the other cells. */
  datatype Row = Row(time: int, values: seq<string>)

  function Keys(rows: seq<Row>): set<int>
  {
    set r | r in rows :: r.time
  }

  predicate UniqueKeys(rows: seq<Row>)
  {
    forall i, j :: 0 <= i < j < |rows| ==> rows[i].time != rows[j].time
  }

  /** Strictly ascending timestamps (which implies unique ones). */
  predicate Ascending(rows: seq<Row>)
  {
    forall i, j :: 0 <= i < j < |rows| ==> rows[i].time < rows[j].time
  }

  lemma KeysAppend(a: seq<Row>, b: seq<Row>)
    ensures Keys(a + b) == Keys(a) + Keys(b)
  {
    forall k | k in Keys(a + b) ensures k in Keys(a) + Keys(b) {
      var r :| r in a + b && r.time == k;
      if r in a { assert k in Keys(a); } else { assert r in b; assert k in Keys(b); }
    }
    forall k | k in Keys(a) + Keys(b) ensures k in Keys(a + b) {
      if k in Keys(a) {
        var r :| r in a && r.time == k;
        assert r in a + b;
      } else {
        var r :| r in b && r.time == k;
        assert r in a + b;
      }
    }
  }

  lemma KeysNil()
    ensures Keys([]) == {}
  {
    var none: seq<Row> := [];
    assert forall r :: r !in none;
  }

  lemma KeysTail(rows: seq<Row>)
    requires rows != []
    ensures Keys(rows) == {rows[0].time} + Keys(rows[1..])
  {
    assert rows == [rows[0]] + rows[1..];
    KeysAppend([rows[0]], rows[1..]);
  }

  lemma KeysInit(rows: seq<Row>)
    requires rows != []
    ensures Keys(rows) == Keys(rows[..|rows| - 1]) + {rows[|rows| - 1].time}
  {
    assert rows == rows[..|rows| - 1] + [rows[|rows| - 1]];
    KeysAppend(rows[..|rows| - 1], [rows[|rows| - 1]]);
  }

  /** The first row, in sequence order, whose timestamp is `k`. */
  function FirstWith(rows: seq<Row>, k: int): (r: Row)
    requires k in Keys(rows)
    ensures r in rows && r.time == k
  {
    KeysTail(rows);
    if rows[0].time == k then rows[0] else FirstWith(rows[1..], k)
  }

  /** The last row, in sequence order, whose timestamp is `k`. */
  function LastWith(rows: seq<Row>, k: int): (r: Row)
    requires k in Keys(rows)
    ensures r in rows && r.time == k
  {
    KeysInit(rows);
    if rows[|rows| - 1].time == k then rows[|rows| - 1] else LastWith(rows[..|rows| - 1], k)
  }

  /** In a concatenation, the first occurrence of a key comes from the left part when it has one. */
  lemma {:induction false} FirstWithAppend(a: seq<Row>, b: seq<Row>, k: int)
    requires k in Keys(a) || k in Keys(b)
    ensures k in Keys(a + b) &&
      FirstWith(a + b, k) == if k in Keys(a) then FirstWith(a, k) else FirstWith(b, k)
  {
    KeysAppend(a, b);
    if a == [] {
      assert a + b == b;
    } else {
      KeysTail(a);
      assert (a + b)[0] == a[0];
      assert (a + b)[1..] == a[1..] + b;
      if a[0].time != k {
        FirstWithAppend(a[1..], b, k);
      }
    }
  }

  /** In a concatenation, the last occurrence of a key comes from the right part when it has one. */
  lemma {:induction false} LastWithAppend(a: seq<Row>, b: seq<Row>, k: int)
    requires k in Keys(a) || k in Keys(b)
    ensures k in Keys(a + b) &&
      LastWith(a + b, k) == if k in Keys(b) then LastWith(b, k) else LastWith(a, k)
  {
    KeysAppend(a, b);
    if b == [] {
      assert a + b == a;
    } else {
      KeysInit(b);
      var n := |a + b|;
      assert (a + b)[n - 1] == b[|b| - 1];
      assert (a + b)[..n - 1] == a + b[..|b| - 1];
      if b[|b| - 1].time != k {
        LastWithAppend(a, b[..|b| - 1], k);
      }
    }
  }

  /** In a sequence without repeated keys, the row carrying a key is its first occurrence. */
  lemma {:induction false} FirstWithUnique(rows: seq<Row>, x: Row)
    requires UniqueKeys(rows) && x in rows
    ensures x.time in Keys(rows) && FirstWith(rows, x.time) == x
  {
    KeysTail(rows);
    if rows[0] != x {
      assert x in rows[1..];
      FirstWithUnique(rows[1..], x);
    }
  }

  /** The three facts `DedupKeepFirst` promises, for a result `r` of `rows`. */
  predicate KeptFirst(rows: seq<Row>, r: seq<Row>)
  {
    && UniqueKeys(r)
    && Keys(r) == Keys(rows)
    && forall x :: x in r ==> x.time in Keys(rows) && x == FirstWith(rows, x.time)
  }

  /** The three facts `DedupKeepLast` promises, for a result `r` of `rows`. */
  predicate KeptLast(rows: seq<Row>, r: seq<Row>)
  {
    && UniqueKeys(r)
    && Keys(r) == Keys(rows)
    && forall x :: x in r ==> x.time in Keys(rows) && x == LastWith(rows, x.time)
  }

  /**
   * `drop_duplicates(keep='first')`: of each group of rows sharing a key,
   * only the earliest survives; survivors keep their relative order.
   */
  function DedupKeepFirst(rows: seq<Row>): (r: seq<Row>)
    ensures UniqueKeys(r)
    ensures Keys(r) == Keys(rows)
    ensures forall x :: x in r ==> x.time in Keys(rows) && x == FirstWith(rows, x.time)
    decreases |rows|
  {
    if rows == [] then []
    else
      var init := rows[..|rows| - 1];
      var last := rows[|rows| - 1];
      var prefix := DedupKeepFirst(init);
      assert rows == init + [last];
      DedupFirstStep(init, last, prefix);
      if last.time in Keys(prefix) then prefix else prefix + [last]
  }

  /** One more row behind the input: it is kept exactly when its key is new. */
  lemma DedupFirstStep(init: seq<Row>, last: Row, prefix: seq<Row>)
    requires KeptFirst(init, prefix)
    ensures KeptFirst(init + [last], if last.time in Keys(prefix) then prefix else prefix + [last])
  {
    var rows := init + [last];
    KeysAppend(init, [last]);
    KeysTail([last]);
    forall x | x in prefix ensures x == FirstWith(rows, x.time) {
      FirstWithAppend(init, [last], x.time);
    }
    if last.time !in Keys(prefix) {
      var r := prefix + [last];
      FirstWithAppend(init, [last], last.time);
      assert last == FirstWith(rows, last.time);
      KeysAppend(prefix, [last]);
      forall i, j | 0 <= i < j < |r| ensures r[i].time != r[j].time {
        if j == |prefix| {
          assert r[i] in prefix;
        }
      }
      forall x | x in r ensures x.time in Keys(rows) && x == FirstWith(rows, x.time) {
        if x != last {
          assert x in prefix;
        }
      }
    }
  }

  /**
   * `drop_duplicates(keep='last')`: of each group of rows sharing a key,
   * only the latest survives; survivors keep their relative order.
   */
  function DedupKeepLast(rows: seq<Row>): (r: seq<Row>)
    ensures UniqueKeys(r)
    ensures Keys(r) == Keys(rows)
    ensures forall x :: x in r ==> x.time in Keys(rows) && x == LastWith(rows, x.time)
    decreases |rows|
  {
    if rows == [] then []
    else
      var first := rows[0];
      var tail := rows[1..];
      var suffix := DedupKeepLast(tail);
      assert rows == [first] + tail;
      DedupLastStep(first, tail, suffix);
      if first.time in Keys(suffix) then suffix else [first] + suffix
  }

  /** One more row in front of the input: it is kept exactly when its key is new. */
  lemma DedupLastStep(first: Row, tail: seq<Row>, suffix: seq<Row>)
    requires KeptLast(tail, suffix)
    ensures KeptLast([first] + tail, if first.time in Keys(suffix) then suffix else [first] + suffix)
  {
    var rows := [first] + tail;
    KeysAppend([first], tail);
    KeysInit([first]);
    forall x | x in suffix ensures x == LastWith(rows, x.time) {
      LastWithAppend([first], tail, x.time);
    }
    if first.time !in Keys(suffix) {
      LastWithAppend([first], tail, first.time);
      KeysAppend([first], suffix);
    }
  }

  lemma AscendingCons(a: Row, s: seq<Row>)
    requires Ascending(s)
    requires forall y :: y in s ==> a.time < y.time
    ensures Ascending([a] + s)
  {
    forall i, j | 0 <= i < j < |[a] + s| ensures ([a] + s)[i].time < ([a] + s)[j].time {
      if i > 0 {
        assert ([a] + s)[i] == s[i - 1] && ([a] + s)[j] == s[j - 1];
      } else {
        assert ([a] + s)[j] == s[j - 1];
      }
    }
  }

  /** The properties of `Insert` for the case where `x` goes in front of `s`. */
  lemma InsertFront(x: Row, s: seq<Row>)
    requires Ascending(s) && s != [] && x.time < s[0].time
    ensures Ascending([x] + s)
    ensures Keys([x] + s) == Keys(s) + {x.time}
  {
    forall y | y in s ensures x.time < y.time {
      var j :| 0 <= j < |s| && s[j] == y;
      assert j == 0 || s[0].time < s[j].time;
    }
    AscendingCons(x, s);
    KeysAppend([x], s);
  }

  /** The properties of `Insert` for the case where `x` goes after the head of `s`. */
  lemma InsertBehind(x: Row, s: seq<Row>, rest: seq<Row>)
    requires Ascending(s) && s != [] && s[0].time < x.time
    requires Ascending(rest) && Keys(rest) == Keys(s[1..]) + {x.time}
    requires multiset(rest) == multiset(s[1..]) + multiset{x}
    ensures Ascending([s[0]] + rest)
    ensures multiset([s[0]] + rest) == multiset(s) + multiset{x}
    ensures Keys([s[0]] + rest) == Keys(s) + {x.time}
  {
    InsertBehindOrder(x, s, rest);
    InsertBehindContents(x, s, rest);
  }

  lemma InsertBehindOrder(x: Row, s: seq<Row>, rest: seq<Row>)
    requires Ascending(s) && s != [] && s[0].time < x.time
    requires Ascending(rest)
    requires multiset(rest) == multiset(s[1..]) + multiset{x}
    ensures Ascending([s[0]] + rest)
  {
    var t := s[1..];
    forall y | y in rest ensures s[0].time < y.time {
      assert y in multiset(rest);
      if y != x {
        assert y in multiset(t);
        var j :| 0 <= j < |t| && t[j] == y;
        assert s[j + 1] == y;
      }
    }
    AscendingCons(s[0], rest);
  }

  lemma InsertBehindContents(x: Row, s: seq<Row>, rest: seq<Row>)
    requires s != []
    requires Keys(rest) == Keys(s[1..]) + {x.time}
    requires multiset(rest) == multiset(s[1..]) + multiset{x}
    ensures multiset([s[0]] + rest) == multiset(s) + multiset{x}
    ensures Keys([s[0]] + rest) == Keys(s) + {x.time}
  {
    var t := s[1..];
    assert s == [s[0]] + t;
    KeysAppend([s[0]], rest);
    KeysTail(s);
    assert multiset(s) == multiset{s[0]} + multiset(t);
  }

  /** The tail of a non-empty ascending sequence is ascending and lacks the keys the whole lacks. */
  lemma InsertTail(x: Row, s: seq<Row>)
    requires Ascending(s) && x.time !in Keys(s) && s != []
    ensures Ascending(s[1..]) && x.time !in Keys(s[1..])
    ensures Keys(s) == {s[0].time} + Keys(s[1..])
  {
    KeysTail(s);
    forall i, j | 0 <= i < j < |s[1..]| ensures s[1..][i].time < s[1..][j].time {
      assert s[1..][i] == s[i + 1] && s[1..][j] == s[j + 1];
    }
  }

  /** Inserts a row with a new key into an ascending sequence. */
  function Insert(x: Row, s: seq<Row>): (r: seq<Row>)
    requires Ascending(s) && x.time !in Keys(s)
    ensures Ascending(r)
    ensures multiset(r) == multiset(s) + multiset{x}
    ensures Keys(r) == Keys(s) + {x.time}
  {
    if s == [] then [x]
    else if x.time < s[0].time then
      InsertFront(x, s);
      [x] + s
    else
      InsertTail(x, s);
      var rest := Insert(x, s[1..]);
      InsertBehind(x, s, rest);
      [s[0]] + rest
  }

  lemma UniqueTail(s: seq<Row>)
    requires UniqueKeys(s) && s != []
    ensures UniqueKeys(s[1..])
    ensures s[0].time !in Keys(s[1..])
    ensures Keys(s) == Keys(s[1..]) + {s[0].time}
    ensures multiset(s) == multiset(s[1..]) + multiset{s[0]}
  {
    forall y | y in s[1..] ensures y.time != s[0].time {
      var j :| 0 <= j < |s[1..]| && s[1..][j] == y;
      assert s[j + 1] == y;
    }
    KeysTail(s);
    assert s == [s[0]] + s[1..];
  }

  /**
   * `sort_values(by=key)` on rows whose keys are already unique (every call
   * site sorts right after a `drop_duplicates`, so ties never arise and the
   * sort's stability does not matter).
   */
  function SortByTime(s: seq<Row>): (r: seq<Row>)
    requires UniqueKeys(s)
    ensures Ascending(r)
    ensures multiset(r) == multiset(s)
    ensures Keys(r) == Keys(s)
  {
    if s == [] then []
    else
      UniqueTail(s);
      var rest := SortByTime(s[1..]);
      Insert(s[0], rest)
  }

  lemma AscendingUnique(rows: seq<Row>)
    requires Ascending(rows)
    ensures UniqueKeys(rows)
  {
  }

  /**
   * The merge of the crypto downloaders: existing rows first, then incoming
   * ones, keep-first de-duplication, ascending sort.
   */
  function MergeKeepFirst(existing: seq<Row>, incoming: seq<Row>): (r: seq<Row>)
  {
    SortByTime(DedupKeepFirst(existing + incoming))
  }

  /** The merge of the stocks script: the same, but keep-last, so fresh rows win. */
  function MergeKeepLast(existing: seq<Row>, incoming: seq<Row>): (r: seq<Row>)
  {
    SortByTime(DedupKeepLast(existing + incoming))
  }

  /**
   * Keep-first merge: timestamps ascending and unique, the key set is the
   * union of both inputs, and on a shared timestamp the existing row wins.
   */
  lemma MergeKeepFirstSpec(existing: seq<Row>, incoming: seq<Row>)
    ensures var r := MergeKeepFirst(existing, incoming);
      && Ascending(r)
      && Keys(r) == Keys(existing) + Keys(incoming)
      && (forall x :: x in r ==> x in existing + incoming)
      && (forall x :: x in r && x.time in Keys(existing) ==> x == FirstWith(existing, x.time))
      && (forall x :: x in r && x.time !in Keys(existing) ==> x.time in Keys(incoming) && x == FirstWith(incoming, x.time))
  {
    var d := DedupKeepFirst(existing + incoming);
    var r := MergeKeepFirst(existing, incoming);
    KeysAppend(existing, incoming);
    forall x | x in r
      ensures x in existing + incoming
      ensures x.time in Keys(existing) ==> x == FirstWith(existing, x.time)
      ensures x.time !in Keys(existing) ==> x.time in Keys(incoming) && x == FirstWith(incoming, x.time)
    {
      assert x in multiset(r);
      assert x in d;
      FirstWithAppend(existing, incoming, x.time);
    }
  }

  /**
   * Keep-last merge: timestamps ascending and unique, the key set is the
   * union of both inputs, and on a shared timestamp the fresh row wins.
   */
  lemma MergeKeepLastSpec(existing: seq<Row>, incoming: seq<Row>)
    ensures var r := MergeKeepLast(existing, incoming);
      && Ascending(r)
      && Keys(r) == Keys(existing) + Keys(incoming)
      && (forall x :: x in r ==> x in existing + incoming)
      && (forall x :: x in r && x.time in Keys(incoming) ==> x == LastWith(incoming, x.time))
      && (forall x :: x in r && x.time !in Keys(incoming) ==> x.time in Keys(existing) && x == LastWith(existing, x.time))
  {
    var d := DedupKeepLast(existing + incoming);
    var r := MergeKeepLast(existing, incoming);
    KeysAppend(existing, incoming);
    forall x | x in r
      ensures x in existing + incoming
      ensures x.time in Keys(incoming) ==> x == LastWith(incoming, x.time)
      ensures x.time !in Keys(incoming) ==> x.time in Keys(existing) && x == LastWith(existing, x.time)
    {
      assert x in multiset(r);
      assert x in d;
      LastWithAppend(existing, incoming, x.time);
    }
  }

  /**
   * Merging the already de-duplicated and sorted incoming batch gives the same
   * rows as merging the raw batch: pre-processing the batch loses nothing.
   */
  lemma {:induction false} MergeOfCleanedBatch(existing: seq<Row>, batch: seq<Row>, x: Row)
    requires x in MergeKeepFirst(existing, SortByTime(DedupKeepFirst(batch)))
    ensures x.time in Keys(existing) + Keys(batch)
    ensures x == if x.time in Keys(existing) then FirstWith(existing, x.time) else FirstWith(batch, x.time)
  {
    var cleaned := SortByTime(DedupKeepFirst(batch));
    MergeKeepFirstSpec(existing, cleaned);
    if x.time !in Keys(existing) {
      var y := FirstWith(cleaned, x.time);
      assert y in multiset(cleaned);
      assert y in DedupKeepFirst(batch);
      AscendingUnique(cleaned);
      FirstWithUnique(cleaned, y);
    }
  }
}
