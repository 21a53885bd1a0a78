/**
 * The chunked range download shared by the downloaders: `[start, end)` is cut
 * into consecutive windows of at most `chunk` milliseconds and each window is
 * requested on its own; failed or empty windows are skipped.
 */
module Windowing {
  import opened Common

  datatype Window = Window(start: int, end: int)

  /**
   * The windows the `while current_start < end` loop visits. The source never
   * checks that the chunk is positive; with a non-positive chunk its loop
   * makes no progress and never ends, so a positive chunk is required here.
   */
  function Plan(start: int, end: int, chunk: int): (ws: seq<Window>)
    requires chunk > 0
    ensures |ws| == 0 <==> start >= end
    decreases end - start
  {
    if start < end then
      var next := Min(start + chunk, end);
      [Window(start, next)] + Plan(next, end, chunk)
    else []
  }

  /**
   * The windows are contiguous, start at `start`, end exactly at `end`, are
   * non-empty and at most `chunk` long, and all but the last are exactly
   * `chunk` long.
   */
  lemma {:induction false} PlanShape(start: int, end: int, chunk: int)
    requires chunk > 0
    ensures var ws := Plan(start, end, chunk);
      && (|ws| > 0 ==> ws[0].start == start && ws[|ws| - 1].end == end)
      && (forall i :: 0 <= i < |ws| ==> ws[i].start < ws[i].end <= ws[i].start + chunk)
      && (forall i, j :: 0 <= i && j == i + 1 && j < |ws| ==> ws[i].end == ws[j].start)
      && (forall i :: 0 <= i < |ws| - 1 ==> ws[i].end == ws[i].start + chunk)
    decreases end - start
  {
    if start < end {
      var next := Min(start + chunk, end);
      var rest := Plan(next, end, chunk);
      var ws := Plan(start, end, chunk);
      assert ws == [Window(start, next)] + rest;
      PlanShape(next, end, chunk);
      forall i | 0 < i < |ws| ensures ws[i] == rest[i - 1] { }
      if |rest| > 0 {
        assert next < end;
        assert ws[0].end == ws[0].start + chunk;
      }
    }
  }

  /** Every window lies inside `[start, end)`. */
  lemma {:induction false} PlanWithin(start: int, end: int, chunk: int)
    requires chunk > 0
    ensures forall w :: w in Plan(start, end, chunk) ==> start <= w.start && w.end <= end
    decreases end - start
  {
    if start < end {
      var next := Min(start + chunk, end);
      PlanWithin(next, end, chunk);
      assert Plan(start, end, chunk) == [Window(start, next)] + Plan(next, end, chunk);
    }
  }

  /** The windows cover the range exactly: a point lies in some window iff it lies in `[start, end)`. */
  lemma {:induction false} PlanCovers(start: int, end: int, chunk: int, t: int)
    requires chunk > 0
    ensures var ws := Plan(start, end, chunk);
      (start <= t < end) <==> exists i :: 0 <= i < |ws| && ws[i].start <= t < ws[i].end
    decreases end - start
  {
    var ws := Plan(start, end, chunk);
    PlanWithin(start, end, chunk);
    if start <= t < end {
      var next := Min(start + chunk, end);
      var rest := Plan(next, end, chunk);
      assert ws == [Window(start, next)] + rest;
      if t < next {
        assert ws[0].start <= t < ws[0].end;
      } else {
        PlanCovers(next, end, chunk, t);
        var i :| 0 <= i < |rest| && rest[i].start <= t < rest[i].end;
        assert ws[i + 1] == rest[i];
      }
    }
  }

  /** The results of the windows whose request succeeded, in window order. */
  function Successes<T>(ws: seq<Window>, fetch: Window -> Option<T>): seq<T>
  {
    if ws == [] then []
    else
      var init := Successes(ws[..|ws| - 1], fetch);
      match fetch(ws[|ws| - 1])
      case Some(v) => init + [v]
      case None => init
  }

  /** Requesting one more window appends its result, if any. */
  lemma SuccessesSnoc<T>(ws: seq<Window>, w: Window, fetch: Window -> Option<T>)
    ensures Successes(ws + [w], fetch) == Successes(ws, fetch) + (if fetch(w).Some? then [fetch(w).value] else [])
  {
    assert (ws + [w])[..|ws|] == ws;
  }

  /**
   * The loop itself: walk `current_start` from `start` to `end`, request each
   * window and keep the results of those that returned data.
   */
  method FetchAll<T>(start: int, end: int, chunk: int, fetch: Window -> Option<T>)
    returns (ws: seq<Window>, got: seq<T>)
    requires chunk > 0
    ensures ws == Plan(start, end, chunk)
    ensures got == Successes(ws, fetch)
  {
    var current := start;
    ws, got := [], [];
    while current < end
      invariant ws + Plan(current, end, chunk) == Plan(start, end, chunk)
      invariant got == Successes(ws, fetch)
      decreases end - current
    {
      var w := Window(current, Min(current + chunk, end));
      assert Plan(current, end, chunk) == [w] + Plan(w.end, end, chunk);
      assert ws + [w] + Plan(w.end, end, chunk) == ws + ([w] + Plan(w.end, end, chunk));
      SuccessesSnoc(ws, w, fetch);
      ws := ws + [w];
      match fetch(w) {
        case Some(v) => got := got + [v];
        case None =>
      }
      current := w.end;
    }
    assert Plan(current, end, chunk) == [];
  }
}
