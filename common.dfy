/**
 * Shared vocabulary of the model: optional and fallible results, and the
 * millisecond clock arithmetic every downloader uses.
 */
module Common {

  datatype Option<+T> = None | Some(value: T)
  {
    function GetOr(default: T): T
    {
      match this
      case Some(v) => v
      case None => default
    }
  }

  datatype Result<+T, +E> = Ok(value: T) | Err(error: E)

  /** Milliseconds in one second and in one calendar day. */
  const SECOND_MS: int := 1000
  const DAY_MS: int := 86_400_000

  function Min(a: int, b: int): int
  {
    if a <= b then a else b
  }

  /**
   * The start of the day that contains `t`. Requests to the providers are
   * written as day-only strings, so a provider only ever sees this value.
   */
  function DayFloor(t: int): (d: int)
    ensures d <= t < d + DAY_MS
    ensures d % DAY_MS == 0
  {
    (t / DAY_MS) * DAY_MS
  }
}
