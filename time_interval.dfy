/** `util.TimeIsInValidInterval` (server/util/misc.go): whether an instant
    lies in an interval whose two ends must both be set. */
module TimeInterval {
  import opened JsonTime

  /** The interval is closed: `time.Before(start)` and `time.After(end)` are
      strict, so both ends belong to it. */
  function TimeIsInValidInterval(time: int, start: SqlNullTime, end: SqlNullTime): (r: bool)
    ensures r <==> start.valid && end.valid && start.time <= time <= end.time
  {
    if !start.valid || !end.valid then false
    else if time < start.time || time > end.time then false
    else true
  }

  /** A missing end rules out every instant. */
  lemma UnsetBoundIsClosed(time: int, start: SqlNullTime, end: SqlNullTime)
    requires !start.valid || !end.valid
    ensures !TimeIsInValidInterval(time, start, end)
  {
  }

  /** An interval whose start lies after its end contains no instant. */
  lemma ReversedIntervalIsEmpty(time: int, start: SqlNullTime, end: SqlNullTime)
    requires start.valid && end.valid && start.time > end.time
    ensures !TimeIsInValidInterval(time, start, end)
  {
  }

  /** Both ends are inside a well-formed interval. */
  lemma EndsAreInside(start: SqlNullTime, end: SqlNullTime)
    requires start.valid && end.valid && start.time <= end.time
    ensures TimeIsInValidInterval(start.time, start, end)
    ensures TimeIsInValidInterval(end.time, start, end)
  {
  }
}
