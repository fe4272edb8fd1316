/** Shared vocabulary of the traffic-news harvester: the values a parsed feed
    message holds, the failures of a merge, and the clock. */
module Values {

  /** A wall-clock instant (Asia/Hong_Kong local time, no zone attached), in
      microseconds since 0001-01-01T00:00:00, the origin of Python's datetime. */
  type Instant = int

  const SECOND: int := 1_000_000
  const MINUTE: int := 60 * SECOND
  const HOUR: int := 60 * MINUTE
  const DAY: int := 24 * HOUR

  /** The value of one field of a parsed feed message: text, or None when the
      XML element was empty. */
  datatype Value = Null | Text(s: string)

  /** Python truthiness of a field value: None and '' are false. */
  predicate Truthy(v: Value)
  {
    v.Text? && v.s != ""
  }

  /** A raw incident message (or a message update): field name to value. */
  type Fields = map<string, Value>

  datatype Option<+T> = None | Some(value: T)

  /** Why a merge raised. */
  datatype Error =
    | MissingKey(key: string)  // KeyError on a field the merge insists on
    | LookupFailed             // the district lookup raised

  datatype Result<+T> = Ok(value: T) | Err(error: Error)

  /** What a mutating call that may raise reports to its caller. */
  datatype Outcome = Pass | Fail(error: Error)

  /** `now.replace(microsecond=0)`: the instant written as `now_iso`. */
  function NowIso(now: Instant): (t: Instant)
    ensures t <= now < t + SECOND
    ensures t % SECOND == 0
  {
    now - now % SECOND
  }
}
