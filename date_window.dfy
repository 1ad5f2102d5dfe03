/** The chronological rules a marathon's three dates must satisfy:
    registration opens, registration closes, the race starts. */
module DateWindow {
  import opened Common

  /** A JavaScript Date: a time value, or the invalid date that `new Date(x)`
      yields when x is missing or unparsable. Every comparison with an
      invalid date is false. */
  datatype Instant = InvalidDate | At(t: int)

  predicate Lt(a: Instant, b: Instant) {
    a.At? && b.At? && a.t < b.t
  }

  predicate Le(a: Instant, b: Instant) {
    a.At? && b.At? && a.t <= b.t
  }

  /** The checks of marathon creation, in order; the first violation wins.
      A missing date fails no comparison here (schema validation rejects it
      afterwards). */
  function CheckCreate(start: Instant, end: Instant, race: Instant, now: int): (r: Option<Reason>)
    ensures r == Some(StartInPast) <==> Lt(start, At(now))
    ensures r == Some(EndNotAfterStart) <==> !Lt(start, At(now)) && Le(end, start)
    ensures r == Some(RaceNotAfterEnd) <==> !Lt(start, At(now)) && !Le(end, start) && Le(race, end)
    ensures r.None? || r.value in {StartInPast, EndNotAfterStart, RaceNotAfterEnd}
    ensures start.At? && end.At? && race.At? ==>
              (r.None? <==> now <= start.t < end.t < race.t)
  {
    if Lt(start, At(now)) then Some(StartInPast)
    else if Le(end, start) then Some(EndNotAfterStart)
    else if Le(race, end) then Some(RaceNotAfterEnd)
    else None
  }

  /** The checks of a marathon update on the merged dates. The not-in-the-past
      rule belongs to creation only: `now` is not an input here. */
  function CheckUpdate(start: int, end: int, race: int): (r: Option<Reason>)
    ensures r.None? <==> start < end < race
    ensures r == Some(EndNotAfterStart) <==> end <= start
    ensures r == Some(RaceNotAfterEnd) <==> start < end && race <= end
    ensures r.None? || r.value in {EndNotAfterStart, RaceNotAfterEnd}
  {
    if end <= start then Some(EndNotAfterStart)
    else if race <= end then Some(RaceNotAfterEnd)
    else None
  }

  /** The merge of a supplied update date over the stored one, with every
      supplied date taken as given (a date of 0 included). The source's
      `req.body.x || marathon.x` differs on a falsy 0; that form is
      `Requests.MergeAsWritten`. */
  function Merge(supplied: Option<int>, stored: int): (d: int)
    ensures supplied.Some? ==> d == supplied.value
    ensures supplied.None? ==> d == stored
  {
    supplied.GetOr(stored)
  }
}
