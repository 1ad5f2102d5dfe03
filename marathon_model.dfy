/** The Marathon collection: its documents, their validation, and the two
    middleware hooks that keep totalRegistrations from going negative. */
module MarathonModel {
  import opened Common

  /** A stored Marathon document. Dates are millisecond timestamps. */
  datatype Marathon = Marathon(
    title: string,
    location: string,
    description: string,
    image: string,
    startRegistrationDate: int,
    endRegistrationDate: int,
    marathonStartDate: int,
    runningDistance: string,
    totalRegistrations: int,
    organizer: string,
    createdAt: int)

  const DefaultTotalRegistrations: int := 0

  /** The custom validator on totalRegistrations: a non-negative integer
      (integrality is given by the type). */
  predicate ValidCount(n: int) {
    n >= 0
  }

  /** Schema validation: every required string is present and the counter
      passes its validator. The date paths are required too; a document
      value always carries them. */
  predicate ValidMarathon(m: Marathon) {
    && Present(m.title)
    && Present(m.location)
    && Present(m.description)
    && Present(m.image)
    && Present(m.runningDistance)
    && Present(m.organizer)
    && ValidCount(m.totalRegistrations)
  }

  /** The pre('save') hook: a negative counter is replaced by 0. */
  function PreSave(m: Marathon): (r: Marathon)
    ensures ValidCount(r.totalRegistrations)
    ensures ValidCount(m.totalRegistrations) ==> r == m
    ensures !ValidCount(m.totalRegistrations) ==> r == m.(totalRegistrations := 0)
  {
    if m.totalRegistrations < 0 then m.(totalRegistrations := 0) else m
  }

  /** `document.save()`: Mongoose validates before it runs the user's
      pre('save') hooks, so a document that reaches PreSave already has a
      non-negative counter, and what is stored is the document itself. */
  function Save(m: Marathon): (r: Outcome<Marathon>)
    ensures r.Ok? <==> ValidMarathon(m)
    ensures r.Ok? ==> r.value == m
    ensures !r.Ok? ==> r == BadRequest(ValidationFailed)
  {
    if ValidMarathon(m) then Ok(PreSave(m)) else BadRequest(ValidationFailed)
  }

  /** The update document handed to findByIdAndUpdate on the counter:
      `{ $inc: { totalRegistrations: delta } }` or `{ totalRegistrations: value }`. */
  datatype CounterUpdate = Increment(delta: int) | Replace(value: int)

  /** The pre('findOneAndUpdate') hook: a top-level negative
      totalRegistrations in the update is replaced by 0. An `$inc` update has
      no top-level totalRegistrations and passes through. */
  function PreFindOneAndUpdate(u: CounterUpdate): (r: CounterUpdate)
    ensures u.Increment? ==> r == u
    ensures u.Replace? ==> r.Replace? && ValidCount(r.value)
    ensures u.Replace? && ValidCount(u.value) ==> r == u
    ensures u.Replace? && !ValidCount(u.value) ==> r == Replace(0)
  {
    match u
    case Increment(_) => u
    case Replace(v) => if v < 0 then Replace(0) else u
  }

  /** findByIdAndUpdate on the counter: the hook runs, then the update is
      applied without validation (update validators are off). */
  function ApplyCounterUpdate(m: Marathon, u: CounterUpdate): (r: Marathon)
    ensures r == m.(totalRegistrations := r.totalRegistrations)
    ensures u.Increment? ==> r.totalRegistrations == m.totalRegistrations + u.delta
    ensures u.Replace? ==> ValidCount(r.totalRegistrations)
    ensures u.Replace? ==> r.totalRegistrations == if u.value < 0 then 0 else u.value
  {
    match PreFindOneAndUpdate(u)
    case Increment(d) => m.(totalRegistrations := m.totalRegistrations + d)
    case Replace(v) => m.(totalRegistrations := v)
  }
}
