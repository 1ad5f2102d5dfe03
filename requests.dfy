/** What the mutating handlers build from a request body before they touch
    the store: a new Marathon, an Object.assign'd Marathon, a new
    Registration, and the allow-listed field update of a Registration. */
module Requests {
  import opened Common
  import opened MarathonModel
  import opened RegistrationModel
  import opened DateWindow
  import opened Counters

  /** The body of a create-marathon request. A field the client left out is
      None; a date that is missing or does not parse is `InvalidDate`, which
      fails every date comparison and makes `NewMarathon` fail validation. */
  datatype MarathonBody = MarathonBody(
    title: Option<string>,
    location: Option<string>,
    description: Option<string>,
    image: Option<string>,
    startRegistrationDate: Instant,
    endRegistrationDate: Instant,
    marathonStartDate: Instant,
    runningDistance: Option<string>)

  /** `new Marathon({...body, organizer, totalRegistrations: 0, createdAt: now})`
      followed by save: the document carries the body's fields, the
      caller as organizer, a zero counter and the creation time; it fails
      validation when a required field is missing or empty. */
  function NewMarathon(b: MarathonBody, organizer: string, now: int): (r: Outcome<Marathon>)
    ensures r.Ok? || r == BadRequest(ValidationFailed)
    ensures r.Ok? <==>
              && b.title.Some? && Present(b.title.value)
              && b.location.Some? && Present(b.location.value)
              && b.description.Some? && Present(b.description.value)
              && b.image.Some? && Present(b.image.value)
              && b.runningDistance.Some? && Present(b.runningDistance.value)
              && b.startRegistrationDate.At? && b.endRegistrationDate.At? && b.marathonStartDate.At?
              && Present(organizer)
    ensures r.Ok? ==>
              && ValidMarathon(r.value)
              && r.value.organizer == organizer
              && r.value.totalRegistrations == DefaultTotalRegistrations
              && r.value.createdAt == now
              && r.value.title == b.title.value
              && r.value.location == b.location.value
              && r.value.description == b.description.value
              && r.value.image == b.image.value
              && r.value.runningDistance == b.runningDistance.value
              && r.value.startRegistrationDate == b.startRegistrationDate.t
              && r.value.endRegistrationDate == b.endRegistrationDate.t
              && r.value.marathonStartDate == b.marathonStartDate.t
  {
    if && b.title.Some? && b.location.Some? && b.description.Some? && b.image.Some?
       && b.runningDistance.Some?
       && b.startRegistrationDate.At? && b.endRegistrationDate.At? && b.marathonStartDate.At?
    then
      Save(Marathon(b.title.value, b.location.value, b.description.value, b.image.value,
                    b.startRegistrationDate.t, b.endRegistrationDate.t, b.marathonStartDate.t,
                    b.runningDistance.value, DefaultTotalRegistrations, organizer, now))
    else BadRequest(ValidationFailed)
  }

  /** The body of an update-marathon request: any schema path may be given. */
  datatype MarathonPatch = MarathonPatch(
    title: Option<string>,
    location: Option<string>,
    description: Option<string>,
    image: Option<string>,
    startRegistrationDate: Option<int>,
    endRegistrationDate: Option<int>,
    marathonStartDate: Option<int>,
    runningDistance: Option<string>,
    totalRegistrations: Option<int>,
    organizer: Option<string>,
    createdAt: Option<int>)

  predicate SuppliesDates(p: MarathonPatch) {
    p.startRegistrationDate.Some? || p.endRegistrationDate.Some? || p.marathonStartDate.Some?
  }

  /** The date check of an update: when any date is supplied, the supplied
      dates merged over the stored ones must be in order. */
  function CheckPatchDates(m: Marathon, p: MarathonPatch): (r: Option<Reason>)
    ensures !SuppliesDates(p) ==> r.None?
    ensures SuppliesDates(p) ==>
              (r.None? <==> Merge(p.startRegistrationDate, m.startRegistrationDate)
                              < Merge(p.endRegistrationDate, m.endRegistrationDate)
                              < Merge(p.marathonStartDate, m.marathonStartDate))
  {
    if SuppliesDates(p) then
      CheckUpdate(Merge(p.startRegistrationDate, m.startRegistrationDate),
                  Merge(p.endRegistrationDate, m.endRegistrationDate),
                  Merge(p.marathonStartDate, m.marathonStartDate))
    else None
  }

  /** `Object.assign(marathon, body)`: every supplied path overwrites the
      stored one, organizer and counter included; a path the body leaves
      out keeps its stored value. */
  function Assign(m: Marathon, p: MarathonPatch): (r: Marathon)
    ensures p.title.Some? ==> r.title == p.title.value
    ensures p.title.None? ==> r.title == m.title
    ensures p.location.Some? ==> r.location == p.location.value
    ensures p.location.None? ==> r.location == m.location
    ensures p.description.Some? ==> r.description == p.description.value
    ensures p.description.None? ==> r.description == m.description
    ensures p.image.Some? ==> r.image == p.image.value
    ensures p.image.None? ==> r.image == m.image
    ensures p.runningDistance.Some? ==> r.runningDistance == p.runningDistance.value
    ensures p.runningDistance.None? ==> r.runningDistance == m.runningDistance
    ensures p.createdAt.Some? ==> r.createdAt == p.createdAt.value
    ensures p.createdAt.None? ==> r.createdAt == m.createdAt
    ensures p.organizer.Some? ==> r.organizer == p.organizer.value
    ensures p.organizer.None? ==> r.organizer == m.organizer
    ensures p.totalRegistrations.Some? ==> r.totalRegistrations == p.totalRegistrations.value
    ensures p.totalRegistrations.None? ==> r.totalRegistrations == m.totalRegistrations
    ensures !SuppliesDates(p) ==>
              && r.startRegistrationDate == m.startRegistrationDate
              && r.endRegistrationDate == m.endRegistrationDate
              && r.marathonStartDate == m.marathonStartDate
    ensures r.startRegistrationDate == Merge(p.startRegistrationDate, m.startRegistrationDate)
    ensures r.endRegistrationDate == Merge(p.endRegistrationDate, m.endRegistrationDate)
    ensures r.marathonStartDate == Merge(p.marathonStartDate, m.marathonStartDate)
    ensures p == MarathonPatch(None, None, None, None, None, None, None, None, None, None, None) ==> r == m
  {
    Marathon(
      p.title.GetOr(m.title),
      p.location.GetOr(m.location),
      p.description.GetOr(m.description),
      p.image.GetOr(m.image),
      p.startRegistrationDate.GetOr(m.startRegistrationDate),
      p.endRegistrationDate.GetOr(m.endRegistrationDate),
      p.marathonStartDate.GetOr(m.marathonStartDate),
      p.runningDistance.GetOr(m.runningDistance),
      p.totalRegistrations.GetOr(m.totalRegistrations),
      p.organizer.GetOr(m.organizer),
      p.createdAt.GetOr(m.createdAt))
  }

  /** A later patch wins over an earlier one, path by path. */
  function Then(p: MarathonPatch, q: MarathonPatch): MarathonPatch {
    MarathonPatch(
      if q.title.Some? then q.title else p.title,
      if q.location.Some? then q.location else p.location,
      if q.description.Some? then q.description else p.description,
      if q.image.Some? then q.image else p.image,
      if q.startRegistrationDate.Some? then q.startRegistrationDate else p.startRegistrationDate,
      if q.endRegistrationDate.Some? then q.endRegistrationDate else p.endRegistrationDate,
      if q.marathonStartDate.Some? then q.marathonStartDate else p.marathonStartDate,
      if q.runningDistance.Some? then q.runningDistance else p.runningDistance,
      if q.totalRegistrations.Some? then q.totalRegistrations else p.totalRegistrations,
      if q.organizer.Some? then q.organizer else p.organizer,
      if q.createdAt.Some? then q.createdAt else p.createdAt)
  }

  /** Two assigns in a row are one assign of the later patch over the
      earlier; so assigning the same patch twice is assigning it once. */
  lemma AssignThen(m: Marathon, p: MarathonPatch, q: MarathonPatch)
    ensures Assign(Assign(m, p), q) == Assign(m, Then(p, q))
    ensures Assign(Assign(m, p), p) == Assign(m, p)
  {
    assert Then(p, p) == p;
  }

  /** The whole of an update of an owned marathon: the date check first,
      then assign and save. What is stored is what was checked: a
      successful update that touched a date stores a triple in order, and
      its counter is never negative. */
  function UpdatedMarathon(m: Marathon, p: MarathonPatch): (r: Outcome<Marathon>)
    ensures r.Ok? || r.BadRequest?
    ensures CheckPatchDates(m, p).Some? ==> r == BadRequest(CheckPatchDates(m, p).value)
    ensures CheckPatchDates(m, p).None? ==> (r.Ok? <==> ValidMarathon(Assign(m, p)))
    ensures CheckPatchDates(m, p).None? && !ValidMarathon(Assign(m, p)) ==> r == BadRequest(ValidationFailed)
    ensures r.Ok? ==> r.value == Assign(m, p) && ValidMarathon(r.value)
    ensures r.Ok? && SuppliesDates(p) ==>
              r.value.startRegistrationDate < r.value.endRegistrationDate < r.value.marathonStartDate
    ensures r.Ok? && p.totalRegistrations.None? ==> r.value.totalRegistrations == m.totalRegistrations
    ensures r.Ok? && m.startRegistrationDate < m.endRegistrationDate < m.marathonStartDate ==>
              r.value.startRegistrationDate < r.value.endRegistrationDate < r.value.marathonStartDate
  {
    var bad := CheckPatchDates(m, p);
    if bad.Some? then BadRequest(bad.value) else Save(Assign(m, p))
  }

  /** A supplied date the source's `||` tests treat as given: a JSON date
      of 0 (the epoch) is falsy. */
  predicate Truthy(d: Option<int>) {
    d.Some? && d.value != 0
  }

  /** `new Date(req.body.x || marathon.x)`: a falsy supplied date falls
      back to the stored one. */
  function MergeAsWritten(supplied: Option<int>, stored: int): (d: int)
    ensures Truthy(supplied) ==> d == supplied.value
    ensures !Truthy(supplied) ==> d == stored
  {
    if Truthy(supplied) then supplied.value else stored
  }

  /** The update as the source writes it: the date check runs only when a
      supplied date is truthy and compares dates merged with `||`, while
      Object.assign still stores every supplied date, falsy ones included. */
  function UpdatedMarathonAsWritten(m: Marathon, p: MarathonPatch): (r: Outcome<Marathon>)
    ensures r.Ok? || r.BadRequest?
    ensures r.Ok? ==> r.value == Assign(m, p) && ValidMarathon(r.value)
    ensures !(Truthy(p.startRegistrationDate) || Truthy(p.endRegistrationDate)
              || Truthy(p.marathonStartDate)) ==>
              (r.Ok? <==> ValidMarathon(Assign(m, p)))
    ensures !SuppliesDates(p) ==> r == UpdatedMarathon(m, p)
    ensures var any := Truthy(p.startRegistrationDate) || Truthy(p.endRegistrationDate)
                       || Truthy(p.marathonStartDate);
      var bad := CheckUpdate(MergeAsWritten(p.startRegistrationDate, m.startRegistrationDate),
                             MergeAsWritten(p.endRegistrationDate, m.endRegistrationDate),
                             MergeAsWritten(p.marathonStartDate, m.marathonStartDate));
      && (any && bad.Some? ==> r == BadRequest(bad.value))
      && (any && bad.None? ==> (r.Ok? <==> ValidMarathon(Assign(m, p))))
  {
    if Truthy(p.startRegistrationDate) || Truthy(p.endRegistrationDate) || Truthy(p.marathonStartDate) then
      var bad := CheckUpdate(MergeAsWritten(p.startRegistrationDate, m.startRegistrationDate),
                             MergeAsWritten(p.endRegistrationDate, m.endRegistrationDate),
                             MergeAsWritten(p.marathonStartDate, m.marathonStartDate));
      if bad.Some? then BadRequest(bad.value) else Save(Assign(m, p))
    else Save(Assign(m, p))
  }

  /** As written, a patch that sets the race date to 0 skips the date check
      and stores a race that starts before registration ends; the update
      the model uses rejects the same patch. */
  lemma {:induction false} AsWrittenZeroDateUnordersDates()
    ensures var m := Marathon("City Run", "Dhaka", "10 km course", "run.png", 10, 20, 30, "10k",
                              0, "a@x.com", 0);
      var p := MarathonPatch(None, None, None, None, None, None, Some(0), None, None, None, None);
      var out := UpdatedMarathonAsWritten(m, p);
      && m.startRegistrationDate < m.endRegistrationDate < m.marathonStartDate
      && out.Ok?
      && !(out.value.startRegistrationDate < out.value.endRegistrationDate < out.value.marathonStartDate)
      && UpdatedMarathon(m, p) == BadRequest(RaceNotAfterEnd)
  {
    var m := Marathon("City Run", "Dhaka", "10 km course", "run.png", 10, 20, 30, "10k",
                      0, "a@x.com", 0);
    var p := MarathonPatch(None, None, None, None, None, None, Some(0), None, None, None, None);
    assert !Truthy(p.marathonStartDate);
    assert ValidMarathon(Assign(m, p));
    assert Assign(m, p).marathonStartDate == 0;
    assert CheckPatchDates(m, p) == Some(RaceNotAfterEnd);
  }

  /** The caller's identity as the verified token asserts it. */
  datatype Caller = Caller(email: string, name: Option<string>)

  /** The body of a create-registration request. userEmail and userName in
      the body are ignored: the token's values replace them. */
  datatype RegistrationBody = RegistrationBody(
    marathonId: Id,
    userEmail: Option<string>,
    userName: Option<string>,
    firstName: Option<string>,
    lastName: Option<string>,
    contactNo: Option<string>,
    additionalInfo: Option<string>,
    status: Option<string>,
    registrationDate: Option<int>,
    paymentStatus: Option<string>,
    transactionId: Option<string>)

  /** The payment status a body leads to: its default when absent, None when
      it names no enum value. */
  function BodyPaymentStatus(b: RegistrationBody): (r: Option<PaymentStatus>)
    ensures b.paymentStatus.None? ==> r == Some(DefaultPaymentStatus)
    ensures b.paymentStatus.Some? ==> r == ParsePaymentStatus(b.paymentStatus.value)
  {
    if b.paymentStatus.None? then Some(DefaultPaymentStatus) else ParsePaymentStatus(b.paymentStatus.value)
  }

  /** `new Registration({...body, marathonId, userEmail, userName})` followed
      by save, with the status a new registration is meant to start in.
      Identity fields come from the resolved id and the token; it fails
      validation when a required field is missing or empty or the payment
      status is not an enum value. */
  function NewRegistration(b: RegistrationBody, caller: Caller, now: int): (r: Outcome<Registration>)
    ensures r.Ok? || r == BadRequest(ValidationFailed)
    ensures r.Ok? <==>
              && b.firstName.Some? && Present(b.firstName.value)
              && b.lastName.Some? && Present(b.lastName.value)
              && b.contactNo.Some? && Present(b.contactNo.value)
              && caller.name.Some? && Present(caller.name.value)
              && Present(caller.email)
              && BodyPaymentStatus(b).Some?
    ensures r.Ok? ==>
              && ValidRegistration(r.value)
              && r.value.marathonId == b.marathonId
              && r.value.userEmail == caller.email
              && Some(r.value.userName) == caller.name
              && r.value.status == DefaultStatus
              && Active(r.value)
              && r.value.firstName == b.firstName.value
              && r.value.lastName == b.lastName.value
              && r.value.contactNo == b.contactNo.value
              && r.value.additionalInfo == b.additionalInfo
              && r.value.registrationDate == b.registrationDate.GetOr(now)
              && Some(r.value.paymentStatus) == BodyPaymentStatus(b)
              && r.value.transactionId == b.transactionId
  {
    var payment := BodyPaymentStatus(b);
    if b.firstName.None? || b.lastName.None? || b.contactNo.None? || caller.name.None? || payment.None? then
      BadRequest(ValidationFailed)
    else
      var reg := Registration(b.marathonId, caller.email, caller.name.value, b.firstName.value,
                              b.lastName.value, b.contactNo.value, b.additionalInfo, DefaultStatus,
                              b.registrationDate.GetOr(now), payment.value, b.transactionId);
      if ValidRegistration(reg) then Ok(reg) else BadRequest(ValidationFailed)
  }

  /** The same construction as the source writes it: the spread body also
      supplies `status`, which is then validated against the enum and kept. */
  function NewRegistrationAsWritten(b: RegistrationBody, caller: Caller, now: int): (r: Outcome<Registration>)
    ensures r.Ok? <==> NewRegistration(b, caller, now).Ok?
                       && (b.status.None? || ParseStatus(b.status.value).Some?)
    ensures r.Ok? ==> r.value == NewRegistration(b, caller, now).value.(status := r.value.status)
    ensures r.Ok? && b.status.Some? ==> Some(r.value.status) == ParseStatus(b.status.value)
    ensures r.Ok? && b.status.None? ==> r.value == NewRegistration(b, caller, now).value
    ensures !r.Ok? ==> r == BadRequest(ValidationFailed)
  {
    match NewRegistration(b, caller, now)
    case Ok(reg) =>
      if b.status.None? then Ok(reg)
      else (match ParseStatus(b.status.value)
            case Some(st) => Ok(reg.(status := st))
            case None => BadRequest(ValidationFailed))
    case other => other
  }

  /** As written, creating a registration whose body says "cancelled" stores
      a cancelled registration and still increments the counter, so a
      consistent store stops being consistent. */
  lemma {:induction false} AsWrittenCancelledBodyBreaksCount()
    ensures var m := Marathon("City Run", "Dhaka", "10 km course", "run.png", 10, 20, 30, "10k",
                              0, "a@x.com", 0);
      var b := RegistrationBody(0, None, None, Some("Bea"), Some("Khan"), Some("0170"), None,
                                Some("cancelled"), None, None, None);
      var out := NewRegistrationAsWritten(b, Caller("b@x.com", Some("Bea")), 5);
      && Consistent(map[0 := m], map[])
      && out.Ok? && !Active(out.value)
      && !Consistent(map[0 := m.(totalRegistrations := m.totalRegistrations + 1)], map[1 := out.value])
  {
    var m := Marathon("City Run", "Dhaka", "10 km course", "run.png", 10, 20, 30, "10k",
                      0, "a@x.com", 0);
    var b := RegistrationBody(0, None, None, Some("Bea"), Some("Khan"), Some("0170"), None,
                              Some("cancelled"), None, None, None);
    var out := NewRegistrationAsWritten(b, Caller("b@x.com", Some("Bea")), 5);
    assert ActiveIds(map[], 0) == {};
    assert Consistent(map[0 := m], map[]);
    assert ParseStatus("cancelled") == Some(Cancelled);
    assert NewRegistration(b, Caller("b@x.com", Some("Bea")), 5).Ok?;
    assert out.Ok? && out.value.status == Cancelled;
    assert ActiveIds(map[1 := out.value], 0) == {};
    var after := map[0 := m.(totalRegistrations := m.totalRegistrations + 1)];
    assert after[0].totalRegistrations != ActiveCount(map[1 := out.value], 0);
  }

  /** updateRegistrationStatus's allow-list. */
  const AllowedUpdates: seq<string> := ["firstName", "lastName", "contactNo", "additionalInfo"]

  /** `registration[key] = value` for one allow-listed key. */
  function SetField(r: Registration, key: string, value: string): Registration {
    if key == "firstName" then r.(firstName := value)
    else if key == "lastName" then r.(lastName := value)
    else if key == "contactNo" then r.(contactNo := value)
    else if key == "additionalInfo" then r.(additionalInfo := Some(value))
    else r
  }

  /** The assignments the forEach over the body's keys makes, in order:
      only the four allow-listed fields can change, and a body without an
      allow-listed key changes nothing. */
  function ApplyAllowed(r: Registration, body: seq<(string, string)>): (u: Registration)
    decreases |body|
    ensures u == r.(firstName := u.firstName, lastName := u.lastName, contactNo := u.contactNo,
                    additionalInfo := u.additionalInfo)
    ensures (forall i :: 0 <= i < |body| ==> body[i].0 !in AllowedUpdates) ==> u == r
  {
    if body == [] then r
    else
      var (key, value) := body[|body| - 1];
      var before := ApplyAllowed(r, body[..|body| - 1]);
      if key in AllowedUpdates then SetField(before, key, value) else before
  }

  /** The value the body gives last for a key, if any. */
  function LastValue(body: seq<(string, string)>, key: string): Option<string>
  {
    if body == [] then None
    else if body[|body| - 1].0 == key then Some(body[|body| - 1].1)
    else LastValue(body[..|body| - 1], key)
  }

  /** Position i holds the body's last entry for the key. */
  predicate LastEntryAt(body: seq<(string, string)>, key: string, i: int) {
    0 <= i < |body| && body[i].0 == key && forall j :: i < j < |body| ==> body[j].0 != key
  }

  /** LastValue finds nothing exactly when the key never occurs, and
      otherwise finds the value of the key's last entry. */
  lemma {:induction false} LastValueIsLast(body: seq<(string, string)>, key: string)
    ensures LastValue(body, key).None? <==> forall i :: 0 <= i < |body| ==> body[i].0 != key
    ensures LastValue(body, key).Some? ==>
              exists i :: LastEntryAt(body, key, i) && body[i].1 == LastValue(body, key).value
  {
    if body != [] {
      var n := |body| - 1;
      if body[n].0 == key {
        assert LastEntryAt(body, key, n);
      } else {
        var init := body[..n];
        LastValueIsLast(init, key);
        assert forall i :: 0 <= i < n ==> init[i] == body[i];
        if LastValue(init, key).Some? {
          var i :| LastEntryAt(init, key, i) && init[i].1 == LastValue(init, key).value;
          assert LastEntryAt(body, key, i);
        }
      }
    }
  }

  /** The allow-listed update sets each of the four personal fields to the
      last value the body gives for it and leaves every other field,
      status, owner and marathon included, as it was. */
  lemma {:induction false} ApplyAllowedFields(r: Registration, body: seq<(string, string)>)
    ensures ApplyAllowed(r, body) ==
      r.(firstName := LastValue(body, "firstName").GetOr(r.firstName),
         lastName := LastValue(body, "lastName").GetOr(r.lastName),
         contactNo := LastValue(body, "contactNo").GetOr(r.contactNo),
         additionalInfo := if LastValue(body, "additionalInfo").Some?
                           then LastValue(body, "additionalInfo") else r.additionalInfo)
  {
    if body != [] {
      var init := body[..|body| - 1];
      ApplyAllowedFields(r, init);
      var (key, value) := body[|body| - 1];
      assert forall k :: LastValue(body, k) == if key == k then Some(value) else LastValue(init, k);
    }
  }
}
