/** The document store the handlers share, and the handlers that change it:
    create, update and delete a marathon; create, update and cancel a
    registration. Each handler is one atomic step over the store. */
module Store {
  import opened Common
  import opened MarathonModel
  import opened RegistrationModel
  import opened DateWindow
  import opened Listing
  import opened Counters
  import opened Requests

  class Store {
    /** The Marathon collection. */
    var marathons: map<Id, Marathon>
    /** The Registration collection. */
    var registrations: map<Id, Registration>
    /** The next identity to hand out; identities are never reused. */
    var nextId: nat

    /** What every handler keeps: documents pass validation, identities are
        below nextId (also the marathon a registration refers to, even a
        deleted one), and no pair has two active registrations. */
    ghost predicate Valid()
      reads this
    {
      && (forall id :: id in marathons ==> id < nextId && ValidMarathon(marathons[id]))
      && (forall id :: id in registrations ==>
            id < nextId && ValidRegistration(registrations[id])
            && registrations[id].marathonId < nextId)
      && UniqueActive(registrations)
    }

    /** Every marathon's counter equals its number of active registrations. */
    ghost predicate Consistent()
      reads this
    {
      Counters.Consistent(marathons, registrations)
    }

    constructor ()
      ensures Valid() && Consistent()
      ensures marathons == map[] && registrations == map[]
    {
      marathons := map[];
      registrations := map[];
      nextId := 0;
    }

    /** The Marathon collection in natural order. */
    function MarathonList(): (r: seq<Stored<Marathon>>)
      reads this
      requires Valid()
      ensures forall x :: x in r <==> x.id in marathons && marathons[x.id] == x.doc
      ensures forall i, j :: 0 <= i < j < |r| ==> r[i].id < r[j].id
    {
      Collect(marathons, nextId)
    }

    /** The Registration collection in natural order. */
    function RegistrationList(): (r: seq<Stored<Registration>>)
      reads this
      requires Valid()
      ensures forall x :: x in r <==> x.id in registrations && registrations[x.id] == x.doc
      ensures forall i, j :: 0 <= i < j < |r| ==> r[i].id < r[j].id
    {
      Collect(registrations, nextId)
    }

    /** createMarathon: the date rules in order, then validation; a new
        marathon belongs to the caller, starts at zero registrations and
        has its dates in order with registration opening no earlier than now. */
    method CreateMarathon(body: MarathonBody, caller: string, now: int) returns (r: Outcome<Id>)
      requires Valid()
      modifies this
      ensures Valid()
      ensures r.Ok? || r.BadRequest?
      ensures var bad := CheckCreate(body.startRegistrationDate, body.endRegistrationDate,
                                     body.marathonStartDate, now);
        && (bad.Some? ==> r == BadRequest(bad.value))
        && (r.Ok? <==> bad.None? && NewMarathon(body, caller, now).Ok?)
        && (bad.None? && !NewMarathon(body, caller, now).Ok? ==> r == BadRequest(ValidationFailed))
      ensures !r.Ok? ==> unchanged(this)
      ensures r.Ok? ==>
                && r.value == old(nextId) && nextId == old(nextId) + 1
                && r.value !in old(marathons)
                && marathons == old(marathons)[r.value := NewMarathon(body, caller, now).value]
                && registrations == old(registrations)
      ensures r.Ok? ==>
                var m := marathons[r.value];
                && m.organizer == caller
                && m.totalRegistrations == 0
                && m.createdAt == now
                && now <= m.startRegistrationDate < m.endRegistrationDate < m.marathonStartDate
      ensures old(Consistent()) ==> Consistent()
    {
      var bad := CheckCreate(body.startRegistrationDate, body.endRegistrationDate,
                             body.marathonStartDate, now);
      if bad.Some? {
        return BadRequest(bad.value);
      }
      var created := NewMarathon(body, caller, now);
      if !created.Ok? {
        return BadRequest(ValidationFailed);
      }
      var id := nextId;
      ActiveCountUnreferenced(registrations, id);
      marathons := marathons[id := created.value];
      nextId := nextId + 1;
      r := Ok(id);
    }

    /** updateMarathon: 404 before 403; then the merged-date rules when a
        date is supplied; then Object.assign and save. */
    method UpdateMarathon(id: Id, patch: MarathonPatch, caller: string) returns (r: Outcome<Marathon>)
      requires Valid()
      modifies this
      ensures Valid()
      ensures id !in old(marathons) ==> r == NotFound
      ensures id in old(marathons) && old(marathons)[id].organizer != caller ==> r == Forbidden
      ensures id in old(marathons) && old(marathons)[id].organizer == caller ==>
                r == UpdatedMarathon(old(marathons)[id], patch)
      ensures !r.Ok? ==> unchanged(this)
      ensures r.Ok? ==>
                && marathons == old(marathons)[id := r.value]
                && registrations == old(registrations)
                && nextId == old(nextId)
      ensures old(Consistent()) && patch.totalRegistrations.None? ==> Consistent()
    {
      if id !in marathons {
        return NotFound;
      }
      var m := marathons[id];
      if m.organizer != caller {
        return Forbidden;
      }
      if SuppliesDates(patch) {
        var bad := CheckUpdate(Merge(patch.startRegistrationDate, m.startRegistrationDate),
                               Merge(patch.endRegistrationDate, m.endRegistrationDate),
                               Merge(patch.marathonStartDate, m.marathonStartDate));
        if bad.Some? {
          return BadRequest(bad.value);
        }
      }
      var saved := Save(Assign(m, patch));
      if !saved.Ok? {
        return BadRequest(ValidationFailed);
      }
      marathons := marathons[id := saved.value];
      r := saved;
    }

    /** deleteMarathon: 404 before 403; removes that marathon only and
        leaves every registration, orphaned ones included, as it was. */
    method DeleteMarathon(id: Id, caller: string) returns (r: Outcome<()>)
      requires Valid()
      modifies this
      ensures Valid()
      ensures id !in old(marathons) ==> r == NotFound
      ensures id in old(marathons) && old(marathons)[id].organizer != caller ==> r == Forbidden
      ensures id in old(marathons) && old(marathons)[id].organizer == caller ==> r == Ok(())
      ensures !r.Ok? ==> unchanged(this)
      ensures r.Ok? ==>
                && marathons == old(marathons) - {id}
                && registrations == old(registrations)
                && nextId == old(nextId)
      ensures old(Consistent()) ==> Consistent()
    {
      if id !in marathons {
        return NotFound;
      }
      if marathons[id].organizer != caller {
        return Forbidden;
      }
      marathons := marathons - {id};
      r := Ok(());
    }

    /** createRegistration: 404 for a missing marathon, 400 for a second
        active registration of the pair, 400 for a document that fails
        validation; otherwise the new registration is stored with the
        token's identity and its marathon's counter rises by one. */
    method CreateRegistration(body: RegistrationBody, caller: Caller, now: int) returns (r: Outcome<Id>)
      requires Valid()
      modifies this
      ensures Valid()
      ensures body.marathonId !in old(marathons) ==> r == NotFound
      ensures (body.marathonId in old(marathons)
               && HasActive(old(registrations), body.marathonId, caller.email)) ==>
                r == BadRequest(AlreadyRegistered)
      ensures (body.marathonId in old(marathons)
               && !HasActive(old(registrations), body.marathonId, caller.email)) ==>
                (r.Ok? <==> NewRegistration(body, caller, now).Ok?)
      ensures (body.marathonId in old(marathons)
               && !HasActive(old(registrations), body.marathonId, caller.email)
               && !NewRegistration(body, caller, now).Ok?) ==>
                r == BadRequest(ValidationFailed)
      ensures !r.Ok? ==> unchanged(this)
      ensures r.Ok? ==>
                var total := old(marathons)[body.marathonId].totalRegistrations;
                && r.value == old(nextId) && nextId == old(nextId) + 1
                && r.value !in old(registrations)
                && registrations == old(registrations)[r.value := NewRegistration(body, caller, now).value]
                && marathons == old(marathons)[body.marathonId :=
                                 old(marathons)[body.marathonId].(totalRegistrations := total + 1)]
      ensures r.Ok? ==>
                var reg := registrations[r.value];
                && reg.marathonId == body.marathonId
                && reg.userEmail == caller.email
                && Some(reg.userName) == caller.name
                && reg.status == Pending
      ensures old(Consistent()) ==> Consistent()
    {
      var mid := body.marathonId;
      if mid !in marathons {
        return NotFound;
      }
      if HasActive(registrations, mid, caller.email) {
        return BadRequest(AlreadyRegistered);
      }
      var created := NewRegistration(body, caller, now);
      if !created.Ok? {
        return BadRequest(ValidationFailed);
      }
      var id := nextId;
      if Consistent() {
        InsertKeepsConsistent(marathons, registrations, id, created.value);
      }
      InsertKeepsUnique(registrations, id, created.value);
      registrations := registrations[id := created.value];
      nextId := nextId + 1;
      marathons := marathons[mid := ApplyCounterUpdate(marathons[mid], Increment(1))];
      r := Ok(id);
    }

    /** updateRegistrationStatus: 404 before 403; then every allow-listed
        key of the body is assigned, and the result is validated and saved. */
    method UpdateRegistration(id: Id, body: seq<(string, string)>, caller: string)
      returns (r: Outcome<Registration>)
      requires Valid()
      modifies this
      ensures Valid()
      ensures id !in old(registrations) ==> r == NotFound
      ensures id in old(registrations) && old(registrations)[id].userEmail != caller ==> r == Forbidden
      ensures id in old(registrations) && old(registrations)[id].userEmail == caller ==>
                var updated := ApplyAllowed(old(registrations)[id], body);
                r == if ValidRegistration(updated) then Ok(updated) else BadRequest(ValidationFailed)
      ensures !r.Ok? ==> unchanged(this)
      ensures r.Ok? ==>
                var was := old(registrations)[id];
                && registrations == old(registrations)[id := r.value]
                && marathons == old(marathons)
                && nextId == old(nextId)
                && r.value.status == was.status
                && r.value.userEmail == was.userEmail
                && r.value.marathonId == was.marathonId
      ensures old(Consistent()) ==> Consistent()
    {
      if id !in registrations {
        return NotFound;
      }
      var was := registrations[id];
      if was.userEmail != caller {
        return Forbidden;
      }
      var reg := was;
      var i := 0;
      while i < |body|
        invariant 0 <= i <= |body|
        invariant reg == ApplyAllowed(was, body[..i])
      {
        var (key, value) := body[i];
        assert body[..i + 1][..i] == body[..i];
        if key in AllowedUpdates {
          if key == "firstName" {
            reg := reg.(firstName := value);
          } else if key == "lastName" {
            reg := reg.(lastName := value);
          } else if key == "contactNo" {
            reg := reg.(contactNo := value);
          } else {
            reg := reg.(additionalInfo := Some(value));
          }
        }
        i := i + 1;
      }
      assert body[..|body|] == body;
      if !ValidRegistration(reg) {
        return BadRequest(ValidationFailed);
      }
      ApplyAllowedFields(was, body);
      if Consistent() {
        RewriteKeepsConsistent(marathons, registrations, id, reg);
      }
      registrations := registrations[id := reg];
      r := Ok(reg);
    }

    /** cancelRegistration: 404, then 403, then 400 for an already cancelled
        registration; otherwise the registration is cancelled, and when its
        marathon still exists the counter becomes max(0, total - 1), which
        is returned; when it does not, the answer is 404 with the
        registration cancelled all the same. */
    method CancelRegistration(id: Id, caller: string) returns (r: Outcome<int>)
      requires Valid()
      modifies this
      ensures Valid()
      ensures id !in old(registrations) ==> r == NotFound
      ensures id in old(registrations) && old(registrations)[id].userEmail != caller ==> r == Forbidden
      ensures (id in old(registrations) && old(registrations)[id].userEmail == caller
               && old(registrations)[id].status == Cancelled) ==> r == BadRequest(AlreadyCancelled)
      ensures r.Forbidden? || r.BadRequest? || id !in old(registrations) ==> unchanged(this)
      ensures (id in old(registrations) && old(registrations)[id].userEmail == caller
               && Active(old(registrations)[id])) ==>
                var was := old(registrations)[id];
                var mid := was.marathonId;
                && registrations == old(registrations)[id := was.(status := Cancelled)]
                && nextId == old(nextId)
                && (mid !in old(marathons) ==> r == NotFound && marathons == old(marathons))
                && (mid in old(marathons) ==>
                      var total := old(marathons)[mid].totalRegistrations;
                      var newTotal := if total - 1 < 0 then 0 else total - 1;
                      && r == Ok(newTotal)
                      && marathons == old(marathons)[mid := old(marathons)[mid].(totalRegistrations := newTotal)])
      ensures r.Ok? ==> r.value >= 0
      ensures old(Consistent()) ==> Consistent()
    {
      if id !in registrations {
        return NotFound;
      }
      var was := registrations[id];
      if was.userEmail != caller {
        return Forbidden;
      }
      if was.status == Cancelled {
        return BadRequest(AlreadyCancelled);
      }
      if Consistent() {
        CancelKeepsConsistent(marathons, registrations, id);
      }
      CancelKeepsUnique(registrations, id);
      registrations := registrations[id := was.(status := Cancelled)];
      var mid := was.marathonId;
      if mid !in marathons {
        assert marathons - {mid} == marathons;
        return NotFound;
      }
      var total := marathons[mid].totalRegistrations;
      var newTotal := if total - 1 < 0 then 0 else total - 1;
      marathons := marathons[mid := ApplyCounterUpdate(marathons[mid], Replace(newTotal))];
      r := Ok(newTotal);
    }
  }
}
