/** The read handlers of the registration controller, over the Registration
    collection in natural order joined with the Marathon collection. */
module RegistrationQueries {
  import opened Common
  import opened MarathonModel
  import opened RegistrationModel
  import opened Listing

  /** An active registration of `email` for the marathon. */
  predicate ActiveFor(x: Stored<Registration>, marathonId: Id, email: string) {
    x.doc.marathonId == marathonId && x.doc.userEmail == email && Active(x.doc)
  }

  /** checkRegistration: only the caller may ask about themself; the answer
      is whether an active registration exists for the pair. */
  function CheckRegistration(regs: seq<Stored<Registration>>, marathonId: Id, email: string, caller: string)
    : (r: Outcome<bool>)
    ensures r == Forbidden <==> email != caller
    ensures email == caller ==>
              r == Ok(exists x :: x in regs && ActiveFor(x, marathonId, email))
  {
    if email != caller then Forbidden
    else
      var found := Filter(regs, (x: Stored<Registration>) => ActiveFor(x, marathonId, email));
      assert |found| > 0 ==> found[0] in found;
      Ok(|found| > 0)
  }

  /** One row of getUserRegistrations: the registration projected together
      with its marathon's title and race date. */
  datatype Row = Row(
    id: Id,
    marathonTitle: string,
    marathonStartDate: int,
    firstName: string,
    lastName: string,
    contactNo: string,
    additionalInfo: Option<string>,
    status: Status,
    registrationDate: int,
    userEmail: string)

  function Project(x: Stored<Registration>, m: Marathon): Row {
    Row(x.id, m.title, m.marathonStartDate, x.doc.firstName, x.doc.lastName,
        x.doc.contactNo, x.doc.additionalInfo, x.doc.status, x.doc.registrationDate,
        x.doc.userEmail)
  }

  /** The `$match` on owner and status, and the `$unwind` that drops a
      registration whose marathon no longer exists. */
  predicate Listed(x: Stored<Registration>, email: string, marathons: map<Id, Marathon>) {
    x.doc.userEmail == email && Active(x.doc) && x.doc.marathonId in marathons
  }

  /** The second `$match`: an absent or empty search keeps every row. */
  predicate TitleMatches(row: Row, search: Option<string>) {
    search.None? || search.value == "" || ContainsIgnoreCase(row.marathonTitle, search.value)
  }

  /** The listed registrations, projected, in natural order. */
  function Joined(regs: seq<Stored<Registration>>, email: string, marathons: map<Id, Marathon>)
    : (rows: seq<Row>)
    ensures forall row :: row in rows <==>
              exists i :: 0 <= i < |regs| && Listed(regs[i], email, marathons)
                          && row == Project(regs[i], marathons[regs[i].doc.marathonId])
    ensures (forall i, j :: 0 <= i < j < |regs| ==> regs[i].id < regs[j].id) ==>
              forall i, j :: 0 <= i < j < |rows| ==> rows[i].id < rows[j].id
  {
    if regs == [] then []
    else
      var x := regs[0];
      var rest := Joined(regs[1..], email, marathons);
      assert forall i :: 1 <= i < |regs| ==> regs[i] == regs[1..][i - 1];
      assert forall i :: 0 <= i < |regs| - 1 ==> regs[1..][i] == regs[i + 1];
      assert (forall i, j :: 0 <= i < j < |regs| ==> regs[i].id < regs[j].id) ==>
               forall k :: 0 <= k < |rest| ==> x.id < rest[k].id by {
        forall k | 0 <= k < |rest| && forall i, j :: 0 <= i < j < |regs| ==> regs[i].id < regs[j].id
          ensures x.id < rest[k].id
        {
          assert rest[k] in rest;
          var i :| 0 <= i < |regs[1..]| && Listed(regs[1..][i], email, marathons)
                   && rest[k] == Project(regs[1..][i], marathons[regs[1..][i].doc.marathonId]);
          assert rest[k].id == regs[i + 1].id;
        }
      }
      if Listed(x, email, marathons) then [Project(x, marathons[x.doc.marathonId])] + rest
      else rest
  }

  function LatestFirstKey(row: Row): int { -row.registrationDate }

  /** getUserRegistrations: only the caller may list their own; the rows are
      exactly the caller's active registrations whose marathon exists and
      whose title matches the search, latest registration first. */
  function UserRegistrations(regs: seq<Stored<Registration>>, marathons: map<Id, Marathon>,
                             email: string, caller: string, search: Option<string>)
    : (r: Outcome<seq<Row>>)
    ensures r == Forbidden <==> email != caller
    ensures r.Forbidden? || r.Ok?
    ensures r.Ok? ==> forall row :: row in r.value <==>
              TitleMatches(row, search)
              && exists i :: 0 <= i < |regs| && Listed(regs[i], email, marathons)
                             && row == Project(regs[i], marathons[regs[i].doc.marathonId])
    ensures r.Ok? ==> forall i, j :: 0 <= i < j < |r.value| ==>
              r.value[i].registrationDate >= r.value[j].registrationDate
    ensures r.Ok? && (forall i, j :: 0 <= i < j < |regs| ==> regs[i].id < regs[j].id) ==>
              forall row :: multiset(r.value)[row] <= 1
  {
    if email != caller then Forbidden
    else
      var joined := Joined(regs, email, marathons);
      var rows := Filter(joined, (row: Row) => TitleMatches(row, search));
      AtMostOnce(joined);
      Ok(SortBy(rows, LatestFirstKey))
  }
}
