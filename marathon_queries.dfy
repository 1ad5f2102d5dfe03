/** The read handlers of the marathon controller, over the Marathon
    collection in natural order. */
module MarathonQueries {
  import opened Common
  import opened MarathonModel
  import opened Listing

  const PageSize: nat := 6

  function NewestFirstKey(x: Stored<Marathon>): int { -x.doc.createdAt }
  function SoonestFirstKey(x: Stored<Marathon>): int { x.doc.marathonStartDate }
  function MostRegisteredFirstKey(x: Stored<Marathon>): int { -x.doc.totalRegistrations }

  /** getAllMarathons: every marathon, newest created first. */
  function AllMarathons(ms: seq<Stored<Marathon>>): (r: seq<Stored<Marathon>>)
    ensures multiset(r) == multiset(ms)
    ensures forall i, j :: 0 <= i < j < |r| ==> r[i].doc.createdAt >= r[j].doc.createdAt
  {
    SortBy(ms, NewestFirstKey)
  }

  /** getMarathonsByOrganizer: exactly the organizer's marathons, newest
      created first. */
  function ByOrganizer(ms: seq<Stored<Marathon>>, email: string): (r: seq<Stored<Marathon>>)
    ensures forall x :: x in r <==> x in ms && x.doc.organizer == email
    ensures multiset(r) <= multiset(ms)
    ensures forall i, j :: 0 <= i < j < |r| ==> r[i].doc.createdAt >= r[j].doc.createdAt
  {
    var own := Filter(ms, (x: Stored<Marathon>) => x.doc.organizer == email);
    SortBy(own, NewestFirstKey)
  }

  predicate IsUpcoming(x: Stored<Marathon>, now: int) {
    x.doc.marathonStartDate >= now
  }

  /** getUpcomingMarathons: the (at most six) soonest marathons whose race
      starts at or after now, soonest first. */
  function Upcoming(ms: seq<Stored<Marathon>>, now: int): (r: seq<Stored<Marathon>>)
    ensures |r| <= PageSize
    ensures forall x :: x in r ==> x in ms && IsUpcoming(x, now)
    ensures multiset(r) <= multiset(ms)
    ensures forall i, j :: 0 <= i < j < |r| ==>
              r[i].doc.marathonStartDate <= r[j].doc.marathonStartDate
    ensures forall x, i :: x in ms && IsUpcoming(x, now) && x !in r && 0 <= i < |r| ==>
              r[i].doc.marathonStartDate <= x.doc.marathonStartDate
    ensures |r| < PageSize ==> forall x :: x in ms && IsUpcoming(x, now) ==> x in r
  {
    var future := Filter(ms, (x: Stored<Marathon>) => IsUpcoming(x, now));
    assert forall x :: x in future <==> x in ms && IsUpcoming(x, now);
    TakeOfSorted(future, SoonestFirstKey, PageSize);
    var r := Take(SortBy(future, SoonestFirstKey), PageSize);
    assert multiset(r) <= multiset(ms);
    r
  }

  /** getFeaturedMarathons: the (at most six) marathons with the most
      registrations, most first. */
  function Featured(ms: seq<Stored<Marathon>>): (r: seq<Stored<Marathon>>)
    ensures |r| <= PageSize
    ensures forall x :: x in r ==> x in ms
    ensures multiset(r) <= multiset(ms)
    ensures forall i, j :: 0 <= i < j < |r| ==>
              r[i].doc.totalRegistrations >= r[j].doc.totalRegistrations
    ensures forall x, i :: x in ms && x !in r && 0 <= i < |r| ==>
              r[i].doc.totalRegistrations >= x.doc.totalRegistrations
    ensures |r| < PageSize ==> forall x :: x in ms ==> x in r
  {
    var sorted := SortBy(ms, MostRegisteredFirstKey);
    TakeOfSorted(ms, MostRegisteredFirstKey, PageSize);
    Take(sorted, PageSize)
  }

  /** searchMarathons: the marathons whose title contains the pattern,
      ignoring case, in natural order. */
  function SearchByTitle(ms: seq<Stored<Marathon>>, title: string): (r: seq<Stored<Marathon>>)
    ensures forall x :: x in r <==> x in ms && exists j :: MatchesAt(x.doc.title, title, j)
    ensures multiset(r) <= multiset(ms)
  {
    Filter(ms, (x: Stored<Marathon>) => ContainsIgnoreCase(x.doc.title, title))
  }

  /** getMarathon: the document under the identity, or NotFound. */
  function GetMarathon(marathons: map<Id, Marathon>, id: Id): (r: Outcome<Marathon>)
    ensures r.Ok? || r.NotFound?
    ensures r.Ok? <==> id in marathons
    ensures r.Ok? ==> r.value == marathons[id]
  {
    if id in marathons then Ok(marathons[id]) else NotFound
  }
}
