/** The cross-entity invariants of the registration engine: a marathon's
    totalRegistrations equals the number of its active registrations, and a
    user holds at most one active registration per marathon. */
module Counters {
  import opened Common
  import opened MarathonModel
  import opened RegistrationModel

  /** The identities of the active registrations for a marathon. */
  function ActiveIds(regs: map<Id, Registration>, m: Id): set<Id> {
    set id | id in regs && regs[id].marathonId == m && Active(regs[id])
  }

  function ActiveCount(regs: map<Id, Registration>, m: Id): nat {
    |ActiveIds(regs, m)|
  }

  /** 1 when the registration is active and belongs to marathon m. */
  function Contribution(r: Registration, m: Id): nat {
    if r.marathonId == m && Active(r) then 1 else 0
  }

  /** Every existing marathon's counter equals its number of active
      registrations. */
  ghost predicate Consistent(marathons: map<Id, Marathon>, regs: map<Id, Registration>) {
    forall m :: m in marathons ==> marathons[m].totalRegistrations == ActiveCount(regs, m)
  }

  /** At most one active registration per (marathon, email) pair. */
  ghost predicate UniqueActive(regs: map<Id, Registration>) {
    forall a, b ::
      (a in regs && b in regs && Active(regs[a]) && Active(regs[b])
       && regs[a].marathonId == regs[b].marathonId
       && regs[a].userEmail == regs[b].userEmail) ==> a == b
  }

  /** Some active registration exists for the pair. */
  predicate HasActive(regs: map<Id, Registration>, m: Id, email: string) {
    exists id :: id in regs && Active(regs[id]) && regs[id].marathonId == m
                 && regs[id].userEmail == email
  }

  /** Writing r under id replaces the old document's contribution to the
      count by r's. */
  lemma {:induction false} ActiveCountUpdate(regs: map<Id, Registration>, id: Id, r: Registration, m: Id)
    ensures ActiveCount(regs[id := r], m) + (if id in regs then Contribution(regs[id], m) else 0)
            == ActiveCount(regs, m) + Contribution(r, m)
  {
    var regs' := regs[id := r];
    var before := ActiveIds(regs, m);
    var after := ActiveIds(regs', m);
    forall k
      ensures k in after - {id} <==> k in before - {id}
    {
      if k != id {
        assert k in regs' <==> k in regs;
        assert k in regs ==> regs'[k] == regs[k];
      }
    }
    assert after - {id} == before - {id};
    assert id in after <==> Contribution(r, m) == 1;
    assert id in before <==> id in regs && Contribution(regs[id], m) == 1;
    SizeWithout(after, id);
    SizeWithout(before, id);
  }

  lemma SizeWithout(s: set<Id>, x: Id)
    ensures |s| == |s - {x}| + (if x in s then 1 else 0)
  {
    if x in s {
      assert s == (s - {x}) + {x};
    } else {
      assert s - {x} == s;
    }
  }

  /** A marathon with an active registration has a positive count. */
  lemma {:induction false} ActiveCountPositive(regs: map<Id, Registration>, id: Id)
    requires id in regs && Active(regs[id])
    ensures ActiveCount(regs, regs[id].marathonId) >= 1
  {
    assert id in ActiveIds(regs, regs[id].marathonId);
  }

  /** A marathon no registration refers to has count 0. */
  lemma {:induction false} ActiveCountUnreferenced(regs: map<Id, Registration>, m: Id)
    requires forall id :: id in regs ==> regs[id].marathonId != m
    ensures ActiveCount(regs, m) == 0
  {
    assert ActiveIds(regs, m) == {};
  }

  /** A successful registration: inserting an active registration for an
      existing marathon and incrementing that marathon's counter keeps every
      counter equal to its count. */
  lemma {:induction false} InsertKeepsConsistent(marathons: map<Id, Marathon>, regs: map<Id, Registration>,
                                                 id: Id, r: Registration)
    requires Consistent(marathons, regs)
    requires id !in regs && r.marathonId in marathons && Active(r)
    ensures var m := marathons[r.marathonId];
      Consistent(marathons[r.marathonId := m.(totalRegistrations := m.totalRegistrations + 1)],
                 regs[id := r])
  {
    var m := marathons[r.marathonId];
    var ms' := marathons[r.marathonId := m.(totalRegistrations := m.totalRegistrations + 1)];
    forall k | k in ms'
      ensures ms'[k].totalRegistrations == ActiveCount(regs[id := r], k)
    {
      ActiveCountUpdate(regs, id, r, k);
    }
  }

  /** A successful cancellation: flipping an active registration to
      cancelled and setting its marathon's counter to max(0, total - 1)
      keeps every counter equal to its count; the clamp never bites. */
  lemma {:induction false} CancelKeepsConsistent(marathons: map<Id, Marathon>, regs: map<Id, Registration>, id: Id)
    requires Consistent(marathons, regs)
    requires id in regs && Active(regs[id])
    ensures var r := regs[id];
      var regs' := regs[id := r.(status := Cancelled)];
      && Consistent(marathons - {r.marathonId}, regs')
      && (r.marathonId in marathons ==>
            var m := marathons[r.marathonId];
            var total := if m.totalRegistrations - 1 < 0 then 0 else m.totalRegistrations - 1;
            && total == m.totalRegistrations - 1
            && Consistent(marathons[r.marathonId := m.(totalRegistrations := total)], regs'))
  {
    var r := regs[id];
    var regs' := regs[id := r.(status := Cancelled)];
    forall k ensures ActiveCount(regs', k) + Contribution(r, k) == ActiveCount(regs, k) {
      ActiveCountUpdate(regs, id, r.(status := Cancelled), k);
    }
    if r.marathonId in marathons {
      ActiveCountPositive(regs, id);
    }
  }

  /** Rewriting a registration without touching its marathon or status
      changes no count. */
  lemma {:induction false} RewriteKeepsConsistent(marathons: map<Id, Marathon>, regs: map<Id, Registration>,
                                                  id: Id, r: Registration)
    requires Consistent(marathons, regs)
    requires id in regs && r.marathonId == regs[id].marathonId && r.status == regs[id].status
    ensures Consistent(marathons, regs[id := r])
  {
    forall k | k in marathons
      ensures marathons[k].totalRegistrations == ActiveCount(regs[id := r], k)
    {
      ActiveCountUpdate(regs, id, r, k);
    }
  }

  /** Inserting an active registration only when none exists for its pair
      keeps the pair unique. */
  lemma {:induction false} InsertKeepsUnique(regs: map<Id, Registration>, id: Id, r: Registration)
    requires UniqueActive(regs) && id !in regs
    requires Active(r) ==> !HasActive(regs, r.marathonId, r.userEmail)
    ensures UniqueActive(regs[id := r])
  {
    assert forall b :: b in regs ==> regs[id := r][b] == regs[b];
  }

  /** Cancelling a registration keeps the pair unique. */
  lemma {:induction false} CancelKeepsUnique(regs: map<Id, Registration>, id: Id)
    requires UniqueActive(regs) && id in regs
    ensures UniqueActive(regs[id := regs[id].(status := Cancelled)])
  {
    var regs' := regs[id := regs[id].(status := Cancelled)];
    assert forall a :: a in regs' && Active(regs'[a]) ==> a in regs && regs'[a] == regs[a];
  }
}
