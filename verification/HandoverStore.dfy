/**
 The repository methods of internal/persistence/postgres/handover.go as an object over its tables.
 Each method runs the statements of one transaction in the source's order, rolls back by leaving the
 fields as they were, and is proved to be the transaction of the same name in `HandoverTables`.
 */
module HandoverStore {
  import opened Collections
  import opened HandoverTables
  import opened Text

  class Repo {
    var now: int
    var users: map<Id, bool>
    var services: map<Id, Service>
    var handovers: map<Id, Row>
    var routes: map<Id, Route>
    var jobs: map<Id, Job>
    var scenarios: map<Id, Scenario>
    ghost var creator: map<Id, Id>
    ghost var ledger: map<Id, seq<Id>>

    ghost function View(): World
      reads this
    {
      World(now, users, services, handovers, routes, jobs, scenarios, creator, ledger)
    }

    constructor ()
      ensures View() == EMPTY
    {
      now, users, services, handovers, routes, jobs, scenarios := 0, map[], map[], map[], map[], map[], map[];
      creator, ledger := map[], map[];
    }

    method HasPendingServiceHandover(serviceId: Id) returns (pending: bool)
      ensures pending <==> HasLive(handovers, serviceId, now)
    {
      pending := HasLive(handovers, serviceId, now);
    }

    method OfferServiceHandover(id: Id, serviceId: Id, fromId: Id, toId: Id) returns (reply: Reply)
      modifies this
      ensures (View(), reply) == Offer(old(View()), id, serviceId, fromId, toId)
    {
      var before := handovers;
      handovers := ExpireStalePending(handovers, serviceId, now);
      if id in handovers || fromId == toId {
        handovers := before;
        return ErrInternal;
      }
      if IndexHolds(handovers, serviceId) {
        handovers := before;
        return ErrPending;
      }
      if serviceId !in services || fromId !in users || toId !in users {
        handovers := before;
        return ErrInternal;
      }
      handovers := handovers[id := Row(serviceId, fromId, toId, Pending, now, None, now + HANDOVER_TTL, None)];
      return Stored(handovers[id]);
    }

    method CancelServiceHandover(id: Id, fromId: Id) returns (reply: Reply)
      modifies this
      ensures (View(), reply) == Decide(old(View()), id, Sender, fromId, Cancelled)
    {
      reply := DecideHandover(id, Sender, fromId, Cancelled);
    }

    method DeclineServiceHandover(id: Id, toId: Id) returns (reply: Reply)
      modifies this
      ensures (View(), reply) == Decide(old(View()), id, Recipient, toId, Declined)
    {
      reply := DecideHandover(id, Recipient, toId, Declined);
    }

    /** Tries the update first and asks why nothing closed only afterwards, as the source does. */
    method DecideHandover(id: Id, party: Party, callerId: Id, status: Status) returns (reply: Reply)
      modifies this
      ensures (View(), reply) == Decide(old(View()), id, party, callerId, status)
    {
      if id in handovers && IsParty(handovers[id], party, callerId) && Live(handovers[id], now) {
        handovers := handovers[id := handovers[id].(status := status, decidedAt := Some(now))];
        return Stored(handovers[id]);
      }
      if !(id in handovers && IsParty(handovers[id], party, callerId)) {
        return ErrNotFound;
      }
      return ErrNotPending;
    }

    /** Lets the unique slug index arbitrate: the first suffix from 2 that no route has. */
    method CopyRouteTo(routeId: Id, copyId: Id, ownerId: Id) returns (copied: bool)
      requires routeId in routes
      modifies this`routes
      ensures var n := FreeSuffix(old(routes), old(routes)[routeId].slug, 2);
              && (copied <==> copyId !in old(routes) && n.Some?)
              && routes == if copied then
                             old(routes)[copyId := Route(Some(ownerId), Suffixed(old(routes)[routeId].slug, n.value),
                                                         old(routes)[routeId].content)]
                           else old(routes)
    {
      if copyId in routes { return false; }
      var slug, attempt := routes[routeId].slug, 2;
      while attempt <= MAX_ROUTE_COPY_ATTEMPTS
        invariant 2 <= attempt <= MAX_ROUTE_COPY_ATTEMPTS + 1
        invariant routes == old(routes)
        invariant FreeSuffix(routes, slug, 2) == FreeSuffix(routes, slug, attempt)
      {
        var candidate := Suffixed(slug, attempt);
        if !SlugTaken(routes, candidate) {
          routes := routes[copyId := Route(Some(ownerId), candidate, routes[routeId].content)];
          return true;
        }
        attempt := attempt + 1;
      }
      return false;
    }

    /** Refuses a service in a scenario; otherwise gives it, its jobs and a usable route to `toId`. */
    method MoveLockedUserService(serviceId: Id, toId: Id, copyId: Id) returns (reply: Reply)
      requires serviceId in services
      modifies this`routes, this`services, this`jobs
      ensures (View(), reply) == Move(old(View()), serviceId, toId, copyId)
    {
      hide FreeSuffix, Suffixed, JobsMoved;
      if exists sc :: sc in scenarios && serviceId in scenarios[sc].members {
        assert InScenario(View(), serviceId);
        return ErrInScenarios;
      }
      var routeId := services[serviceId].routeId;
      if routeId !in routes {
        return ErrInternal;
      }
      if routes[routeId].ownerId.Some? && routes[routeId].ownerId.value != toId {
        var copied := CopyRouteTo(routeId, copyId, toId);
        if !copied {
          return ErrInternal;
        }
        services := services[serviceId := services[serviceId].(routeId := copyId)];
      }
      services := services[serviceId := services[serviceId].(ownerId := toId, updatedAt := now)];
      MoveJobs(serviceId, toId);
      reply := Done;
      assert View() == Move(old(View()), serviceId, toId, copyId).0;
    }

    /** Every compile job of the service gets the new owner. */
    method MoveJobs(serviceId: Id, toId: Id)
      modifies this`jobs
      ensures jobs == JobsMoved(old(jobs), serviceId, toId)
    {
      jobs := map j | j in jobs :: if jobs[j].serviceId == serviceId then jobs[j].(ownerId := toId) else jobs[j];
    }

    method AcceptServiceHandover(id: Id, toId: Id, copyId: Id) returns (reply: Reply)
      modifies this
      ensures (View(), reply) == Accept(old(View()), id, toId, copyId)
    {
      if id !in handovers || handovers[id].toId != toId { return ErrNotFound; }
      var serviceId := handovers[id].serviceId;
      if serviceId !in services { return ErrNotFound; }
      if !Live(handovers[id], now) { return ErrNotPending; }
      if services[serviceId].ownerId != handovers[id].fromId { return ErrSenderNotOwner; }
      if toId !in users { return ErrInternal; }
      if users[toId] { return ErrRecipientDisabled; }
      reply := MoveLockedUserService(serviceId, toId, copyId);
      if reply != Done { return; }
      handovers := handovers[id := handovers[id].(status := Accepted, decidedAt := Some(now))];
      ledger := Record(View(), serviceId, id).ledger;
      reply := Stored(handovers[id]);
    }

    method TransferUserService(serviceId: Id, toId: Id, forcedBy: Id, id: Id, copyId: Id) returns (reply: Reply)
      modifies this
      ensures (View(), reply) == Transfer(old(View()), serviceId, toId, forcedBy, id, copyId)
    {
      hide Move, ClosePending;
      if serviceId !in services { return ErrInternal; }
      var ownerId := services[serviceId].ownerId;
      if ownerId == toId { return ErrToOwner; }
      if toId !in users { return ErrInternal; }
      if users[toId] { return ErrRecipientDisabled; }
      var routesBefore, servicesBefore, jobsBefore := routes, services, jobs;
      MoveRefused(View(), serviceId, toId, copyId);
      reply := MoveLockedUserService(serviceId, toId, copyId);
      if reply != Done { return; }
      if id in handovers {
        routes, services, jobs := routesBefore, servicesBefore, jobsBefore;
        return ErrInternal;
      }
      ClosePendingOffers(serviceId);
      handovers := handovers[id := Row(serviceId, ownerId, toId, Accepted, now, Some(now), now, Some(forcedBy))];
      ledger := Record(View(), serviceId, id).ledger;
      reply := Stored(handovers[id]);
    }

    /** Writes the expiry of stale offers down, then cancels what is still live. */
    method ClosePendingOffers(serviceId: Id)
      modifies this`handovers
      ensures handovers == ClosePending(old(handovers), serviceId, now)
    {
      handovers := ExpireStalePending(handovers, serviceId, now);
      handovers := map h | h in handovers ::
        if handovers[h].serviceId == serviceId && Live(handovers[h], now)
        then handovers[h].(status := Cancelled, decidedAt := Some(now)) else handovers[h];
    }

    // ----- Scenario writes (internal/persistence/postgres/userscenario.go) -----

    /** The given services that `ownerId` owns. */
    method UserServiceIDsOwnedBy(ownerId: Id, ids: seq<Id>) returns (owned: set<Id>)
      ensures forall id :: id in owned <==> id in ids && id in services && services[id].ownerId == ownerId
    {
      owned := {};
      var i := 0;
      while i < |ids|
        invariant 0 <= i <= |ids|
        invariant forall id :: id in owned <==> id in ids[..i] && id in services && services[id].ownerId == ownerId
      {
        assert ids[..i + 1] == ids[..i] + [ids[i]];
        if ids[i] in services && services[ids[i]].ownerId == ownerId {
          owned := owned + {ids[i]};
        }
        i := i + 1;
      }
      assert ids[..i] == ids;
    }

    /** The handler's check: every member exists and belongs to the owner. */
    method ValidateScenario(ownerId: Id, ids: seq<Id>) returns (ok: bool)
      ensures ok <==> OwnsAll(View(), ownerId, IdSet(ids))
    {
      if ids == [] { return true; }
      var owned := UserServiceIDsOwnedBy(ownerId, ids);
      var i := 0;
      while i < |ids|
        invariant 0 <= i <= |ids|
        invariant forall k :: 0 <= k < i ==> ids[k] in owned
      {
        if ids[i] !in owned {
          assert ids[i] in IdSet(ids);
          return false;
        }
        i := i + 1;
      }
      return true;
    }

    /** One row per member; stops at the first that the foreign key refuses. */
    method InsertUserScenarioMembership(id: Id, ids: seq<Id>) returns (ok: bool)
      requires id in scenarios && scenarios[id].members == {}
      modifies this`scenarios
      ensures ok <==> IdSet(ids) <= services.Keys
      ensures ok ==> scenarios == old(scenarios)[id := Scenario(old(scenarios)[id].ownerId, IdSet(ids))]
    {
      var i := 0;
      assert IdSet(ids[..0]) == {};
      assert scenarios == scenarios[id := Scenario(scenarios[id].ownerId, {})];
      while i < |ids|
        invariant 0 <= i <= |ids|
        invariant IdSet(ids[..i]) <= services.Keys
        invariant scenarios == old(scenarios)[id := Scenario(old(scenarios)[id].ownerId, IdSet(ids[..i]))]
      {
        assert ids[..i + 1] == ids[..i] + [ids[i]];
        if ids[i] !in services {
          assert ids[i] in IdSet(ids);
          return false;
        }
        scenarios := scenarios[id := scenarios[id].(members := scenarios[id].members + {ids[i]})];
        assert IdSet(ids[..i + 1]) == IdSet(ids[..i]) + {ids[i]};
        i := i + 1;
      }
      assert ids[..i] == ids;
      return true;
    }

    /** The create transaction: the row, then its members; a refused member rolls both back. */
    method CreateUserScenario(id: Id, ownerId: Id, ids: seq<Id>) returns (reply: Reply)
      modifies this`scenarios
      ensures (View(), reply) == InsertScenario(old(View()), id, ownerId, IdSet(ids))
    {
      if id in scenarios || ownerId !in users { return ErrInternal; }
      var before := scenarios;
      scenarios := scenarios[id := Scenario(ownerId, {})];
      var inserted := InsertUserScenarioMembership(id, ids);
      if !inserted {
        scenarios := before;
        return ErrInternal;
      }
      assert scenarios == before[id := Scenario(ownerId, IdSet(ids))];
      return Done;
    }

    /** The update transaction: clears the membership and writes it again. */
    method UpdateUserScenario(id: Id, ids: seq<Id>) returns (reply: Reply)
      modifies this`scenarios
      ensures (View(), reply) == ReplaceMembers(old(View()), id, IdSet(ids))
    {
      if id !in scenarios { return ErrInternal; }
      var before := scenarios;
      scenarios := scenarios[id := scenarios[id].(members := {})];
      var inserted := InsertUserScenarioMembership(id, ids);
      if !inserted {
        scenarios := before;
        return ErrInternal;
      }
      assert scenarios == before[id := Scenario(before[id].ownerId, IdSet(ids))];
      return Done;
    }

    /** The handler's create with nothing between its check and its write. */
    method CreateValidated(id: Id, ownerId: Id, ids: seq<Id>) returns (reply: Reply)
      modifies this`scenarios
      ensures (View(), reply) == CreateScenario(old(View()), id, ownerId, IdSet(ids))
    {
      var allowed := ValidateScenario(ownerId, ids);
      if !allowed { return ErrUnauthorizedMember; }
      reply := CreateUserScenario(id, ownerId, ids);
    }

    /** The handler's update, likewise. */
    method UpdateValidated(id: Id, ids: seq<Id>) returns (reply: Reply)
      modifies this`scenarios
      ensures (View(), reply) == UpdateScenario(old(View()), id, IdSet(ids))
    {
      if id !in scenarios { return ErrInternal; }
      var allowed := ValidateScenario(scenarios[id].ownerId, ids);
      if !allowed { return ErrUnauthorizedMember; }
      reply := UpdateUserScenario(id, ids);
    }
  }

  function IdSet(ids: seq<Id>): set<Id> {
    set m | m in ids
  }
}
