/**
 Who may do what in the handover protocol, and what each transaction leaves behind, said of the columns of the
 rows (internal/persistence/postgres/handover.go).
 */
module HandoverLaws {
  import opened Collections
  import opened HandoverTables
  import opened HandoverSafety
  import opened HandoverBelongings
  import opened Text
  import HandoverHistory

  // ----- Cancelling and declining -----

  /** Only the sender cancels, and only while the offer is pending and has not expired. */
  lemma SenderCancels(w: World, id: Id, callerId: Id)
    ensures var (w', reply) := Step(w, OpCancel(id, callerId));
            if id !in w.handovers || w.handovers[id].fromId != callerId then reply == ErrNotFound && w' == w
            else if w.handovers[id].status != Pending || w.handovers[id].expiresAt <= w.now then reply == ErrNotPending && w' == w
            else
              var row := w.handovers[id].(status := Cancelled, decidedAt := Some(w.now));
              reply == Stored(row) && w' == w.(handovers := w.handovers[id := row])
  {
  }

  /** Only the recipient declines, likewise. */
  lemma RecipientDeclines(w: World, id: Id, callerId: Id)
    ensures var (w', reply) := Step(w, OpDecline(id, callerId));
            if id !in w.handovers || w.handovers[id].toId != callerId then reply == ErrNotFound && w' == w
            else if w.handovers[id].status != Pending || w.handovers[id].expiresAt <= w.now then reply == ErrNotPending && w' == w
            else
              var row := w.handovers[id].(status := Declined, decidedAt := Some(w.now));
              reply == Stored(row) && w' == w.(handovers := w.handovers[id := row])
  {
  }

  // ----- Offering -----

  lemma IndexAfterExpiry(rows: map<Id, Row>, serviceId: Id, now: int)
    ensures IndexHolds(ExpireStalePending(rows, serviceId, now), serviceId) <==>
              exists h :: h in rows && rows[h].serviceId == serviceId && rows[h].status == Pending && rows[h].expiresAt > now
  {
    var expired := ExpireStalePending(rows, serviceId, now);
    if IndexHolds(expired, serviceId) {
      var h :| h in expired && expired[h].serviceId == serviceId && expired[h].status == Pending;
      assert rows[h].expiresAt > now;
    }
    if h :| h in rows && rows[h].serviceId == serviceId && rows[h].status == Pending && rows[h].expiresAt > now {
      assert expired[h].status == Pending;
    }
  }

  /**
   An offer is refused while another of the service is pending and has not expired. Otherwise it is stored for
   fourteen days, from the caller to somebody else. Every other row keeps its parties, and its status unless
   it had expired.
   */
  lemma OfferStored(w: World, id: Id, serviceId: Id, fromId: Id, toId: Id)
    ensures var (w', reply) := Step(w, OpOffer(id, serviceId, fromId, toId));
            var live := exists h :: h in w.handovers && w.handovers[h].serviceId == serviceId
                                    && w.handovers[h].status == Pending && w.handovers[h].expiresAt > w.now;
            if id in w.handovers || fromId == toId then reply == ErrInternal && w' == w
            else if live then reply == ErrPending && w' == w
            else if serviceId !in w.services || fromId !in w.users || toId !in w.users then reply == ErrInternal && w' == w
            else
              var row := Row(serviceId, fromId, toId, Pending, w.now, None, w.now + 1209600, None);
              && reply == Stored(row) && id in w'.handovers && w'.handovers[id] == row
              && w' == w.(handovers := w'.handovers) && w'.handovers.Keys == w.handovers.Keys + {id}
  {
    hide IndexHolds, ExpireStalePending;
    IndexAfterExpiry(w.handovers, serviceId, w.now);
    ExpiredRows(w.handovers, serviceId, w.now);
  }

  /** The rows an offer finds: those of the service that had expired are marked so, nothing else changes. */
  lemma OfferLeavesOthers(w: World, id: Id, serviceId: Id, fromId: Id, toId: Id, h: Id)
    requires h in w.handovers && Step(w, OpOffer(id, serviceId, fromId, toId)).1.Stored?
    ensures var w', r := Step(w, OpOffer(id, serviceId, fromId, toId)).0, w.handovers[h];
            && h in w'.handovers
            && w'.handovers[h] == if r.serviceId == serviceId && r.status == Pending && r.expiresAt <= w.now
                                  then r.(status := Expired, decidedAt := Some(r.expiresAt)) else r
  {
    hide IndexHolds;
  }

  // ----- Moving -----

  /** The service can be given away: it is in no scenario, and the recipient can reference its route or a copy. */
  ghost predicate CanMove(w: World, serviceId: Id, toId: Id, copyId: Id)
    requires serviceId in w.services
  {
    && (forall sc :: sc in w.scenarios ==> serviceId !in w.scenarios[sc].members)
    && w.services[serviceId].routeId in w.routes
    && var route := w.routes[w.services[serviceId].routeId];
       (|| route.ownerId.None? || route.ownerId.value == toId
        || (&& copyId !in w.routes
            && exists n :: 2 <= n <= 100 && forall r :: r in w.routes ==> w.routes[r].slug != Suffixed(route.slug, n)))
  }

  lemma MovesIff(w: World, serviceId: Id, toId: Id, copyId: Id)
    requires serviceId in w.services
    ensures Move(w, serviceId, toId, copyId).1 == Done <==> CanMove(w, serviceId, toId, copyId)
  {
    hide Suffixed, JobsMoved;
    var svc := w.services[serviceId];
    if svc.routeId in w.routes {
      var route := w.routes[svc.routeId];
      hide FreeSuffix;
      var n := FreeSuffix(w.routes, route.slug, 2);
      SuffixLeft(w.routes, route.slug);
    }
  }

  lemma SuffixLeft(routes: map<Id, Route>, slug: string)
    ensures FreeSuffix(routes, slug, 2).Some? <==>
              exists n :: 2 <= n <= 100 && forall r :: r in routes ==> routes[r].slug != Suffixed(slug, n)
  {
    hide Suffixed;
    var n := FreeSuffix(routes, slug, 2);
    hide FreeSuffix;
    if k :| 2 <= k <= 100 && forall r :: r in routes ==> routes[r].slug != Suffixed(slug, k) {
      assert !SlugTaken(routes, Suffixed(slug, k));
    }
    if n.Some? {
      assert forall r :: r in routes ==> routes[r].slug != Suffixed(slug, n.value);
    }
  }

  // ----- Accepting -----

  /** The service now belongs to `toId`; no other service changed. */
  ghost predicate Given(w: World, w': World, serviceId: Id, toId: Id) {
    && serviceId in w.services && serviceId in w'.services
    && w'.services[serviceId].ownerId == toId && w'.services[serviceId].updatedAt == w.now
    && w'.services == w.services[serviceId := w'.services[serviceId]]
    && w'.users == w.users && w'.scenarios == w.scenarios && w'.now == w.now
  }

  lemma MoveGives(w: World, serviceId: Id, toId: Id, copyId: Id)
    requires serviceId in w.services && Move(w, serviceId, toId, copyId).1 == Done
    ensures Given(w, Move(w, serviceId, toId, copyId).0, serviceId, toId)
  {
    hide InScenario, FreeSuffix, JobsMoved, Suffixed;
  }

  /**
   Only the recipient accepts, only while the offer is pending and has not expired, only from the owner, and not
   with a disabled account. If the service can be given away it is the recipient's afterwards and the offer is
   accepted; in every other case nothing changes.
   */
  lemma RecipientAccepts(w: World, id: Id, callerId: Id, copyId: Id)
    ensures var (w', reply) := Step(w, OpAccept(id, callerId, copyId));
            if id !in w.handovers || w.handovers[id].toId != callerId || w.handovers[id].serviceId !in w.services
            then reply == ErrNotFound && w' == w
            else
              var row := w.handovers[id];
              if row.status != Pending || row.expiresAt <= w.now then reply == ErrNotPending && w' == w
              else if w.services[row.serviceId].ownerId != row.fromId then reply == ErrSenderNotOwner && w' == w
              else if callerId !in w.users then reply == ErrInternal && w' == w
              else if w.users[callerId] then reply == ErrRecipientDisabled && w' == w
              else if CanMove(w, row.serviceId, callerId, copyId) then
                var closed := row.(status := Accepted, decidedAt := Some(w.now));
                && reply == Stored(closed) && w'.handovers == w.handovers[id := closed]
                && Given(w, w', row.serviceId, callerId) && w'.services[row.serviceId].ownerId == callerId
              else (reply == ErrInScenarios || reply == ErrInternal) && w' == w
  {
    hide Move, CanMove;
    if id in w.handovers && w.handovers[id].serviceId in w.services {
      var s := w.handovers[id].serviceId;
      MovesIff(w, s, callerId, copyId);
      MoveRefused(w, s, callerId, copyId);
      if Move(w, s, callerId, copyId).1 == Done {
        MoveGives(w, s, callerId, copyId);
      }
    }
  }

  // ----- Transferring -----

  lemma ClosedOffers(rows: map<Id, Row>, serviceId: Id, now: int, h: Id)
    requires h in rows
    ensures var r, rows' := rows[h], ClosePending(rows, serviceId, now);
            && h in rows'
            && rows'[h] == if r.serviceId != serviceId || r.status != Pending then r
                           else if r.expiresAt <= now then r.(status := Expired, decidedAt := Some(r.expiresAt))
                           else r.(status := Cancelled, decidedAt := Some(now))
  {
  }

  /** What an admin transfer writes: the service given, its pending offers closed, and the audit row. */
  ghost predicate TransferredTo(w: World, w': World, serviceId: Id, toId: Id, forcedBy: Id, id: Id)
    requires serviceId in w.services
  {
    && Given(w, w', serviceId, toId)
    && w'.handovers.Keys == w.handovers.Keys + {id} && id in w'.handovers
    && w'.handovers[id] == Row(serviceId, w.services[serviceId].ownerId, toId, Accepted, w.now, Some(w.now), w.now, Some(forcedBy))
    && forall h :: h in w.handovers && h != id ==>
         var r := w.handovers[h];
         w'.handovers[h] == if r.serviceId != serviceId || r.status != Pending then r
                            else if r.expiresAt <= w.now then r.(status := Expired, decidedAt := Some(r.expiresAt))
                            else r.(status := Cancelled, decidedAt := Some(w.now))
  }

  lemma AdminTransfers(w: World, serviceId: Id, toId: Id, forcedBy: Id, id: Id, copyId: Id)
    ensures var (w', reply) := Step(w, OpTransfer(serviceId, toId, forcedBy, id, copyId));
            if serviceId !in w.services then reply == ErrInternal && w' == w
            else if w.services[serviceId].ownerId == toId then reply == ErrToOwner && w' == w
            else if toId !in w.users then reply == ErrInternal && w' == w
            else if w.users[toId] then reply == ErrRecipientDisabled && w' == w
            else if CanMove(w, serviceId, toId, copyId) && id !in w.handovers then
              && reply.Stored? && id in w'.handovers && reply.row == w'.handovers[id]
              && TransferredTo(w, w', serviceId, toId, forcedBy, id) && w'.services[serviceId].ownerId == toId
            else (reply == ErrInScenarios || reply == ErrInternal) && w' == w
  {
    hide Move, CanMove, ClosePending;
    if serviceId in w.services {
      MovesIff(w, serviceId, toId, copyId);
      MoveRefused(w, serviceId, toId, copyId);
      if Move(w, serviceId, toId, copyId).1 == Done && id !in w.handovers {
        MoveGives(w, serviceId, toId, copyId);
        ClosePendingRows(w.handovers, serviceId, w.now);
        forall h | h in w.handovers {
          ClosedOffers(w.handovers, serviceId, w.now, h);
        }
      }
    }
  }

  // ----- Who decided -----

  ghost predicate SameParties(a: Row, b: Row) {
    a.serviceId == b.serviceId && a.fromId == b.fromId && a.toId == b.toId
  }

  /** The step may give the row this status: the party's own decision, or an admin's transfer. */
  ghost predicate Decides(op: Op, h: Id, row: Row) {
    match row.status
    case Pending => true
    case Expired => true
    case Cancelled => op == OpCancel(h, row.fromId) || (op.OpTransfer? && op.serviceId == row.serviceId)
    case Declined => op == OpDecline(h, row.toId)
    case Accepted => (op.OpAccept? && op.id == h && op.callerId == row.toId)
                     || (op.OpTransfer? && op.id == h && op.serviceId == row.serviceId && op.toId == row.toId)
  }

  /** After a step an offer is as it was, or the step decided it. */
  ghost predicate KeptOrDecided(w: World, w': World, op: Op, h: Id)
    requires h in w'.handovers
  {
    if h !in w.handovers then Decides(op, h, w'.handovers[h])
    else SameParties(w.handovers[h], w'.handovers[h])
         && (w'.handovers[h].status == w.handovers[h].status || Decides(op, h, w'.handovers[h]))
  }

  lemma OfferDecides(w: World, op: Op, h: Id)
    requires op.OpOffer? && h in Step(w, op).0.handovers
    ensures KeptOrDecided(w, Step(w, op).0, op, h)
  {
    hide Step;
    OfferStored(w, op.id, op.serviceId, op.fromId, op.toId);
    if h in w.handovers && Step(w, op).1.Stored? {
      OfferLeavesOthers(w, op.id, op.serviceId, op.fromId, op.toId, h);
    }
  }

  lemma DecisionDecides(w: World, op: Op, h: Id)
    requires (op.OpCancel? || op.OpDecline?) && h in Step(w, op).0.handovers
    ensures KeptOrDecided(w, Step(w, op).0, op, h)
  {
    hide Step;
    if op.OpCancel? {
      SenderCancels(w, op.id, op.callerId);
    } else {
      RecipientDeclines(w, op.id, op.callerId);
    }
  }

  lemma AcceptDecides(w: World, op: Op, h: Id)
    requires op.OpAccept? && h in Step(w, op).0.handovers
    ensures KeptOrDecided(w, Step(w, op).0, op, h)
  {
    hide Step, CanMove, Given;
    RecipientAccepts(w, op.id, op.callerId, op.copyId);
  }

  lemma TransferDecides(w: World, op: Op, h: Id)
    requires op.OpTransfer? && h in Step(w, op).0.handovers
    ensures KeptOrDecided(w, Step(w, op).0, op, h)
  {
    hide Step, CanMove, Given;
    AdminTransfers(w, op.serviceId, op.toId, op.forcedBy, op.id, op.copyId);
  }

  lemma DeleteKeepsRows(w: World, op: Op, h: Id)
    requires op.OpDeleteService? && h in Step(w, op).0.handovers
    ensures h in w.handovers && Step(w, op).0.handovers[h] == w.handovers[h]
  {
  }

  lemma StepDecides(w: World, op: Op, h: Id)
    requires h in Step(w, op).0.handovers
    ensures KeptOrDecided(w, Step(w, op).0, op, h)
  {
    hide Step, Decides;
    match op
    case OpOffer(_, _, _, _) => OfferDecides(w, op, h);
    case OpCancel(_, _) => DecisionDecides(w, op, h);
    case OpDecline(_, _) => DecisionDecides(w, op, h);
    case OpAccept(_, _, _) => AcceptDecides(w, op, h);
    case OpTransfer(_, _, _, _, _) => TransferDecides(w, op, h);
    case OpDeleteService(_) => DeleteKeepsRows(w, op, h);
    case OpTick(later) => RowsKept(w, op);
    case _ => RowsKept(w, op);
  }

  lemma RowsKept(w: World, op: Op)
    requires op.OpTick? || op.OpPutUser? || op.OpAddRoute? || op.OpCreateService? || op.OpUpdateService? || op.OpAddJob?
             || op.OpCreateScenario? || op.OpUpdateScenario? || op.OpDeleteScenario?
    ensures Step(w, op).0.handovers == w.handovers
  {
    if !op.OpTick? {
      HandoverHistory.OffersUntouched(w, op);
    }
    hide OwnsAll, SlugTaken, Offer, Decide, Accept, Transfer, DeleteService, CreateService, UpdateService, AddJob,
         CreateScenario, UpdateScenario, DeleteScenario;
  }

  /**
   Over any run from the empty database: an offer that ends up declined was declined by its recipient, an
   accepted one was accepted by its recipient or made by an admin's transfer to that user, and a cancelled
   one was cancelled by its sender or by an admin's transfer of the service.
   */
  lemma {:induction false} DecidedByParties(ops: seq<Op>, h: Id) returns (k: nat)
    requires h in Run(EMPTY, ops).0.handovers
    ensures var row := Run(EMPTY, ops).0.handovers[h];
            && (row.status != Pending && row.status != Expired ==> k < |ops| && Decides(ops[k], h, row))
            && (row.status == Declined ==> ops[k] == OpDecline(h, row.toId))
            && (row.status == Cancelled ==>
                  ops[k] == OpCancel(h, row.fromId) || (ops[k].OpTransfer? && ops[k].serviceId == row.serviceId))
            && (row.status == Accepted ==>
                  || (ops[k].OpAccept? && ops[k].id == h && ops[k].callerId == row.toId)
                  || (ops[k].OpTransfer? && ops[k].id == h && ops[k].serviceId == row.serviceId && ops[k].toId == row.toId))
  {
    hide Step, Run, Decides;
    k := 0;
    if ops == [] {
      EmptyRun(EMPTY, ops);
    } else {
      var n := |ops| - 1;
      assert ops == ops[..n] + [ops[n]];
      RunOneMore(EMPTY, ops[..n], ops[n]);
      var before := Run(EMPTY, ops[..n]).0;
      StepDecides(before, ops[n], h);
      var row := Run(EMPTY, ops).0.handovers[h];
      if h in before.handovers && !Decides(ops[n], h, row) {
        k := DecidedByParties(ops[..n], h);
        if k < n {
          SamePartiesDecide(ops[k], h, before.handovers[h], row);
        }
      } else {
        k := n;
      }
      WhatDecides(if k < |ops| then ops[k] else ops[n], h, row);
    }
  }

  lemma WhatDecides(op: Op, h: Id, row: Row)
    requires Decides(op, h, row)
    ensures row.status == Declined ==> op == OpDecline(h, row.toId)
    ensures row.status == Cancelled ==> op == OpCancel(h, row.fromId) || (op.OpTransfer? && op.serviceId == row.serviceId)
    ensures row.status == Accepted ==>
              || (op.OpAccept? && op.id == h && op.callerId == row.toId)
              || (op.OpTransfer? && op.id == h && op.serviceId == row.serviceId && op.toId == row.toId)
  {
  }

  lemma SamePartiesDecide(op: Op, h: Id, a: Row, b: Row)
    requires SameParties(a, b) && a.status == b.status
    ensures Decides(op, h, a) <==> Decides(op, h, b)
  {
  }

  // ----- Scenarios and deletion -----

  /**
   A scenario is created with exactly the services given if the id is free, its owner exists, and every one of
   them exists and is the owner's; otherwise nothing changes.
   */
  lemma ScenarioCreated(w: World, id: Id, ownerId: Id, members: set<Id>)
    ensures var (w', reply) := Step(w, OpCreateScenario(id, ownerId, members));
            if !(forall m :: m in members ==> m in w.services && w.services[m].ownerId == ownerId)
            then reply == ErrUnauthorizedMember && w' == w
            else if id in w.scenarios || ownerId !in w.users then reply == ErrInternal && w' == w
            else reply == Done && w' == w.(scenarios := w.scenarios[id := Scenario(ownerId, members)])
  {
  }

  /** An update replaces the services and keeps the owner, to whom every one of them must belong. */
  lemma ScenarioUpdated(w: World, id: Id, members: set<Id>)
    ensures var (w', reply) := Step(w, OpUpdateScenario(id, members));
            if id !in w.scenarios then reply == ErrInternal && w' == w
            else
              var ownerId := w.scenarios[id].ownerId;
              if !(forall m :: m in members ==> m in w.services && w.services[m].ownerId == ownerId)
              then reply == ErrUnauthorizedMember && w' == w
              else reply == Done && w' == w.(scenarios := w.scenarios[id := Scenario(ownerId, members)])
  {
  }

  /** Deleting a service takes its offers, its jobs and its memberships with it, and nothing else. */
  lemma ServiceDeleted(w: World, id: Id)
    ensures var (w', reply) := Step(w, OpDeleteService(id));
            if id !in w.services then reply == ErrInternal && w' == w
            else
              && reply == Done && w'.services == w.services - {id}
              && w'.routes == w.routes && w'.users == w.users && w'.now == w.now
              && (forall h :: h in w'.handovers <==> h in w.handovers && w.handovers[h].serviceId != id)
              && (forall h :: h in w'.handovers ==> w'.handovers[h] == w.handovers[h])
              && (forall j :: j in w'.jobs <==> j in w.jobs && w.jobs[j].serviceId != id)
              && (forall j :: j in w'.jobs ==> w'.jobs[j] == w.jobs[j])
              && w'.scenarios.Keys == w.scenarios.Keys
              && forall sc :: sc in w.scenarios ==>
                   w'.scenarios[sc].ownerId == w.scenarios[sc].ownerId && w'.scenarios[sc].members == w.scenarios[sc].members - {id}
  {
  }
}
