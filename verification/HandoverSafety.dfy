/**
 What every run of the handover protocol keeps: an unbroken chain of ownership, at most one pending
 offer per service, and scenarios whose members all belong to the scenario's owner.
 */
module HandoverSafety {
  import opened Collections
  import opened HandoverTables
  import opened Text

  // ----- The invariants -----

  /** The id names an accepted handover of the service. */
  ghost predicate AcceptedFor(rows: map<Id, Row>, serviceId: Id, id: Id) {
    id in rows && rows[id].serviceId == serviceId && rows[id].status == Accepted
  }

  /** The handovers link up: from the creator, each leaving whoever the one before went to, to `ownerId`. */
  ghost predicate LinksUp(rows: map<Id, Row>, creator: Id, ids: seq<Id>, ownerId: Id) {
    if ids == [] then ownerId == creator
    else
      var last := ids[|ids| - 1];
      && last in rows
      && rows[last].toId == ownerId
      && LinksUp(rows, creator, ids[..|ids| - 1], rows[last].fromId)
  }

  /** The ids are the accepted handovers of the service, each exactly once, and they link up. */
  ghost predicate Chain(rows: map<Id, Row>, serviceId: Id, creator: Id, ids: seq<Id>, ownerId: Id) {
    && NoRepeat(ids)
    && (forall h :: AcceptedFor(rows, serviceId, h) <==> h in ids)
    && LinksUp(rows, creator, ids, ownerId)
  }

  ghost predicate Chained(w: World) {
    && w.ledger.Keys == w.services.Keys == w.creator.Keys
    && forall s :: s in w.services ==> Chain(w.handovers, s, w.creator[s], w.ledger[s], w.services[s].ownerId)
  }

  ghost predicate OnePending(rows: map<Id, Row>) {
    forall g, h | g in rows && h in rows && rows[g].status == Pending && rows[h].status == Pending
      && rows[g].serviceId == rows[h].serviceId :: g == h
  }

  ghost predicate MembersOwned(w: World) {
    forall sc :: sc in w.scenarios ==> OwnsAll(w, w.scenarios[sc].ownerId, w.scenarios[sc].members)
  }

  /** Offers reference services that exist. */
  ghost predicate Referential(w: World) {
    forall h :: h in w.handovers ==> w.handovers[h].serviceId in w.services
  }

  ghost predicate Safe(w: World) {
    Chained(w) && OnePending(w.handovers) && MembersOwned(w) && Referential(w)
  }

  // ----- Chains -----

  /** The two tables hold the same accepted rows. */
  ghost predicate SameAccepted(rows: map<Id, Row>, rows': map<Id, Row>) {
    forall h ::
      && ((h in rows && rows[h].status == Accepted) <==> (h in rows' && rows'[h].status == Accepted))
      && (h in rows && rows[h].status == Accepted && h in rows' ==> rows[h] == rows'[h])
  }

  lemma {:induction false} LinksKept(rows: map<Id, Row>, rows': map<Id, Row>, creator: Id, ids: seq<Id>, ownerId: Id)
    requires LinksUp(rows, creator, ids, ownerId)
    requires forall h :: h in ids && h in rows ==> h in rows' && rows[h] == rows'[h]
    ensures LinksUp(rows', creator, ids, ownerId)
  {
    if ids != [] {
      var last := ids[|ids| - 1];
      assert last in ids;
      LinksKept(rows, rows', creator, ids[..|ids| - 1], rows[last].fromId);
    }
  }

  lemma ChainKept(rows: map<Id, Row>, rows': map<Id, Row>, serviceId: Id, creator: Id, ids: seq<Id>, ownerId: Id)
    requires Chain(rows, serviceId, creator, ids, ownerId)
    requires forall h :: AcceptedFor(rows, serviceId, h) <==> AcceptedFor(rows', serviceId, h)
    requires forall h :: AcceptedFor(rows, serviceId, h) ==> h in rows' && rows[h] == rows'[h]
    ensures Chain(rows', serviceId, creator, ids, ownerId)
  {
    hide LinksUp;
    LinksKept(rows, rows', creator, ids, ownerId);
  }

  /** A newly accepted handover that leaves the current owner extends the chain to its recipient. */
  lemma ChainExtended(rows: map<Id, Row>, rows': map<Id, Row>, serviceId: Id, creator: Id, ids: seq<Id>, ownerId: Id, id: Id)
    requires Chain(rows, serviceId, creator, ids, ownerId)
    requires !AcceptedFor(rows, serviceId, id) && AcceptedFor(rows', serviceId, id)
    requires forall h :: h != id ==> (AcceptedFor(rows, serviceId, h) <==> AcceptedFor(rows', serviceId, h))
    requires forall h :: h != id && AcceptedFor(rows, serviceId, h) ==> h in rows' && rows[h] == rows'[h]
    requires rows'[id].fromId == ownerId
    ensures Chain(rows', serviceId, creator, ids + [id], rows'[id].toId)
  {
    LinksKept(rows, rows', creator, ids, ownerId);
    assert (ids + [id])[..|ids|] == ids;
    assert LinksUp(rows', creator, ids + [id], rows'[id].toId);
    hide LinksUp, AcceptedFor;
    assert forall h :: h in ids + [id] <==> h in ids || h == id;
  }

  lemma ChainedKept(w: World, w': World)
    requires Chained(w) && SameAccepted(w.handovers, w'.handovers)
    requires w'.ledger == w.ledger && w'.creator == w.creator && w'.services.Keys == w.services.Keys
    requires forall s :: s in w.services ==> w'.services[s].ownerId == w.services[s].ownerId
    ensures Chained(w')
  {
    hide Chain;
    forall s | s in w'.services ensures Chain(w'.handovers, s, w'.creator[s], w'.ledger[s], w'.services[s].ownerId) {
      ChainKept(w.handovers, w'.handovers, s, w.creator[s], w.ledger[s], w.services[s].ownerId);
    }
  }

  // ----- Each transaction -----

  /** A pending row put in where the service has none keeps pending offers single. */
  lemma OnePendingMore(rows: map<Id, Row>, id: Id, row: Row)
    requires OnePending(rows) && id !in rows && !IndexHolds(rows, row.serviceId)
    ensures OnePending(rows[id := row])
  {
  }

  lemma ExpiredRows(rows: map<Id, Row>, serviceId: Id, now: int)
    ensures var rows' := ExpireStalePending(rows, serviceId, now);
            && rows'.Keys == rows.Keys && SameAccepted(rows, rows')
            && (forall h :: h in rows ==> rows'[h].serviceId == rows[h].serviceId)
            && (OnePending(rows) ==> OnePending(rows'))
  {
  }

  lemma OfferSafe(w: World, id: Id, serviceId: Id, fromId: Id, toId: Id)
    requires Safe(w)
    ensures Safe(Offer(w, id, serviceId, fromId, toId).0)
  {
    hide Chained, MembersOwned, ExpireStalePending, OnePending, IndexHolds;
    var (w', reply) := Offer(w, id, serviceId, fromId, toId);
    if reply.Stored? {
      var rows := ExpireStalePending(w.handovers, serviceId, w.now);
      ExpiredRows(w.handovers, serviceId, w.now);
      OnePendingMore(rows, id, reply.row);
      assert w' == w.(handovers := rows[id := reply.row]);
      assert reply.row.status == Pending && reply.row.serviceId == serviceId && serviceId in w.services;
      hide Offer;
      assert SameAccepted(w.handovers, w'.handovers);
      hide SameAccepted;
      ChainedKept(w, w');
      MembersKept(w, w');
    }
  }

  lemma MembersKept(w: World, w': World)
    requires MembersOwned(w) && w'.scenarios == w.scenarios && w.services.Keys <= w'.services.Keys
    requires forall s :: s in w.services ==> w'.services[s].ownerId == w.services[s].ownerId
    ensures MembersOwned(w')
  {
  }

  lemma DecideSafe(w: World, id: Id, party: Party, callerId: Id, status: Status)
    requires Safe(w) && status != Pending && status != Accepted
    ensures Safe(Decide(w, id, party, callerId, status).0)
  {
    hide Chained, OwnsAll;
    var (w', reply) := Decide(w, id, party, callerId, status);
    if reply.Stored? {
      assert SameAccepted(w.handovers, w'.handovers);
      ChainedKept(w, w');
      MembersKept(w, w');
    }
  }

  /** What a move changes: the one service's owner and route, its jobs, and at most one new route. */
  lemma MoveEffects(w: World, serviceId: Id, toId: Id, copyId: Id)
    requires serviceId in w.services
    ensures var (moved, reply) := Move(w, serviceId, toId, copyId);
            && (reply == Done || reply == ErrInScenarios || reply == ErrInternal)
            && (reply != Done ==> moved == w)
            && (reply == Done ==>
                  && !InScenario(w, serviceId)
                  && moved.services == w.services[serviceId := moved.services[serviceId]]
                  && moved.services[serviceId].ownerId == toId
                  && moved.now == w.now && moved.users == w.users && moved.handovers == w.handovers
                  && moved.scenarios == w.scenarios && moved.creator == w.creator && moved.ledger == w.ledger)
  {
    MoveRefused(w, serviceId, toId, copyId);
    if Move(w, serviceId, toId, copyId).1 == Done {
      MoveTouches(w, serviceId, toId, copyId);
    }
    hide Move;
  }

  lemma MoveTouches(w: World, serviceId: Id, toId: Id, copyId: Id)
    requires serviceId in w.services && Move(w, serviceId, toId, copyId).1 == Done
    ensures var moved := Move(w, serviceId, toId, copyId).0;
            && !InScenario(w, serviceId)
            && serviceId in moved.services && moved.services[serviceId].ownerId == toId
            && moved.services == w.services[serviceId := moved.services[serviceId]]
            && moved == w.(routes := moved.routes, services := moved.services, jobs := JobsMoved(w.jobs, serviceId, toId))
  {
    hide InScenario, FreeSuffix, JobsMoved, SlugTaken;
  }

  /** After a move every compile job of the service belongs to the recipient, and no other job changed. */
  lemma MoveCarriesJobs(w: World, serviceId: Id, toId: Id, copyId: Id, j: Id)
    requires serviceId in w.services && Move(w, serviceId, toId, copyId).1 == Done
    ensures var moved := Move(w, serviceId, toId, copyId).0;
            && (j in moved.jobs <==> j in w.jobs)
            && (j in w.jobs ==>
                  && moved.jobs[j].serviceId == w.jobs[j].serviceId
                  && moved.jobs[j].ownerId == if w.jobs[j].serviceId == serviceId then toId else w.jobs[j].ownerId)
  {
    MoveTouches(w, serviceId, toId, copyId);
    hide Move;
  }

  /**
   After a move the service's route is one the recipient can reference: nobody's, or the recipient's
   own, with the content of the old one. No existing route changed, and a copy took a free id and slug.
   */
  lemma MoveCarriesRoute(w: World, serviceId: Id, toId: Id, copyId: Id)
    requires serviceId in w.services && Move(w, serviceId, toId, copyId).1 == Done
    ensures var moved := Move(w, serviceId, toId, copyId).0;
            var routeId, routeId' := w.services[serviceId].routeId, moved.services[serviceId].routeId;
            && routeId in w.routes && routeId' in moved.routes
            && (moved.routes[routeId'].ownerId.None? || moved.routes[routeId'].ownerId == Some(toId))
            && moved.routes[routeId'].content == w.routes[routeId].content
            && (moved.routes == w.routes || moved.routes == w.routes[routeId' := moved.routes[routeId']])
            && (moved.routes != w.routes ==> routeId' !in w.routes && !SlugTaken(w.routes, moved.routes[routeId'].slug))
  {
    hide InScenario, SlugTaken, JobsMoved, FreeSuffix, Suffixed;
  }

  lemma AcceptSafe(w: World, id: Id, callerId: Id, copyId: Id)
    requires Safe(w)
    ensures Safe(Accept(w, id, callerId, copyId).0)
  {
    hide Chain, Move, OwnsAll, InScenario;
    var (w', reply) := Accept(w, id, callerId, copyId);
    if id in w.handovers && w.handovers[id].serviceId in w.services {
      var s := w.handovers[id].serviceId;
      MoveEffects(w, s, callerId, copyId);
      if reply.Stored? {
        assert w'.handovers == w.handovers[id := reply.row];
        ChainExtended(w.handovers, w'.handovers, s, w.creator[s], w.ledger[s], w.services[s].ownerId, id);
        OthersChained(w, w', s, id);
        MovedOutOfScenario(w, w', s);
      }
    }
  }

  /** Services other than the one that moved keep their chains. */
  lemma OthersChained(w: World, w': World, s: Id, id: Id)
    requires Chained(w) && s in w.services && w'.creator == w.creator
    requires s in w'.services && w'.services == w.services[s := w'.services[s]]
    requires w'.ledger == w.ledger[s := w.ledger[s] + [id]]
    requires forall t, h :: t != s ==> (AcceptedFor(w.handovers, t, h) <==> AcceptedFor(w'.handovers, t, h))
    requires forall t, h :: t != s && AcceptedFor(w.handovers, t, h) ==> h in w'.handovers && w.handovers[h] == w'.handovers[h]
    requires Chain(w'.handovers, s, w.creator[s], w.ledger[s] + [id], w'.services[s].ownerId)
    ensures Chained(w')
  {
    hide Chain, AcceptedFor;
    forall t | t in w'.services ensures Chain(w'.handovers, t, w'.creator[t], w'.ledger[t], w'.services[t].ownerId) {
      if t != s {
        ChainKept(w.handovers, w'.handovers, t, w.creator[t], w.ledger[t], w.services[t].ownerId);
      }
    }
  }

  /** A service in no scenario can change hands without breaking membership. */
  lemma MovedOutOfScenario(w: World, w': World, s: Id)
    requires MembersOwned(w) && !InScenario(w, s) && w'.scenarios == w.scenarios
    requires s in w'.services && w'.services == w.services[s := w'.services[s]]
    ensures MembersOwned(w')
  {
    forall sc | sc in w'.scenarios ensures OwnsAll(w', w'.scenarios[sc].ownerId, w'.scenarios[sc].members) {
      assert OwnsAll(w, w.scenarios[sc].ownerId, w.scenarios[sc].members);
      assert s !in w.scenarios[sc].members;
    }
  }

  lemma ClosePendingRows(rows: map<Id, Row>, serviceId: Id, now: int)
    ensures ClosePending(rows, serviceId, now).Keys == rows.Keys
    ensures forall h :: h in rows ==>
              var r := ClosePending(rows, serviceId, now)[h];
              && r.serviceId == rows[h].serviceId
              && (r.status == Pending ==> r == rows[h] && rows[h].serviceId != serviceId)
              && (r.status == Accepted <==> rows[h].status == Accepted)
              && (rows[h].status == Accepted ==> r == rows[h])
  {
  }

  /** The audit row takes the place of the pending offers it closes. */
  lemma AuditRow(rows: map<Id, Row>, serviceId: Id, now: int, id: Id, row: Row)
    requires OnePending(rows) && id !in rows && row.status == Accepted && row.serviceId == serviceId
    ensures var rows' := ClosePending(rows, serviceId, now)[id := row];
            && OnePending(rows')
            && (forall h :: h in rows' && h != id ==> h in rows && rows'[h].serviceId == rows[h].serviceId)
            && (forall t, h :: h != id ==> (AcceptedFor(rows, t, h) <==> AcceptedFor(rows', t, h)))
            && (forall t, h :: h != id && AcceptedFor(rows, t, h) ==> h in rows' && rows[h] == rows'[h])
  {
    ClosePendingRows(rows, serviceId, now);
    hide ClosePending;
  }

  lemma TransferSafe(w: World, serviceId: Id, toId: Id, forcedBy: Id, id: Id, copyId: Id)
    requires Safe(w)
    ensures Safe(Transfer(w, serviceId, toId, forcedBy, id, copyId).0)
  {
    hide Chain, Move, OwnsAll, InScenario, ClosePending, OnePending;
    var (w', reply) := Transfer(w, serviceId, toId, forcedBy, id, copyId);
    if serviceId in w.services {
      MoveEffects(w, serviceId, toId, copyId);
      if reply.Stored? {
        AuditRow(w.handovers, serviceId, w.now, id, reply.row);
        assert w'.handovers == ClosePending(w.handovers, serviceId, w.now)[id := reply.row];
        ChainExtended(w.handovers, w'.handovers, serviceId, w.creator[serviceId], w.ledger[serviceId],
                      w.services[serviceId].ownerId, id);
        OthersChained(w, w', serviceId, id);
        MovedOutOfScenario(w, w', serviceId);
      }
    }
  }

  lemma CreateServiceSafe(w: World, id: Id, ownerId: Id, routeId: Id)
    requires Safe(w)
    ensures Safe(CreateService(w, id, ownerId, routeId).0)
  {
    hide Chain;
    var (w', reply) := CreateService(w, id, ownerId, routeId);
    if reply == Done {
      assert Chain(w'.handovers, id, ownerId, [], ownerId) by {
        FreshChain(w.handovers, id, ownerId);
      }
    }
  }

  lemma FreshChain(rows: map<Id, Row>, id: Id, ownerId: Id)
    requires forall h :: h in rows ==> rows[h].serviceId != id
    ensures Chain(rows, id, ownerId, [], ownerId)
  {
  }

  lemma DeleteServiceSafe(w: World, id: Id)
    requires Safe(w)
    ensures Safe(DeleteService(w, id).0)
  {
    hide Chain;
    var (w', reply) := DeleteService(w, id);
    if reply == Done {
      forall s | s in w'.services ensures Chain(w'.handovers, s, w'.creator[s], w'.ledger[s], w'.services[s].ownerId) {
        ChainKept(w.handovers, w'.handovers, s, w.creator[s], w.ledger[s], w.services[s].ownerId);
      }
    }
  }

  /** A write that touches no offer, owner, history or membership, except to drop whole scenarios. */
  lemma FrameSafe(w: World, w': World)
    requires Safe(w)
    requires w'.handovers == w.handovers && w'.ledger == w.ledger && w'.creator == w.creator
    requires w'.services.Keys == w.services.Keys
    requires forall s :: s in w.services ==> w'.services[s].ownerId == w.services[s].ownerId
    requires forall sc :: sc in w'.scenarios ==> sc in w.scenarios && w'.scenarios[sc] == w.scenarios[sc]
    ensures Safe(w')
  {
    hide Chain, OwnsAll;
    ChainedKept(w, w');
    forall sc | sc in w'.scenarios ensures OwnsAll(w', w'.scenarios[sc].ownerId, w'.scenarios[sc].members) {
      assert OwnsAll(w, w.scenarios[sc].ownerId, w.scenarios[sc].members);
      SameOwners(w, w', w.scenarios[sc].ownerId, w.scenarios[sc].members);
    }
  }

  lemma SameOwners(w: World, w': World, ownerId: Id, members: set<Id>)
    requires OwnsAll(w, ownerId, members) && w'.services.Keys == w.services.Keys
    requires forall s :: s in w.services ==> w'.services[s].ownerId == w.services[s].ownerId
    ensures OwnsAll(w', ownerId, members)
  {
  }

  lemma UpdateServiceSafe(w: World, id: Id, routeId: Id)
    requires Safe(w)
    ensures Safe(UpdateService(w, id, routeId).0)
  {
    hide Safe;
    FrameSafe(w, UpdateService(w, id, routeId).0);
  }

  lemma AddRouteSafe(w: World, id: Id, route: Route)
    requires Safe(w)
    ensures Safe(AddRoute(w, id, route).0)
  {
    hide Safe, SlugTaken;
    var w' := AddRoute(w, id, route).0;
    assert w' == w.(routes := w'.routes);
    hide AddRoute;
    FrameSafe(w, w');
  }

  lemma AddJobSafe(w: World, id: Id, serviceId: Id, ownerId: Id)
    requires Safe(w)
    ensures Safe(AddJob(w, id, serviceId, ownerId).0)
  {
    hide Safe;
    var w' := AddJob(w, id, serviceId, ownerId).0;
    assert w' == w.(jobs := w'.jobs);
    hide AddJob;
    FrameSafe(w, w');
  }

  lemma DeleteScenarioSafe(w: World, id: Id)
    requires Safe(w)
    ensures Safe(DeleteScenario(w, id).0)
  {
    hide Safe;
    var w' := DeleteScenario(w, id).0;
    assert w' == w.(scenarios := w'.scenarios);
    assert forall sc :: sc in w'.scenarios ==> sc in w.scenarios && w'.scenarios[sc] == w.scenarios[sc];
    hide DeleteScenario;
    FrameSafe(w, w');
  }

  lemma LaterSafe(w: World, later: int)
    requires Safe(w)
    ensures Safe(w.(now := later))
  {
    hide Safe;
    FrameSafe(w, w.(now := later));
  }

  lemma TickSafe(w: World, later: int)
    requires Safe(w)
    ensures Safe(Tick(w, later))
  {
    hide Safe;
    if later > w.now {
      LaterSafe(w, later);
    }
  }

  lemma PutUserSafe(w: World, id: Id, disabled: bool)
    requires Safe(w)
    ensures Safe(PutUser(w, id, disabled))
  {
    hide Safe;
    var w' := PutUser(w, id, disabled);
    assert w' == w.(users := w'.users);
    hide PutUser;
    FrameSafe(w, w');
  }

  lemma InsertMembersSafe(w: World, id: Id, ownerId: Id, members: set<Id>)
    requires Safe(w) && OwnsAll(w, ownerId, members)
    ensures Safe(InsertMembers(w, id, ownerId, members).0)
  {
    hide Chain;
    var w' := InsertMembers(w, id, ownerId, members).0;
    ChainedKept(w, w');
    assert MembersOwned(w') by {
      forall sc | sc in w'.scenarios ensures OwnsAll(w', w'.scenarios[sc].ownerId, w'.scenarios[sc].members) {
        assert sc != id ==> OwnsAll(w, w.scenarios[sc].ownerId, w.scenarios[sc].members);
      }
    }
  }

  lemma ScenarioSafe(w: World, op: Op)
    requires Safe(w) && (op.OpCreateScenario? || op.OpUpdateScenario?)
    ensures Safe(Step(w, op).0)
  {
    hide Safe, Offer, Decide, Accept, Transfer, InsertMembers, OwnsAll;
    match op
    case OpCreateScenario(id, ownerId, members) =>
      if OwnsAll(w, ownerId, members) { InsertMembersSafe(w, id, ownerId, members); }
    case OpUpdateScenario(id, members) =>
      if id in w.scenarios && OwnsAll(w, w.scenarios[id].ownerId, members) {
        InsertMembersSafe(w, id, w.scenarios[id].ownerId, members);
      }
  }

  /** Every transaction, whatever its arguments and its outcome, keeps the protocol safe. */
  lemma StepSafe(w: World, op: Op)
    requires Safe(w)
    ensures Safe(Step(w, op).0)
  {
    hide Safe, Offer, Decide, Accept, Transfer, CreateService, UpdateService, DeleteService,
         CreateScenario, UpdateScenario, DeleteScenario, AddRoute, AddJob, PutUser, Tick;
    match op
    case OpCreateService(id, ownerId, routeId) => CreateServiceSafe(w, id, ownerId, routeId);
    case OpUpdateService(id, routeId) => UpdateServiceSafe(w, id, routeId);
    case OpDeleteService(id) => DeleteServiceSafe(w, id);
    case OpCreateScenario(id, ownerId, members) => ScenarioSafe(w, op);
    case OpUpdateScenario(id, members) => ScenarioSafe(w, op);
    case OpOffer(id, serviceId, fromId, toId) => OfferSafe(w, id, serviceId, fromId, toId);
    case OpCancel(id, callerId) => DecideSafe(w, id, Sender, callerId, Cancelled);
    case OpDecline(id, callerId) => DecideSafe(w, id, Recipient, callerId, Declined);
    case OpAccept(id, callerId, copyId) => AcceptSafe(w, id, callerId, copyId);
    case OpTransfer(serviceId, toId, forcedBy, id, copyId) => TransferSafe(w, serviceId, toId, forcedBy, id, copyId);
    case OpTick(later) => TickSafe(w, later);
    case OpPutUser(id, disabled) => PutUserSafe(w, id, disabled);
    case OpAddRoute(id, route) => AddRouteSafe(w, id, route);
    case OpAddJob(id, serviceId, ownerId) => AddJobSafe(w, id, serviceId, ownerId);
    case OpDeleteScenario(id) => DeleteScenarioSafe(w, id);
  }

  /** Safety over whole runs. */
  lemma {:induction false} RunSafe(w: World, ops: seq<Op>)
    requires Safe(w)
    ensures Safe(Run(w, ops).0)
    decreases |ops|
  {
    hide Safe, Step;
    if ops != [] {
      StepSafe(w, ops[0]);
      RunSafe(Step(w, ops[0]).0, ops[1..]);
    }
  }

  /** The empty database is safe, so every state it can reach is. */
  lemma ReachableSafe(ops: seq<Op>)
    ensures Safe(Run(EMPTY, ops).0)
  {
    assert Safe(EMPTY);
    RunSafe(EMPTY, ops);
  }
}
