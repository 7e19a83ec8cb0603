/**
 What goes with a service when it changes hands: its compile jobs, which only their owner may poll, and a
 route its owner may reference (internal/persistence/postgres/handover.go:296-316). The lemmas say which
 writes keep a service and its belongings together, and that a move brings them back together.
 */
module HandoverBelongings {
  import opened HandoverTables
  import opened HandoverSafety

  /** The route is nobody's, or the user's own. */
  predicate MayReference(route: Route, userId: Id) {
    route.ownerId.None? || route.ownerId.value == userId
  }

  ghost predicate RouteFits(w: World, s: Id)
    requires s in w.services
  {
    w.services[s].routeId in w.routes && MayReference(w.routes[w.services[s].routeId], w.services[s].ownerId)
  }

  ghost predicate JobFits(w: World, j: Id)
    requires j in w.jobs
  {
    w.jobs[j].serviceId in w.services && w.jobs[j].ownerId == w.services[w.jobs[j].serviceId].ownerId
  }

  /** Every service runs over a route its owner may reference, and every job is its service's owner's. */
  ghost predicate Together(w: World) {
    && (forall s :: s in w.services ==> RouteFits(w, s))
    && (forall j :: j in w.jobs ==> JobFits(w, j))
  }

  /** A route chosen for a service must suit its owner, and a new job must be its service's owner's. */
  predicate Fits(w: World, op: Op) {
    match op
    case OpCreateService(id, ownerId, routeId) =>
      id in w.services || ownerId !in w.users || routeId !in w.routes || MayReference(w.routes[routeId], ownerId)
    case OpUpdateService(id, routeId) =>
      id !in w.services || routeId !in w.routes || MayReference(w.routes[routeId], w.services[id].ownerId)
    case OpAddJob(id, serviceId, ownerId) =>
      id in w.jobs || serviceId !in w.services || ownerId == w.services[serviceId].ownerId
    case _ => true
  }

  // ----- Moving -----

  /** Whatever was the case before, a move brings the service and its belongings together. */
  lemma MoveRejoins(w: World, serviceId: Id, toId: Id, copyId: Id)
    requires serviceId in w.services && Move(w, serviceId, toId, copyId).1 == Done
    ensures var moved := Move(w, serviceId, toId, copyId).0;
            && serviceId in moved.services && RouteFits(moved, serviceId)
            && forall j :: j in moved.jobs && moved.jobs[j].serviceId == serviceId ==> JobFits(moved, j)
  {
    MoveEffects(w, serviceId, toId, copyId);
    MoveCarriesRoute(w, serviceId, toId, copyId);
    var moved := Move(w, serviceId, toId, copyId).0;
    forall j | j in moved.jobs && moved.jobs[j].serviceId == serviceId ensures JobFits(moved, j) {
      MoveCarriesJobs(w, serviceId, toId, copyId, j);
    }
    hide Move;
  }

  lemma MoveTogether(w: World, serviceId: Id, toId: Id, copyId: Id)
    requires Together(w) && serviceId in w.services
    ensures Together(Move(w, serviceId, toId, copyId).0)
  {
    hide Move, SlugTaken;
    var (moved, reply) := Move(w, serviceId, toId, copyId);
    MoveEffects(w, serviceId, toId, copyId);
    if reply == Done {
      MoveRejoins(w, serviceId, toId, copyId);
      MoveCarriesRoute(w, serviceId, toId, copyId);
      forall s | s in moved.services ensures RouteFits(moved, s) {
        assert s != serviceId ==> RouteFits(w, s) && moved.services[s] == w.services[s];
      }
      forall j | j in moved.jobs ensures JobFits(moved, j) {
        MoveCarriesJobs(w, serviceId, toId, copyId, j);
        assert JobFits(w, j);
      }
    }
  }

  // ----- Each transaction -----

  /** A write that touches no service, route or job. */
  lemma TogetherKept(w: World, w': World)
    requires w'.services == w.services && w'.routes == w.routes && w'.jobs == w.jobs
    ensures Together(w') <==> Together(w)
  {
    assert Together(w) ==> Together(w') by { HalfKept(w, w'); }
    assert Together(w') ==> Together(w) by { HalfKept(w', w); }
  }

  lemma HalfKept(w: World, w': World)
    requires w'.services == w.services && w'.routes == w.routes && w'.jobs == w.jobs
    ensures Together(w) ==> Together(w')
  {
    if Together(w) {
      assert forall s :: s in w'.services ==> RouteFits(w, s);
      assert forall j :: j in w'.jobs ==> JobFits(w, j);
    }
  }

  lemma OfferElsewhere(w: World, id: Id, serviceId: Id, fromId: Id, toId: Id)
    ensures var w' := Offer(w, id, serviceId, fromId, toId).0; w' == w.(handovers := w'.handovers)
  {
    hide IndexHolds, ExpireStalePending;
  }

  lemma DecideElsewhere(w: World, id: Id, party: Party, callerId: Id, status: Status)
    ensures var w' := Decide(w, id, party, callerId, status).0; w' == w.(handovers := w'.handovers)
  {
    hide IsParty, Live;
  }

  lemma OffersElsewhere(w: World, op: Op)
    requires op.OpOffer? || op.OpCancel? || op.OpDecline?
    ensures var w' := Step(w, op).0; w' == w.(handovers := w'.handovers)
  {
    hide Offer, Decide;
    match op
    case OpOffer(id, serviceId, fromId, toId) => OfferElsewhere(w, id, serviceId, fromId, toId);
    case OpCancel(id, callerId) => DecideElsewhere(w, id, Sender, callerId, Cancelled);
    case OpDecline(id, callerId) => DecideElsewhere(w, id, Recipient, callerId, Declined);
  }

  lemma ScenarioElsewhere(w: World, op: Op)
    requires op.OpCreateScenario? || op.OpUpdateScenario? || op.OpDeleteScenario?
    ensures var w' := Step(w, op).0; w' == w.(scenarios := w'.scenarios)
  {
    hide OwnsAll, InsertMembers;
    match op
    case OpCreateScenario(id, ownerId, members) => InsertElsewhere(w, id, ownerId, members);
    case OpUpdateScenario(id, members) =>
      if id in w.scenarios { InsertElsewhere(w, id, w.scenarios[id].ownerId, members); }
    case OpDeleteScenario(_) =>
  }

  lemma InsertElsewhere(w: World, id: Id, ownerId: Id, members: set<Id>)
    ensures var w' := InsertMembers(w, id, ownerId, members).0; w' == w.(scenarios := w'.scenarios)
  {
  }

  lemma TickTogether(w: World, later: int)
    requires Together(w)
    ensures Together(Tick(w, later))
  {
    hide Together;
    if later > w.now {
      LaterTogether(w, later);
    }
  }

  lemma LaterTogether(w: World, later: int)
    requires Together(w)
    ensures Together(w.(now := later))
  {
    hide Together;
    TogetherKept(w, w.(now := later));
  }

  lemma PutUserTogether(w: World, id: Id, disabled: bool)
    requires Together(w)
    ensures Together(PutUser(w, id, disabled))
  {
    hide Together;
    TogetherKept(w, PutUser(w, id, disabled));
  }

  lemma AcceptTogether(w: World, id: Id, callerId: Id, copyId: Id)
    requires Together(w)
    ensures Together(Accept(w, id, callerId, copyId).0)
  {
    hide Move, Together;
    if id in w.handovers && w.handovers[id].serviceId in w.services {
      var moved := Move(w, w.handovers[id].serviceId, callerId, copyId).0;
      MoveTogether(w, w.handovers[id].serviceId, callerId, copyId);
      var w' := Accept(w, id, callerId, copyId).0;
      if w' != w { TogetherKept(moved, w'); }
    }
  }

  lemma TransferTogether(w: World, serviceId: Id, toId: Id, forcedBy: Id, id: Id, copyId: Id)
    requires Together(w)
    ensures Together(Transfer(w, serviceId, toId, forcedBy, id, copyId).0)
  {
    hide Move, Together, ClosePending;
    if serviceId in w.services {
      var moved := Move(w, serviceId, toId, copyId).0;
      MoveTogether(w, serviceId, toId, copyId);
      var w' := Transfer(w, serviceId, toId, forcedBy, id, copyId).0;
      if w' != w { TogetherKept(moved, w'); }
    }
  }

  /** A service that keeps its row and its route still fits. */
  lemma RouteStillFits(w: World, w': World, s: Id)
    requires s in w.services && s in w'.services && w'.services[s] == w.services[s] && w.services[s].routeId in w.routes
    requires w.services[s].routeId in w'.routes && w'.routes[w.services[s].routeId] == w.routes[w.services[s].routeId]
    ensures RouteFits(w', s) <==> RouteFits(w, s)
  {
  }

  lemma JobStillFits(w: World, w': World, j: Id)
    requires j in w.jobs && j in w'.jobs && w'.jobs[j] == w.jobs[j]
    requires w.jobs[j].serviceId in w.services && w.jobs[j].serviceId in w'.services
    requires w'.services[w.jobs[j].serviceId].ownerId == w.services[w.jobs[j].serviceId].ownerId
    ensures JobFits(w', j) <==> JobFits(w, j)
  {
  }

  /** Services and jobs that are left alone stay together. */
  lemma RestTogether(w: World, w': World)
    requires Together(w)
    requires forall r :: r in w.routes ==> r in w'.routes && w'.routes[r] == w.routes[r]
    requires forall s :: s in w.services && s in w'.services ==> w'.services[s].ownerId == w.services[s].ownerId
    ensures forall s :: s in w.services && s in w'.services && w'.services[s] == w.services[s] ==> RouteFits(w', s)
    ensures forall j :: j in w.jobs && j in w'.jobs && w'.jobs[j] == w.jobs[j] && w.jobs[j].serviceId in w'.services ==> JobFits(w', j)
  {
    hide RouteFits, JobFits, MayReference;
    forall s | s in w.services && s in w'.services && w'.services[s] == w.services[s] ensures RouteFits(w', s) {
      assert RouteFits(w, s);
      RouteKnown(w, s);
      RouteStillFits(w, w', s);
    }
    forall j | j in w.jobs && j in w'.jobs && w'.jobs[j] == w.jobs[j] && w.jobs[j].serviceId in w'.services ensures JobFits(w', j) {
      assert JobFits(w, j);
      ServiceKnown(w, j);
      JobStillFits(w, w', j);
    }
  }

  lemma RouteKnown(w: World, s: Id)
    requires s in w.services && RouteFits(w, s)
    ensures w.services[s].routeId in w.routes
  {
  }

  lemma ServiceKnown(w: World, j: Id)
    requires j in w.jobs && JobFits(w, j)
    ensures w.jobs[j].serviceId in w.services
  {
  }

  lemma DeleteTogether(w: World, id: Id)
    requires Together(w)
    ensures Together(DeleteService(w, id).0)
  {
    hide RouteFits, JobFits;
    var w' := DeleteService(w, id).0;
    RestTogether(w, w');
    forall j | j in w'.jobs ensures JobFits(w', j) {
      assert JobFits(w, j);
      ServiceKnown(w, j);
    }
  }

  lemma AddRouteTogether(w: World, id: Id, route: Route)
    requires Together(w)
    ensures Together(AddRoute(w, id, route).0)
  {
    hide SlugTaken, RouteFits, JobFits;
    var w' := AddRoute(w, id, route).0;
    assert w' == w.(routes := w'.routes);
    assert forall r :: r in w.routes ==> r in w'.routes && w'.routes[r] == w.routes[r];
    hide AddRoute;
    RestTogether(w, w');
    forall j | j in w'.jobs ensures JobFits(w', j) {
      assert JobFits(w, j);
      ServiceKnown(w, j);
    }
  }

  /** A new service has no jobs yet. */
  lemma CreateTogetherIff(w: World, op: Op)
    requires Together(w) && op.OpCreateService?
    ensures Together(Step(w, op).0) <==> Fits(w, op)
  {
    hide RouteFits, JobFits, MayReference;
    var (w', reply) := CreateService(w, op.serviceId, op.ownerId, op.routeId);
    if reply == Done {
      RestTogether(w, w');
      forall j | j in w'.jobs ensures JobFits(w', j) {
        assert JobFits(w, j);
        ServiceKnown(w, j);
      }
      RouteFitsIff(w', op.serviceId);
    }
  }

  lemma RouteFitsIff(w: World, s: Id)
    requires s in w.services
    ensures RouteFits(w, s) <==>
              w.services[s].routeId in w.routes && MayReference(w.routes[w.services[s].routeId], w.services[s].ownerId)
  {
  }

  lemma UpdateTogetherIff(w: World, op: Op)
    requires Together(w) && op.OpUpdateService?
    ensures Together(Step(w, op).0) <==> Fits(w, op)
  {
    hide RouteFits, JobFits, MayReference;
    var (w', reply) := UpdateService(w, op.serviceId, op.routeId);
    if reply == Done {
      RestTogether(w, w');
      forall j | j in w'.jobs ensures JobFits(w', j) {
        assert JobFits(w, j);
        ServiceKnown(w, j);
      }
      RouteFitsIff(w', op.serviceId);
    }
  }

  lemma JobFitsIff(w: World, j: Id)
    requires j in w.jobs && w.jobs[j].serviceId in w.services
    ensures JobFits(w, j) <==> w.jobs[j].ownerId == w.services[w.jobs[j].serviceId].ownerId
  {
  }

  lemma AddJobTogetherIff(w: World, op: Op)
    requires Together(w) && op.OpAddJob?
    ensures Together(Step(w, op).0) <==> Fits(w, op)
  {
    hide RouteFits, JobFits;
    var (w', reply) := AddJob(w, op.jobId, op.serviceId, op.ownerId);
    if reply == Done {
      assert w' == w.(jobs := w.jobs[op.jobId := Job(op.serviceId, op.ownerId)]);
      RestTogether(w, w');
      forall j | j in w.jobs ensures JobFits(w', j) {
        assert JobFits(w, j);
        ServiceKnown(w, j);
      }
      JobFitsIff(w', op.jobId);
    }
  }

  /** One step keeps services and belongings together exactly when what it adds fits. */
  lemma StepTogetherIff(w: World, op: Op)
    requires Together(w)
    ensures Together(Step(w, op).0) <==> Fits(w, op)
  {
    hide Together, Offer, Decide, Accept, Transfer, CreateService, UpdateService, DeleteService,
         CreateScenario, UpdateScenario, DeleteScenario, AddRoute, AddJob, PutUser, Tick;
    match op
    case OpCreateService(_, _, _) => CreateTogetherIff(w, op);
    case OpUpdateService(_, _) => UpdateTogetherIff(w, op);
    case OpAddJob(_, _, _) => AddJobTogetherIff(w, op);
    case OpDeleteService(id) => DeleteTogether(w, id);
    case OpAddRoute(id, route) => AddRouteTogether(w, id, route);
    case OpAccept(id, callerId, copyId) => AcceptTogether(w, id, callerId, copyId);
    case OpTransfer(s, toId, forcedBy, id, copyId) => TransferTogether(w, s, toId, forcedBy, id, copyId);
    case OpTick(later) => TickTogether(w, later);
    case OpPutUser(id, disabled) => PutUserTogether(w, id, disabled);
    case _ =>
      if op.OpOffer? || op.OpCancel? || op.OpDecline? {
        OffersElsewhere(w, op);
      } else {
        ScenarioElsewhere(w, op);
      }
      TogetherKept(w, Step(w, op).0);
  }

  // ----- Whole runs -----

  /** The state before the step of that position. */
  ghost function At(w: World, ops: seq<Op>, k: nat): World
    requires k <= |ops|
  {
    Run(w, ops[..k]).0
  }

  lemma {:induction false} RunOneMore(w: World, ops: seq<Op>, op: Op)
    ensures Run(w, ops + [op]).0 == Step(Run(w, ops).0, op).0
    decreases |ops|
  {
    hide Step;
    if ops == [] {
      assert (ops + [op])[1..] == [];
    } else {
      assert (ops + [op])[1..] == ops[1..] + [op];
      RunOneMore(Step(w, ops[0]).0, ops[1..], op);
    }
  }

  lemma NextAt(w: World, ops: seq<Op>, k: nat)
    requires k < |ops|
    ensures At(w, ops, k + 1) == Step(At(w, ops, k), ops[k]).0
  {
    hide Run, Step;
    assert ops[..k + 1] == ops[..k] + [ops[k]];
    RunOneMore(w, ops[..k], ops[k]);
  }

  /** Up to any point of a run everything stays together exactly when every write up to there fits. */
  lemma {:induction false} RunTogetherIff(w: World, ops: seq<Op>, n: nat)
    requires Together(w) && n <= |ops|
    ensures (forall k :: 0 <= k <= n ==> Together(At(w, ops, k)))
            <==> (forall k :: 0 <= k < n ==> Fits(At(w, ops, k), ops[k]))
  {
    hide Together, Fits, Step, Run;
    if n == 0 {
      assert At(w, ops, 0) == w by { EmptyRun(w, ops[..0]); }
    } else {
      RunTogetherIff(w, ops, n - 1);
      NextAt(w, ops, n - 1);
      if Together(At(w, ops, n - 1)) {
        StepTogetherIff(At(w, ops, n - 1), ops[n - 1]);
      }
    }
  }

  lemma EmptyRun(w: World, ops: seq<Op>)
    requires ops == []
    ensures Run(w, ops).0 == w
  {
  }

  /** From the empty database on: if every write of the run fits, nobody holds another's job or private route. */
  lemma ReachableTogether(ops: seq<Op>)
    requires forall k :: 0 <= k < |ops| ==> Fits(At(EMPTY, ops, k), ops[k])
    ensures Together(Run(EMPTY, ops).0)
  {
    hide Run, Fits;
    RunTogetherIff(EMPTY, ops, |ops|);
    assert ops[..|ops|] == ops;
    assert Together(At(EMPTY, ops, |ops|));
  }
}
