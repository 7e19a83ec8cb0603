/** What can never be undone in the handover protocol. */
module HandoverHistory {
  import opened HandoverTables
  import opened HandoverSafety

  /** The offer exists and every read reports it as closed with this status. */
  ghost predicate ClosedAs(w: World, h: Id, status: Status) {
    h in w.handovers && VisibleStatus(w.handovers[h], w.now) == status && status != Pending
  }

  /** The step is the deletion of the offer's service, which cascades into the offer. */
  predicate Deletes(w: World, h: Id, op: Op) {
    h in w.handovers && op.OpDeleteService? && op.serviceId == w.handovers[h].serviceId
  }

  lemma OfferKeepsClosed(w: World, h: Id, status: Status, id: Id, serviceId: Id, fromId: Id, toId: Id)
    requires ClosedAs(w, h, status)
    ensures ClosedAs(Offer(w, id, serviceId, fromId, toId).0, h, status)
    ensures Offer(w, id, serviceId, fromId, toId).0.handovers[h].serviceId == w.handovers[h].serviceId
  {
    hide IndexHolds;
  }

  lemma DecideKeepsClosed(w: World, h: Id, status: Status, id: Id, party: Party, callerId: Id, decision: Status)
    requires ClosedAs(w, h, status)
    ensures ClosedAs(Decide(w, id, party, callerId, decision).0, h, status)
    ensures Decide(w, id, party, callerId, decision).0.handovers[h].serviceId == w.handovers[h].serviceId
    ensures id == h ==> !Decide(w, id, party, callerId, decision).1.Stored?
  {
    hide IsParty;
    if id != h {
      assert Decide(w, id, party, callerId, decision).0.handovers[h] == w.handovers[h];
    }
  }

  lemma AcceptKeepsClosed(w: World, h: Id, status: Status, id: Id, callerId: Id, copyId: Id)
    requires ClosedAs(w, h, status)
    ensures ClosedAs(Accept(w, id, callerId, copyId).0, h, status)
    ensures Accept(w, id, callerId, copyId).0.handovers[h].serviceId == w.handovers[h].serviceId
    ensures id == h ==> !Accept(w, id, callerId, copyId).1.Stored?
  {
    hide Move;
    if id in w.handovers && w.handovers[id].serviceId in w.services {
      MoveEffects(w, w.handovers[id].serviceId, callerId, copyId);
    }
  }

  lemma TransferKeepsClosed(w: World, h: Id, status: Status, serviceId: Id, toId: Id, forcedBy: Id, id: Id, copyId: Id)
    requires ClosedAs(w, h, status)
    ensures ClosedAs(Transfer(w, serviceId, toId, forcedBy, id, copyId).0, h, status)
    ensures Transfer(w, serviceId, toId, forcedBy, id, copyId).0.handovers[h].serviceId == w.handovers[h].serviceId
  {
    hide Move;
    if serviceId in w.services {
      MoveEffects(w, serviceId, toId, copyId);
    }
  }

  /** A closed offer keeps its visible status through every step that does not delete its service. */
  lemma ClosedStaysClosed(w: World, h: Id, status: Status, op: Op)
    requires ClosedAs(w, h, status) && !Deletes(w, h, op)
    ensures ClosedAs(Step(w, op).0, h, status)
    ensures Step(w, op).0.handovers[h].serviceId == w.handovers[h].serviceId
    ensures (op.OpAccept? || op.OpCancel? || op.OpDecline?) && op.id == h ==> !Step(w, op).1.Stored?
  {
    hide Offer, Decide, Accept, Transfer, Tick, DeleteService, PutUser, AddRoute, CreateService, UpdateService,
         AddJob, CreateScenario, UpdateScenario, DeleteScenario;
    match op
    case OpTick(later) => TickKeepsClosed(w, h, status, later);
    case OpDeleteService(id) => DeleteKeepsClosed(w, h, status, id);
    case OpOffer(id, serviceId, fromId, toId) => OfferKeepsClosed(w, h, status, id, serviceId, fromId, toId);
    case OpCancel(id, callerId) => DecideKeepsClosed(w, h, status, id, Sender, callerId, Cancelled);
    case OpDecline(id, callerId) => DecideKeepsClosed(w, h, status, id, Recipient, callerId, Declined);
    case OpAccept(id, callerId, copyId) => AcceptKeepsClosed(w, h, status, id, callerId, copyId);
    case OpTransfer(serviceId, toId, forcedBy, id, copyId) =>
      TransferKeepsClosed(w, h, status, serviceId, toId, forcedBy, id, copyId);
    case _ => OffersUntouched(w, op);
  }

  lemma TickKeepsClosed(w: World, h: Id, status: Status, later: int)
    requires ClosedAs(w, h, status)
    ensures ClosedAs(Tick(w, later), h, status)
    ensures Tick(w, later).handovers == w.handovers
  {
  }

  lemma DeleteKeepsClosed(w: World, h: Id, status: Status, id: Id)
    requires ClosedAs(w, h, status) && id != w.handovers[h].serviceId
    ensures ClosedAs(DeleteService(w, id).0, h, status)
    ensures DeleteService(w, id).0.handovers[h] == w.handovers[h]
  {
  }

  lemma OffersUntouched(w: World, op: Op)
    requires op.OpPutUser? || op.OpAddRoute? || op.OpCreateService? || op.OpUpdateService? || op.OpAddJob?
             || op.OpCreateScenario? || op.OpUpdateScenario? || op.OpDeleteScenario?
    ensures Step(w, op).0.handovers == w.handovers && Step(w, op).0.now == w.now
  {
    hide OwnsAll, SlugTaken, Offer, Decide, Accept, Transfer, Tick, DeleteService;
  }

  /**
   Over a whole run in which the service is not deleted, a closed offer keeps its status, and every
   attempt to accept, cancel or decline it is refused. In particular no offer is accepted twice.
   */
  lemma {:induction false} NeverDecidedTwice(w: World, h: Id, status: Status, ops: seq<Op>)
    requires ClosedAs(w, h, status)
    requires forall k :: 0 <= k < |ops| ==> !Deletes(w, h, ops[k])
    ensures ClosedAs(Run(w, ops).0, h, status)
    ensures forall k :: 0 <= k < |ops| && (ops[k].OpAccept? || ops[k].OpCancel? || ops[k].OpDecline?) && ops[k].id == h
              ==> !Run(w, ops).1[k].Stored?
    decreases |ops|
  {
    hide Step, ClosedAs;
    if ops != [] {
      ClosedExists(w, h, status);
      ClosedStaysClosed(w, h, status, ops[0]);
      ClosedExists(Step(w, ops[0]).0, h, status);
      NeverDecidedTwice(Step(w, ops[0]).0, h, status, ops[1..]);
    }
  }

  lemma ClosedExists(w: World, h: Id, status: Status)
    requires ClosedAs(w, h, status)
    ensures h in w.handovers
  {
  }

  predicate DecidesOn(op: Op, h: Id) {
    (op.OpAccept? || op.OpCancel? || op.OpDecline?) && op.id == h
  }

  /** A decision that goes through leaves its offer closed. */
  lemma DecisionCloses(w: World, h: Id, op: Op)
    requires DecidesOn(op, h) && Step(w, op).1.Stored?
    ensures var row := Step(w, op).1.row;
            ClosedAs(Step(w, op).0, h, row.status) && Step(w, op).0.handovers[h].serviceId == row.serviceId
  {
    hide Move, IsParty;
    if op.OpAccept? && h in w.handovers && w.handovers[h].serviceId in w.services {
      MoveEffects(w, w.handovers[h].serviceId, op.callerId, op.copyId);
    }
  }

  /** The run after its first `i` steps. */
  lemma {:induction false} RunSplit(w: World, ops: seq<Op>, i: nat)
    requires i < |ops|
    ensures var mid := Run(w, ops[..i]).0;
            && Run(w, ops).1[i] == Step(mid, ops[i]).1
            && forall j :: i < j < |ops| ==> Run(w, ops).1[j] == Run(Step(mid, ops[i]).0, ops[i + 1..]).1[j - i - 1]
    decreases |ops|
  {
    hide Step;
    var v, rest := Step(w, ops[0]).0, ops[1..];
    if i > 0 {
      RunSplit(v, rest, i - 1);
      assert ops[..i][1..] == rest[..i - 1] && ops[..i][0] == ops[0] && rest[i..] == ops[i + 1..];
      forall j | i < j < |ops|
        ensures Run(w, ops).1[j] == Run(Step(Run(w, ops[..i]).0, ops[i]).0, ops[i + 1..]).1[j - i - 1]
      {
        assert Run(w, ops).1[j] == Run(v, rest).1[j - 1];
      }
    }
  }

  /** Two decisions on one offer go through in a run only if its service was deleted between them. */
  lemma SecondDecisionNeedsDelete(w: World, ops: seq<Op>, h: Id, i: nat, j: nat)
    requires i < j < |ops| && DecidesOn(ops[i], h) && DecidesOn(ops[j], h)
    requires Run(w, ops).1[i].Stored? && Run(w, ops).1[j].Stored?
    ensures exists k :: i < k < j && ops[k] == OpDeleteService(Run(w, ops).1[i].row.serviceId)
  {
    hide Run, Step, ClosedAs;
    RunSplit(w, ops, i);
    var mid := Run(w, ops[..i]).0;
    var v, row := Step(mid, ops[i]).0, Step(mid, ops[i]).1.row;
    DecisionCloses(mid, h, ops[i]);
    ClosedExists(v, h, row.status);
    var rest, n := ops[i + 1..], j - i - 1;
    RunSplit(v, rest, n);
    if forall k :: 0 <= k < n ==> !Deletes(v, h, rest[..n][k]) {
      NeverDecidedTwice(v, h, row.status, rest[..n]);
      var last := Run(v, rest[..n]).0;
      StillRefused(last, h, row.status, rest[n]);
    } else {
      var k :| 0 <= k < n && Deletes(v, h, rest[..n][k]);
      assert ops[i + 1 + k] == rest[..n][k];
    }
  }

  lemma StillRefused(w: World, h: Id, status: Status, op: Op)
    requires ClosedAs(w, h, status) && DecidesOn(op, h)
    ensures !Step(w, op).1.Stored?
  {
    hide Step;
    assert !Deletes(w, h, op);
    ClosedStaysClosed(w, h, status, op);
  }

  /** At any moment a service has at most one live offer. */
  lemma AtMostOneLive(ops: seq<Op>, g: Id, h: Id)
    requires var w := Run(EMPTY, ops).0;
             && g in w.handovers && h in w.handovers && w.handovers[g].serviceId == w.handovers[h].serviceId
             && Live(w.handovers[g], w.now) && Live(w.handovers[h], w.now)
    ensures g == h
  {
    hide Run;
    ReachableSafe(ops);
  }
}
