/**
 A scenario write checks ownership first and inserts the members in a later transaction
 (internal/handler/userscenario.go, `validateScenario`; internal/persistence/postgres/userscenario.go).
 These results say what may happen in between without harm.
 */
module LateMembership {
  import opened Collections
  import opened HandoverTables
  import opened HandoverSafety

  // ----- One service through one step -----

  /** The step left the service's owner and history alone. */
  ghost predicate Unmoved(w: World, w': World, m: Id)
    requires m in w.services && m in w.ledger
  {
    m in w'.services && m in w'.ledger && w'.ledger[m] == w.ledger[m] && w'.services[m].ownerId == w.services[m].ownerId
  }

  /** The step left the owner and the history alone, or recorded one more handover. */
  ghost predicate KeptOrMoved(w: World, w': World, m: Id)
    requires m in w.services && m in w.ledger
  {
    Unmoved(w, w', m) || (m in w'.services && m in w'.ledger && exists id :: w'.ledger[m] == w.ledger[m] + [id])
  }

  lemma AcceptKeepsOrMoves(w: World, id: Id, callerId: Id, copyId: Id, m: Id)
    requires m in w.services && m in w.ledger
    ensures KeptOrMoved(w, Accept(w, id, callerId, copyId).0, m)
    ensures (id in w.handovers && w.handovers[id].serviceId == m) || Unmoved(w, Accept(w, id, callerId, copyId).0, m)
  {
    hide Move;
    if id in w.handovers && w.handovers[id].serviceId in w.services {
      MoveEffects(w, w.handovers[id].serviceId, callerId, copyId);
    }
  }

  lemma TransferKeepsOrMoves(w: World, s: Id, toId: Id, forcedBy: Id, id: Id, copyId: Id, m: Id)
    requires m in w.services && m in w.ledger
    ensures KeptOrMoved(w, Transfer(w, s, toId, forcedBy, id, copyId).0, m)
    ensures s == m || Unmoved(w, Transfer(w, s, toId, forcedBy, id, copyId).0, m)
  {
    hide Move, ClosePending;
    if s in w.services {
      MoveEffects(w, s, toId, copyId);
    }
  }

  lemma OffersUnmoved(w: World, op: Op, m: Id)
    requires m in w.services && m in w.ledger && (op.OpOffer? || op.OpCancel? || op.OpDecline?)
    ensures Unmoved(w, Step(w, op).0, m)
  {
    hide IndexHolds, ExpireStalePending, IsParty, Live;
  }

  lemma ServiceWritesUnmoved(w: World, op: Op, m: Id)
    requires m in w.services && m in w.ledger && op != OpDeleteService(m)
    requires op.OpCreateService? || op.OpUpdateService? || op.OpDeleteService?
    ensures Unmoved(w, Step(w, op).0, m)
  {
  }

  lemma OtherWritesUnmoved(w: World, op: Op)
    requires op.OpTick? || op.OpPutUser? || op.OpAddRoute? || op.OpAddJob?
             || op.OpCreateScenario? || op.OpUpdateScenario? || op.OpDeleteScenario?
    ensures Step(w, op).0.services == w.services && Step(w, op).0.ledger == w.ledger
  {
    hide OwnsAll, SlugTaken;
  }

  lemma WritesUnmoved(w: World, op: Op, m: Id)
    requires m in w.services && m in w.ledger && op != OpDeleteService(m)
    requires !op.OpOffer? && !op.OpCancel? && !op.OpDecline? && !op.OpAccept? && !op.OpTransfer?
    ensures Unmoved(w, Step(w, op).0, m)
  {
    hide Step;
    if op.OpCreateService? || op.OpUpdateService? || op.OpDeleteService? {
      ServiceWritesUnmoved(w, op, m);
    } else {
      OtherWritesUnmoved(w, op);
    }
  }

  lemma StepKeepsOrMoves(w: World, op: Op, m: Id)
    requires m in w.services && m in w.ledger && op != OpDeleteService(m)
    ensures KeptOrMoved(w, Step(w, op).0, m)
    ensures Moves(w, op, m) || Unmoved(w, Step(w, op).0, m)
  {
    hide Offer, Decide, Accept, Transfer, CreateService, UpdateService, DeleteService, CreateScenario, UpdateScenario,
         DeleteScenario, AddRoute, AddJob, PutUser, Tick, KeptOrMoved, Unmoved;
    match op
    case OpAccept(id, callerId, copyId) => AcceptKeepsOrMoves(w, id, callerId, copyId, m);
    case OpTransfer(s, toId, forcedBy, id, copyId) => TransferKeepsOrMoves(w, s, toId, forcedBy, id, copyId, m);
    case _ =>
      if op.OpOffer? || op.OpCancel? || op.OpDecline? {
        OffersUnmoved(w, op, m);
      } else {
        WritesUnmoved(w, op, m);
      }
      UnmovedIsKept(w, Step(w, op).0, m);
  }

  lemma UnmovedIsKept(w: World, w': World, m: Id)
    requires m in w.services && m in w.ledger && Unmoved(w, w', m)
    ensures KeptOrMoved(w, w', m)
  {
  }

  /** Accepting an offer of the service, or transferring it. */
  predicate Moves(w: World, op: Op, m: Id) {
    || (op.OpAccept? && op.id in w.handovers && w.handovers[op.id].serviceId == m)
    || (op.OpTransfer? && op.serviceId == m)
  }

  // ----- One service through a run -----

  /** The history of the service in `w` begins that in `v`, and if it is all of it the owner is the same. */
  ghost predicate Grows(w: World, v: World, m: Id) {
    && m in w.services && m in w.ledger && m in v.services && m in v.ledger
    && w.ledger[m] <= v.ledger[m]
    && (v.ledger[m] == w.ledger[m] ==> v.services[m].ownerId == w.services[m].ownerId)
  }

  lemma StepGrows(w: World, v: World, m: Id)
    requires m in w.services && m in w.ledger && KeptOrMoved(w, v, m)
    ensures Grows(w, v, m)
  {
  }

  lemma GrowsFurther(u: World, v: World, w: World, m: Id)
    requires Grows(u, v, m) && Grows(v, w, m)
    ensures Grows(u, w, m)
  {
  }

  /** History only grows, and while it has not grown the owner has not changed. */
  lemma {:induction false} RunKeepsOrMoves(w: World, ops: seq<Op>, m: Id)
    requires Safe(w) && m in w.services && OpDeleteService(m) !in ops
    ensures Grows(w, Run(w, ops).0, m)
    decreases |ops|
  {
    InLedger(w, m);
    hide Safe, Step, KeptOrMoved;
    if ops != [] {
      var v := Step(w, ops[0]).0;
      StepSafe(w, ops[0]);
      StepKeepsOrMoves(w, ops[0], m);
      StepGrows(w, v, m);
      RunKeepsOrMoves(v, ops[1..], m);
      GrowsFurther(w, v, Run(v, ops[1..]).0, m);
      hide Grows;
    }
  }

  lemma InLedger(w: World, m: Id)
    requires Safe(w) && m in w.services
    ensures m in w.ledger && m in w.creator
    ensures LinksUp(w.handovers, w.creator[m], w.ledger[m], w.services[m].ownerId)
  {
    assert Chain(w.handovers, m, w.creator[m], w.ledger[m], w.services[m].ownerId);
  }

  lemma AcceptServices(w: World, id: Id, callerId: Id, copyId: Id)
    ensures Accept(w, id, callerId, copyId).0.services.Keys == w.services.Keys
  {
    hide Move;
    if id in w.handovers && w.handovers[id].serviceId in w.services {
      MoveEffects(w, w.handovers[id].serviceId, callerId, copyId);
    }
  }

  lemma TransferServices(w: World, s: Id, toId: Id, forcedBy: Id, id: Id, copyId: Id)
    ensures Transfer(w, s, toId, forcedBy, id, copyId).0.services.Keys == w.services.Keys
  {
    hide Move, ClosePending;
    if s in w.services {
      MoveEffects(w, s, toId, copyId);
    }
  }

  lemma OfferServices(w: World, op: Op)
    requires op.OpOffer? || op.OpCancel? || op.OpDecline?
    ensures Step(w, op).0.services == w.services
  {
    hide IndexHolds, ExpireStalePending, IsParty, Live;
  }

  lemma StepServices(w: World, op: Op)
    ensures Step(w, op).0.services.Keys <= w.services.Keys + (if op.OpCreateService? then {op.serviceId} else {})
    ensures op.OpDeleteService? ==> op.serviceId !in Step(w, op).0.services
  {
    hide Offer, Decide, Accept, Transfer, CreateScenario, UpdateScenario, DeleteScenario, AddRoute, AddJob, PutUser, Tick;
    match op
    case OpAccept(id, callerId, copyId) => AcceptServices(w, id, callerId, copyId);
    case OpTransfer(s, toId, forcedBy, id, copyId) => TransferServices(w, s, toId, forcedBy, id, copyId);
    case OpCreateService(_, _, _) =>
    case OpUpdateService(_, _) =>
    case OpDeleteService(_) =>
    case _ =>
      if op.OpOffer? || op.OpCancel? || op.OpDecline? {
        OfferServices(w, op);
      } else {
        OtherWritesUnmoved(w, op);
      }
  }

  /** A service id, once deleted or never there, stays away unless it is created again. */
  lemma {:induction false} StaysAway(w: World, ops: seq<Op>, m: Id)
    requires m !in w.services || OpDeleteService(m) in ops
    requires forall k :: 0 <= k < |ops| && ops[k].OpCreateService? ==> ops[k].serviceId != m
    ensures m !in Run(w, ops).0.services
    decreases |ops|
  {
    hide Step;
    if ops != [] {
      StepServices(w, ops[0]);
      assert ops == [ops[0]] + ops[1..];
      StaysAway(Step(w, ops[0]).0, ops[1..], m);
    }
  }

  // ----- The late insert -----

  /** The insert itself keeps every member owned exactly when the members are owned at that moment. */
  lemma InsertOwnedIff(w: World, id: Id, ownerId: Id, members: set<Id>)
    requires MembersOwned(w) && members <= w.services.Keys
    ensures MembersOwned(InsertMembers(w, id, ownerId, members).0) <==> OwnsAll(w, ownerId, members)
  {
    var w' := InsertMembers(w, id, ownerId, members).0;
    assert w'.scenarios[id] == Scenario(ownerId, members);
    assert OwnsAll(w', ownerId, members) == OwnsAll(w, ownerId, members);
    if OwnsAll(w, ownerId, members) {
      forall sc | sc in w'.scenarios ensures OwnsAll(w', w'.scenarios[sc].ownerId, w'.scenarios[sc].members) {
        assert sc != id ==> OwnsAll(w, w.scenarios[sc].ownerId, w.scenarios[sc].members);
      }
    }
  }

  /** No handover of the service was recorded since, or the last one brought it back to the owner. */
  ghost predicate BackWith(before: World, after: World, ownerId: Id, m: Id) {
    && m in before.ledger && m in after.ledger
    && (|| after.ledger[m] == before.ledger[m]
        || (after.ledger[m] != []
            && var last := after.ledger[m][|after.ledger[m]| - 1];
               last in after.handovers && after.handovers[last].toId == ownerId))
  }

  lemma BackIffOwned(w: World, ops: seq<Op>, ownerId: Id, m: Id)
    requires Safe(w) && m in w.services && w.services[m].ownerId == ownerId && OpDeleteService(m) !in ops
    ensures var w' := Run(w, ops).0;
            m in w'.services && (w'.services[m].ownerId == ownerId <==> BackWith(w, w', ownerId, m))
  {
    hide Safe, Run;
    RunSafe(w, ops);
    RunKeepsOrMoves(w, ops, m);
    InLedger(Run(w, ops).0, m);
  }

  /**
   What may happen between the check and the insert: the insert goes through and keeps every member of
   every scenario owned exactly when no member was deleted in between, and every member that changed hands
   came back. Ids of new services are fresh, so a member is never created again.
   */
  lemma LateInsertHarmlessIff(w: World, ops: seq<Op>, id: Id, ownerId: Id, members: set<Id>)
    requires Safe(w) && OwnsAll(w, ownerId, members)
    requires forall k :: 0 <= k < |ops| && ops[k].OpCreateService? ==> ops[k].serviceId !in members
    ensures var w' := Run(w, ops).0;
            var (late, reply) := InsertMembers(w', id, ownerId, members);
            reply == Done && MembersOwned(late)
            <==> forall m :: m in members ==> OpDeleteService(m) !in ops && BackWith(w, w', ownerId, m)
  {
    hide Run, BackWith, Chained, OnePending, Referential;
    RunSafe(w, ops);
    var w' := Run(w, ops).0;
    forall m | m in members
      ensures OpDeleteService(m) in ops ==> m !in w'.services
      ensures OpDeleteService(m) !in ops ==>
                m in w'.services && (w'.services[m].ownerId == ownerId <==> BackWith(w, w', ownerId, m))
    {
      if OpDeleteService(m) in ops {
        StaysAway(w, ops, m);
      } else {
        BackIffOwned(w, ops, ownerId, m);
      }
    }
    hide MembersOwned;
    assert MembersOwned(w') by { SafeOwned(w'); }
    if members <= w'.services.Keys {
      InsertOwnedIff(w', id, ownerId, members);
    }
  }

  lemma SafeOwned(w: World)
    requires Safe(w)
    ensures MembersOwned(w)
  {
  }

  /** Who holds a service by its history alone: the last recipient, or whoever created it. */
  ghost function HeldBy(w: World, m: Id): Option<Id> {
    if m !in w.ledger || m !in w.creator then None
    else if w.ledger[m] == [] then Some(w.creator[m])
    else
      var last := w.ledger[m][|w.ledger[m]| - 1];
      if last in w.handovers then Some(w.handovers[last].toId) else None
  }

  lemma HistoryNamesOwner(w: World, m: Id)
    requires Safe(w)
    ensures HeldBy(w, m) == if m in w.services then Some(w.services[m].ownerId) else None
  {
    assert w.ledger.Keys == w.services.Keys == w.creator.Keys;
    hide Safe;
    if m in w.services {
      assert Chain(w.handovers, m, w.creator[m], w.ledger[m], w.services[m].ownerId) by { SafeChain(w, m); }
    }
  }

  lemma SafeChain(w: World, m: Id)
    requires Safe(w) && m in w.services
    ensures m in w.ledger && m in w.creator && Chain(w.handovers, m, w.creator[m], w.ledger[m], w.services[m].ownerId)
  {
    hide Chain;
  }

  /**
   The same without any assumption on the run before it, ids created again included: the insert is harmless
   exactly when the history of every member ends with the owner.
   */
  lemma LateInsertByHistory(w: World, id: Id, ownerId: Id, members: set<Id>)
    requires Safe(w)
    ensures var (late, reply) := InsertMembers(w, id, ownerId, members);
            reply == Done && MembersOwned(late) <==> forall m :: m in members ==> HeldBy(w, m) == Some(ownerId)
  {
    SafeOwned(w);
    hide Safe, HeldBy, MembersOwned;
    forall m | m in members
      ensures HeldBy(w, m) == if m in w.services then Some(w.services[m].ownerId) else None
    {
      HistoryNamesOwner(w, m);
    }
    if members <= w.services.Keys {
      InsertOwnedIff(w, id, ownerId, members);
    }
  }

  /** Nothing in the run deletes, transfers or accepts an offer of a member. */
  ghost predicate Quiet(w: World, ops: seq<Op>, members: set<Id>)
    decreases |ops|
  {
    ops == []
    || ((forall m :: m in members ==> ops[0] != OpDeleteService(m) && !Moves(w, ops[0], m))
        && Quiet(Step(w, ops[0]).0, ops[1..], members))
  }

  lemma {:induction false} QuietKeepsOwners(w: World, ops: seq<Op>, ownerId: Id, members: set<Id>)
    requires Safe(w) && OwnsAll(w, ownerId, members) && Quiet(w, ops, members)
    ensures OwnsAll(Run(w, ops).0, ownerId, members)
    decreases |ops|
  {
    hide Step, Moves, Chained, OnePending, Referential, MembersOwned;
    if ops != [] {
      var v := Step(w, ops[0]).0;
      StepSafe(w, ops[0]);
      forall m | m in members ensures m in v.services && v.services[m].ownerId == ownerId {
        InLedger(w, m);
        StepKeepsOrMoves(w, ops[0], m);
      }
      QuietKeepsOwners(v, ops[1..], ownerId, members);
    }
  }

  /** A late insert is harmless when nothing in between deletes or moves a member, whatever else happens. */
  lemma QuietInsertHarmless(w: World, ops: seq<Op>, id: Id, ownerId: Id, members: set<Id>)
    requires Safe(w) && OwnsAll(w, ownerId, members) && Quiet(w, ops, members)
    ensures var (late, reply) := InsertMembers(Run(w, ops).0, id, ownerId, members);
            reply == Done && MembersOwned(late)
  {
    hide Run, Chained, OnePending, Referential, MembersOwned, Quiet;
    var w' := Run(w, ops).0;
    RunSafe(w, ops);
    SafeOwned(w');
    QuietKeepsOwners(w, ops, ownerId, members);
    InsertOwnedIff(w', id, ownerId, members);
  }

  /**
   The shortest harm: a transfer committed between the check and the write. The check passes, the service
   moves, and the create or the update still goes through.
   */
  lemma TransferBetweenCheckAndInsert(w: World, scenarioId: Id, s: Id, fromId: Id, toId: Id, admin: Id, id: Id, copyId: Id)
    requires Safe(w) && s in w.services && w.services[s].ownerId == fromId
    requires Transfer(w, s, toId, admin, id, copyId).1.Stored?
    ensures OwnsAll(w, fromId, {s})
    ensures var mid := Transfer(w, s, toId, admin, id, copyId).0;
            var (late, reply) := if scenarioId in w.scenarios then ReplaceMembers(mid, scenarioId, {s})
                                 else InsertScenario(mid, scenarioId, fromId, {s});
            (if scenarioId in w.scenarios then w.scenarios[scenarioId].ownerId == fromId else fromId in w.users) ==>
              reply == Done && !MembersOwned(late)
  {
    hide Chained, Chain, ClosePending;
    TransferSafe(w, s, toId, admin, id, copyId);
    MoveEffects(w, s, toId, copyId);
    hide Move;
    var mid := Transfer(w, s, toId, admin, id, copyId).0;
    assert mid.services[s].ownerId == toId != fromId;
    assert mid.scenarios == w.scenarios && mid.users == w.users && s in mid.services;
    InsertOwnedIff(mid, scenarioId, fromId, {s});
    hide Transfer, MembersOwned;
  }
}
