/**
 Lazy expiry against eager expiry. The eager machine closes an offer the instant its expiry passes
 and never looks at the clock otherwise; the tables of `HandoverTables` write expiry down only when a
 later transaction needs it. Every reply, and every status a read can see, is the same.
 */
module HandoverExpiry {
  import opened Collections
  import opened HandoverTables

  // ----- The eager machine -----

  function EagerOffer(w: World, id: Id, serviceId: Id, fromId: Id, toId: Id): (World, Reply) {
    var row := Row(serviceId, fromId, toId, Pending, w.now, None, w.now + HANDOVER_TTL, None);
    if id in w.handovers || fromId == toId then (w, ErrInternal)
    else if IndexHolds(w.handovers, serviceId) then (w, ErrPending)
    else if serviceId !in w.services || fromId !in w.users || toId !in w.users then (w, ErrInternal)
    else (w.(handovers := w.handovers[id := row]), Stored(row))
  }

  function EagerDecide(w: World, id: Id, party: Party, callerId: Id, status: Status): (World, Reply) {
    if id !in w.handovers || !IsParty(w.handovers[id], party, callerId) then (w, ErrNotFound)
    else if w.handovers[id].status != Pending then (w, ErrNotPending)
    else
      var row := w.handovers[id].(status := status, decidedAt := Some(w.now));
      (w.(handovers := w.handovers[id := row]), Stored(row))
  }

  function EagerAccept(w: World, id: Id, callerId: Id, copyId: Id): (World, Reply) {
    if id !in w.handovers || w.handovers[id].toId != callerId then (w, ErrNotFound)
    else
      var row := w.handovers[id];
      if row.serviceId !in w.services then (w, ErrNotFound)
      else if row.status != Pending then (w, ErrNotPending)
      else if w.services[row.serviceId].ownerId != row.fromId then (w, ErrSenderNotOwner)
      else if callerId !in w.users then (w, ErrInternal)
      else if w.users[callerId] then (w, ErrRecipientDisabled)
      else
        var (moved, reply) := Move(w, row.serviceId, callerId, copyId);
        if reply != Done then (w, reply)
        else
          var closed := row.(status := Accepted, decidedAt := Some(w.now));
          (Record(moved.(handovers := w.handovers[id := closed]), row.serviceId, id), Stored(closed))
  }

  function EagerCancelPending(rows: map<Id, Row>, serviceId: Id, now: int): map<Id, Row> {
    map id | id in rows ::
      if rows[id].serviceId == serviceId && rows[id].status == Pending
      then rows[id].(status := Cancelled, decidedAt := Some(now)) else rows[id]
  }

  function EagerTransfer(w: World, serviceId: Id, toId: Id, forcedBy: Id, id: Id, copyId: Id): (World, Reply) {
    if serviceId !in w.services then (w, ErrInternal)
    else
      var ownerId := w.services[serviceId].ownerId;
      if ownerId == toId then (w, ErrToOwner)
      else if toId !in w.users then (w, ErrInternal)
      else if w.users[toId] then (w, ErrRecipientDisabled)
      else
        var (moved, reply) := Move(w, serviceId, toId, copyId);
        if reply != Done then (w, reply)
        else if id in w.handovers then (w, ErrInternal)
        else
          var row := Row(serviceId, ownerId, toId, Accepted, w.now, Some(w.now), w.now, Some(forcedBy));
          (Record(moved.(handovers := EagerCancelPending(w.handovers, serviceId, w.now)[id := row]), serviceId, id), Stored(row))
  }

  /** Time passing closes every offer whose expiry it reaches. */
  function EagerTick(w: World, later: int): World {
    if later <= w.now then w else w.(now := later, handovers := CloseAll(w.handovers, later))
  }

  function CloseAll(rows: map<Id, Row>, now: int): map<Id, Row> {
    map id | id in rows :: Written(rows[id], now)
  }

  function EagerStep(w: World, op: Op): (World, Reply) {
    match op
    case OpTick(later) => (EagerTick(w, later), Done)
    case OpOffer(id, serviceId, fromId, toId) => EagerOffer(w, id, serviceId, fromId, toId)
    case OpCancel(id, callerId) => EagerDecide(w, id, Sender, callerId, Cancelled)
    case OpDecline(id, callerId) => EagerDecide(w, id, Recipient, callerId, Declined)
    case OpAccept(id, callerId, copyId) => EagerAccept(w, id, callerId, copyId)
    case OpTransfer(serviceId, toId, forcedBy, id, copyId) => EagerTransfer(w, serviceId, toId, forcedBy, id, copyId)
    case _ => Step(w, op)
  }

  function EagerRun(w: World, ops: seq<Op>): (World, seq<Reply>)
    decreases |ops|
  {
    if ops == [] then (w, [])
    else
      var (mid, reply) := EagerStep(w, ops[0]);
      var (end, replies) := EagerRun(mid, ops[1..]);
      (end, [reply] + replies)
  }

  // ----- The simulation -----

  /** The eager state that a lazy state stands for. */
  function Settled(w: World): World {
    w.(handovers := CloseAll(w.handovers, w.now))
  }

  /** Writing expiry down early does not change what the rows settle to. */
  lemma ExpireThenClose(rows: map<Id, Row>, serviceId: Id, now: int)
    ensures ExpireStalePending(rows, serviceId, now).Keys == CloseAll(rows, now).Keys
    ensures CloseAll(ExpireStalePending(rows, serviceId, now), now) == CloseAll(rows, now)
    ensures IndexHolds(ExpireStalePending(rows, serviceId, now), serviceId) == IndexHolds(CloseAll(rows, now), serviceId)
  {
    var expired, settled := ExpireStalePending(rows, serviceId, now), CloseAll(rows, now);
    assert forall h :: h in rows && rows[h].serviceId == serviceId ==> expired[h] == settled[h];
    if IndexHolds(expired, serviceId) {
      var h :| h in expired && expired[h].serviceId == serviceId && expired[h].status == Pending;
      assert settled[h].status == Pending;
    }
    if IndexHolds(settled, serviceId) {
      var h :| h in settled && settled[h].serviceId == serviceId && settled[h].status == Pending;
      assert expired[h].status == Pending;
    }
  }

  lemma CloseAllUpdated(rows: map<Id, Row>, id: Id, row: Row, now: int)
    requires !Stale(row, now)
    ensures CloseAll(rows[id := row], now) == CloseAll(rows, now)[id := row]
  {
  }

  lemma OfferSimulated(w: World, id: Id, serviceId: Id, fromId: Id, toId: Id)
    ensures var (w', reply) := Offer(w, id, serviceId, fromId, toId);
            EagerOffer(Settled(w), id, serviceId, fromId, toId) == (Settled(w'), reply)
  {
    var rows, settled := ExpireStalePending(w.handovers, serviceId, w.now), CloseAll(w.handovers, w.now);
    var row := Row(serviceId, fromId, toId, Pending, w.now, None, w.now + HANDOVER_TTL, None);
    assert !Stale(row, w.now);
    hide CloseAll, ExpireStalePending, IndexHolds, Stale;
    ExpireThenClose(w.handovers, serviceId, w.now);
    CloseAllUpdated(rows, id, row, w.now);
    assert id in rows <==> id in settled by {
      assert rows.Keys == settled.Keys;
    }
    assert Settled(w.(handovers := rows[id := row])) == w.(handovers := settled[id := row]);
  }

  lemma DecideSimulated(w: World, id: Id, party: Party, callerId: Id, status: Status)
    requires status != Pending
    ensures var (w', reply) := Decide(w, id, party, callerId, status);
            EagerDecide(Settled(w), id, party, callerId, status) == (Settled(w'), reply)
  {
    var (w', reply) := Decide(w, id, party, callerId, status);
    if reply.Stored? {
      CloseAllUpdated(w.handovers, id, reply.row, w.now);
    }
  }

  lemma MoveIgnoresHandovers(w: World, rows: map<Id, Row>, serviceId: Id, toId: Id, copyId: Id)
    requires serviceId in w.services
    ensures var (moved, reply) := Move(w, serviceId, toId, copyId);
            Move(w.(handovers := rows), serviceId, toId, copyId) == (moved.(handovers := rows), reply)
    ensures Move(w, serviceId, toId, copyId).0.handovers == w.handovers
  {
    var v := w.(handovers := rows);
    assert InScenario(v, serviceId) == InScenario(w, serviceId);
    hide InScenario, FreeSuffix, JobsMoved;
  }

  lemma SettledRow(rows: map<Id, Row>, now: int, id: Id)
    requires id in rows
    ensures var settled := CloseAll(rows, now);
            && id in settled
            && settled[id].serviceId == rows[id].serviceId && settled[id].fromId == rows[id].fromId && settled[id].toId == rows[id].toId
            && (settled[id].status == Pending <==> Live(rows[id], now))
            && (Live(rows[id], now) ==> settled[id] == rows[id])
  {
  }

  lemma AcceptSimulated(w: World, id: Id, callerId: Id, copyId: Id)
    ensures var (w', reply) := Accept(w, id, callerId, copyId);
            EagerAccept(Settled(w), id, callerId, copyId) == (Settled(w'), reply)
  {
    var settled := CloseAll(w.handovers, w.now);
    assert id in w.handovers <==> id in settled;
    hide Move, CloseAll, Live, Record;
    if id in w.handovers {
      SettledRow(w.handovers, w.now, id);
      if w.handovers[id].serviceId in w.services {
        MoveIgnoresHandovers(w, settled, w.handovers[id].serviceId, callerId, copyId);
        MoveReplies(w, w.handovers[id].serviceId, callerId, copyId);
      }
    }
    var (w', reply) := Accept(w, id, callerId, copyId);
    if reply.Stored? {
      CloseAllUpdated(w.handovers, id, reply.row, w.now);
      var moved := Move(w, w.handovers[id].serviceId, callerId, copyId).0;
      RecordSettled(moved.(handovers := w.handovers[id := reply.row]), w.handovers[id].serviceId, id);
    }
  }

  /** History does not settle: it is the same whether recorded before or after. */
  lemma RecordSettled(w: World, serviceId: Id, id: Id)
    ensures Settled(Record(w, serviceId, id)) == Record(Settled(w), serviceId, id)
  {
    hide CloseAll;
  }

  lemma MoveReplies(w: World, serviceId: Id, toId: Id, copyId: Id)
    requires serviceId in w.services
    ensures Move(w, serviceId, toId, copyId).0.now == w.now
    ensures !Move(w, serviceId, toId, copyId).1.Stored?
  {
  }

  lemma TransferSimulated(w: World, serviceId: Id, toId: Id, forcedBy: Id, id: Id, copyId: Id)
    ensures var (w', reply) := Transfer(w, serviceId, toId, forcedBy, id, copyId);
            EagerTransfer(Settled(w), serviceId, toId, forcedBy, id, copyId) == (Settled(w'), reply)
  {
    hide Move;
    var settled := CloseAll(w.handovers, w.now);
    if serviceId in w.services {
      MoveIgnoresHandovers(w, settled, serviceId, toId, copyId);
      MoveReplies(w, serviceId, toId, copyId);
    }
    var (w', reply) := Transfer(w, serviceId, toId, forcedBy, id, copyId);
    if reply.Stored? {
      var closed := ClosePending(w.handovers, serviceId, w.now);
      CloseAllUpdated(closed, id, reply.row, w.now);
      CancelThenClose(w.handovers, serviceId, w.now);
    }
  }

  lemma CancelThenClose(rows: map<Id, Row>, serviceId: Id, now: int)
    ensures CloseAll(ClosePending(rows, serviceId, now), now) == EagerCancelPending(CloseAll(rows, now), serviceId, now)
  {
    var lazy, eager := CloseAll(ClosePending(rows, serviceId, now), now), EagerCancelPending(CloseAll(rows, now), serviceId, now);
    assert lazy.Keys == rows.Keys == eager.Keys;
    hide CloseAll, ClosePending, EagerCancelPending;
    forall h | h in rows ensures lazy[h] == eager[h] {
      CancelThenCloseRow(rows, serviceId, now, h);
    }
  }

  lemma CancelThenCloseRow(rows: map<Id, Row>, serviceId: Id, now: int, h: Id)
    requires h in rows
    ensures var lazy, eager := CloseAll(ClosePending(rows, serviceId, now), now), EagerCancelPending(CloseAll(rows, now), serviceId, now);
            h in lazy && h in eager && lazy[h] == eager[h]
  {
    CancelledRow(rows[h], now);
  }

  /** Writing expiry twice is writing it once, and what is pending after that is live. */
  lemma CancelledRow(r: Row, now: int)
    ensures Written(Written(r, now), now) == Written(r, now)
    ensures Written(r, now).status == Pending <==> Live(Written(r, now), now)
    ensures Written(r.(status := Cancelled, decidedAt := Some(now)), now) == r.(status := Cancelled, decidedAt := Some(now))
  {
  }

  lemma TickSimulated(w: World, later: int)
    ensures EagerTick(Settled(w), later) == Settled(Tick(w, later))
  {
    if later > w.now {
      assert CloseAll(CloseAll(w.handovers, w.now), later) == CloseAll(w.handovers, later);
    }
  }

  lemma OtherSimulated(w: World, op: Op)
    requires !op.OpTick? && !op.OpOffer? && !op.OpCancel? && !op.OpDecline? && !op.OpAccept? && !op.OpTransfer?
    ensures var (w', reply) := Step(w, op); Step(Settled(w), op) == (Settled(w'), reply)
  {
    hide CloseAll, DeleteService, CreateScenario, UpdateScenario;
    match op
    case OpDeleteService(id) => DeleteSimulated(w, id);
    case OpCreateScenario(id, ownerId, members) => CreateScenarioSimulated(w, id, ownerId, members);
    case OpUpdateScenario(id, members) => UpdateScenarioSimulated(w, id, members);
    case _ =>
  }

  lemma DeleteSimulated(w: World, id: Id)
    ensures var (w', reply) := DeleteService(w, id); DeleteService(Settled(w), id) == (Settled(w'), reply)
  {
    var (w', reply) := DeleteService(w, id);
    assert CloseAll(w'.handovers, w.now) == DeleteService(Settled(w), id).0.handovers;
  }

  lemma ScenarioSimulated(w: World, ownerId: Id, members: set<Id>)
    ensures OwnsAll(Settled(w), ownerId, members) == OwnsAll(w, ownerId, members)
  {
    hide CloseAll;
  }

  lemma CreateScenarioSimulated(w: World, id: Id, ownerId: Id, members: set<Id>)
    ensures var (w', reply) := CreateScenario(w, id, ownerId, members);
            CreateScenario(Settled(w), id, ownerId, members) == (Settled(w'), reply)
  {
    ScenarioSimulated(w, ownerId, members);
    hide CloseAll, OwnsAll;
  }

  lemma UpdateScenarioSimulated(w: World, id: Id, members: set<Id>)
    ensures var (w', reply) := UpdateScenario(w, id, members); UpdateScenario(Settled(w), id, members) == (Settled(w'), reply)
  {
    if id in w.scenarios {
      ScenarioSimulated(w, w.scenarios[id].ownerId, members);
    }
    hide CloseAll, OwnsAll;
  }

  /** One step of either machine gives the same reply and leaves corresponding states. */
  lemma StepSimulated(w: World, op: Op)
    ensures var (w', reply) := Step(w, op); EagerStep(Settled(w), op) == (Settled(w'), reply)
  {
    hide Settled, Offer, EagerOffer, Decide, EagerDecide, Accept, EagerAccept, Transfer, EagerTransfer, Tick, EagerTick;
    match op
    case OpTick(later) => TickSimulated(w, later);
    case OpOffer(id, serviceId, fromId, toId) => OfferSimulated(w, id, serviceId, fromId, toId);
    case OpCancel(id, callerId) => DecideSimulated(w, id, Sender, callerId, Cancelled);
    case OpDecline(id, callerId) => DecideSimulated(w, id, Recipient, callerId, Declined);
    case OpAccept(id, callerId, copyId) => AcceptSimulated(w, id, callerId, copyId);
    case OpTransfer(serviceId, toId, forcedBy, id, copyId) => TransferSimulated(w, serviceId, toId, forcedBy, id, copyId);
    case _ => OtherSimulated(w, op);
  }

  /** Every run: the same replies, and corresponding states at the end. */
  lemma {:induction false} RunSimulated(w: World, ops: seq<Op>)
    ensures var (end, replies) := Run(w, ops); EagerRun(Settled(w), ops) == (Settled(end), replies)
    decreases |ops|
  {
    hide Settled, Step, EagerStep;
    if ops != [] {
      StepSimulated(w, ops[0]);
      RunSimulated(Step(w, ops[0]).0, ops[1..]);
    }
  }

  /** The status a read reports is the eager one; only `decided_at` lags, until the expiry is written down. */
  lemma ReadsAgree(w: World, id: Id)
    requires id in w.handovers
    ensures id in Settled(w).handovers
    ensures VisibleStatus(w.handovers[id], w.now) == Settled(w).handovers[id].status
    ensures Live(w.handovers[id], w.now) <==> Settled(w).handovers[id].status == Pending
    ensures w.handovers[id].decidedAt == Settled(w).handovers[id].decidedAt
            <==> !Stale(w.handovers[id], w.now) || w.handovers[id].decidedAt == Some(w.handovers[id].expiresAt)
  {
  }

  /** An offer is refused as pending exactly when the service has a live offer, written down or not. */
  lemma RefusedIffLive(w: World, id: Id, serviceId: Id, fromId: Id, toId: Id)
    requires id !in w.handovers && fromId != toId
    ensures Offer(w, id, serviceId, fromId, toId).1 == ErrPending <==> HasLive(w.handovers, serviceId, w.now)
  {
    var rows := ExpireStalePending(w.handovers, serviceId, w.now);
    if HasLive(w.handovers, serviceId, w.now) {
      var h :| h in w.handovers && w.handovers[h].serviceId == serviceId && Live(w.handovers[h], w.now);
      assert rows[h].status == Pending;
    }
    if IndexHolds(rows, serviceId) {
      var h :| h in rows && rows[h].serviceId == serviceId && rows[h].status == Pending;
      assert Live(w.handovers[h], w.now);
    }
  }
}
