/**
 The tables behind service handovers (internal/persistence/postgres/handover.go) and one transaction
 per function: offer, cancel, decline, accept, admin transfer, the lazily written expiry, and the
 writes around them that touch the same rows. Each function is one committed transaction; a clock
 that never goes back stands for `now()`.

 `creator` and `ledger` are history variables, not tables: who first owned a service, and the
 handovers by which it changed hands, in commit order.
 */
module HandoverTables {
  import opened Collections
  import opened Text

  /** A UUID; only its identity matters. */
  type Id = string

  datatype Status = Pending | Accepted | Declined | Cancelled | Expired

  datatype Row = Row(
    serviceId: Id, fromId: Id, toId: Id, status: Status,
    createdAt: int, decidedAt: Option<int>, expiresAt: int, forcedBy: Option<Id>)

  datatype Service = Service(ownerId: Id, routeId: Id, updatedAt: int)

  /** `content` is everything a copy keeps: name, description, mode, geometry, direction, segments. */
  datatype Route = Route(ownerId: Option<Id>, slug: string, content: string)

  datatype Job = Job(serviceId: Id, ownerId: Id)

  datatype Scenario = Scenario(ownerId: Id, members: set<Id>)

  /** Users map to whether the account is disabled. */
  datatype World = World(
    now: int,
    users: map<Id, bool>,
    services: map<Id, Service>,
    handovers: map<Id, Row>,
    routes: map<Id, Route>,
    jobs: map<Id, Job>,
    scenarios: map<Id, Scenario>,
    creator: map<Id, Id>,
    ledger: map<Id, seq<Id>>)

  datatype Reply =
    | Done
    | Stored(row: Row)
    | ErrPending
    | ErrNotFound
    | ErrNotPending
    | ErrSenderNotOwner
    | ErrRecipientDisabled
    | ErrToOwner
    | ErrInScenarios
    | ErrUnauthorizedMember
    | ErrInternal

  /** Fourteen days, in seconds. */
  const HANDOVER_TTL := 1209600

  const MAX_ROUTE_COPY_ATTEMPTS := 100

  // ----- The two spellings of the expiry boundary -----

  predicate Live(r: Row, now: int) {
    r.status == Pending && r.expiresAt > now
  }

  predicate Stale(r: Row, now: int) {
    r.status == Pending && r.expiresAt <= now
  }

  /** The status every read reports. */
  function VisibleStatus(r: Row, now: int): Status {
    if Stale(r, now) then Expired else r.status
  }

  function Written(r: Row, now: int): Row {
    if Stale(r, now) then r.(status := Expired, decidedAt := Some(r.expiresAt)) else r
  }

  /** Writes the expiry down for one service's offers. */
  function ExpireStalePending(rows: map<Id, Row>, serviceId: Id, now: int): map<Id, Row> {
    map id | id in rows :: if rows[id].serviceId == serviceId then Written(rows[id], now) else rows[id]
  }

  /** A row that the partial unique index counts. */
  predicate IndexHolds(rows: map<Id, Row>, serviceId: Id) {
    exists id :: id in rows && rows[id].serviceId == serviceId && rows[id].status == Pending
  }

  predicate HasLive(rows: map<Id, Row>, serviceId: Id, now: int) {
    exists id :: id in rows && rows[id].serviceId == serviceId && Live(rows[id], now)
  }

  // ----- Offer, cancel, decline -----

  function Offer(w: World, id: Id, serviceId: Id, fromId: Id, toId: Id): (World, Reply) {
    var rows := ExpireStalePending(w.handovers, serviceId, w.now);
    var row := Row(serviceId, fromId, toId, Pending, w.now, None, w.now + HANDOVER_TTL, None);
    if id in rows || fromId == toId then (w, ErrInternal)
    else if IndexHolds(rows, serviceId) then (w, ErrPending)
    else if serviceId !in w.services || fromId !in w.users || toId !in w.users then (w, ErrInternal)
    else
      (w.(handovers := rows[id := row]), Stored(row))
  }

  /** The party a decision belongs to. */
  datatype Party = Sender | Recipient

  predicate IsParty(r: Row, party: Party, callerId: Id) {
    callerId == match party case Sender => r.fromId case Recipient => r.toId
  }

  function Decide(w: World, id: Id, party: Party, callerId: Id, status: Status): (World, Reply) {
    if id !in w.handovers || !IsParty(w.handovers[id], party, callerId) then (w, ErrNotFound)
    else if !Live(w.handovers[id], w.now) then (w, ErrNotPending)
    else
      var row := w.handovers[id].(status := status, decidedAt := Some(w.now));
      (w.(handovers := w.handovers[id := row]), Stored(row))
  }

  // ----- Moving a service -----

  predicate InScenario(w: World, serviceId: Id) {
    exists sc :: sc in w.scenarios && serviceId in w.scenarios[sc].members
  }

  predicate SlugTaken(routes: map<Id, Route>, slug: string) {
    exists r :: r in routes && routes[r].slug == slug
  }

  /** The first free suffix from `attempt` up to the limit. */
  function FreeSuffix(routes: map<Id, Route>, slug: string, attempt: nat): (n: Option<nat>)
    ensures n.Some? ==> attempt <= n.value <= MAX_ROUTE_COPY_ATTEMPTS && !SlugTaken(routes, Suffixed(slug, n.value))
    ensures n.Some? ==> forall k :: attempt <= k < n.value ==> SlugTaken(routes, Suffixed(slug, k))
    ensures n.None? ==> forall k :: attempt <= k <= MAX_ROUTE_COPY_ATTEMPTS ==> SlugTaken(routes, Suffixed(slug, k))
    decreases MAX_ROUTE_COPY_ATTEMPTS + 1 - attempt
  {
    if attempt > MAX_ROUTE_COPY_ATTEMPTS then None
    else if SlugTaken(routes, Suffixed(slug, attempt)) then FreeSuffix(routes, slug, attempt + 1)
    else Some(attempt)
  }

  /** The service's jobs go with it. */
  function JobsMoved(jobs: map<Id, Job>, serviceId: Id, toId: Id): map<Id, Job> {
    map j | j in jobs :: if jobs[j].serviceId == serviceId then jobs[j].(ownerId := toId) else jobs[j]
  }

  /** Gives the service to `toId`, copying a route the recipient could not reference. */
  function Move(w: World, serviceId: Id, toId: Id, copyId: Id): (World, Reply)
    requires serviceId in w.services
  {
    var svc := w.services[serviceId];
    if InScenario(w, serviceId) then (w, ErrInScenarios)
    else if svc.routeId !in w.routes then (w, ErrInternal)
    else
      var route := w.routes[svc.routeId];
      var jobs := JobsMoved(w.jobs, serviceId, toId);
      if route.ownerId.Some? && route.ownerId.value != toId then
        var n := FreeSuffix(w.routes, route.slug, 2);
        if copyId in w.routes || n.None? then (w, ErrInternal)
        else
          var copy := Route(Some(toId), Suffixed(route.slug, n.value), route.content);
          (w.(routes := w.routes[copyId := copy], jobs := jobs,
              services := w.services[serviceId := Service(toId, copyId, w.now)]), Done)
      else
        (w.(jobs := jobs, services := w.services[serviceId := Service(toId, svc.routeId, w.now)]), Done)
  }

  lemma MoveRefused(w: World, serviceId: Id, toId: Id, copyId: Id)
    requires serviceId in w.services
    ensures var (moved, reply) := Move(w, serviceId, toId, copyId);
            && (reply == Done || reply == ErrInScenarios || reply == ErrInternal)
            && (reply != Done ==> moved == w)
  {
    hide InScenario, FreeSuffix, JobsMoved;
  }

  /** Records in the history that a handover moved the service. */
  function Record(w: World, serviceId: Id, id: Id): World {
    w.(ledger := w.ledger[serviceId := (if serviceId in w.ledger then w.ledger[serviceId] else []) + [id]])
  }

  function Accept(w: World, id: Id, callerId: Id, copyId: Id): (World, Reply) {
    if id !in w.handovers || w.handovers[id].toId != callerId then (w, ErrNotFound)
    else
      var row := w.handovers[id];
      if row.serviceId !in w.services then (w, ErrNotFound)
      else if !Live(row, w.now) then (w, ErrNotPending)
      else if w.services[row.serviceId].ownerId != row.fromId then (w, ErrSenderNotOwner)
      else if callerId !in w.users then (w, ErrInternal)
      else if w.users[callerId] then (w, ErrRecipientDisabled)
      else
        var (moved, reply) := Move(w, row.serviceId, callerId, copyId);
        if reply != Done then (w, reply)
        else
          var closed := row.(status := Accepted, decidedAt := Some(w.now));
          (Record(moved.(handovers := w.handovers[id := closed]), row.serviceId, id), Stored(closed))
  }

  /** Closes the service's pending offers: as expired past their expiry, as cancelled before it. */
  function ClosePending(rows: map<Id, Row>, serviceId: Id, now: int): map<Id, Row> {
    var expired := ExpireStalePending(rows, serviceId, now);
    map id | id in expired ::
      if expired[id].serviceId == serviceId && Live(expired[id], now)
      then expired[id].(status := Cancelled, decidedAt := Some(now)) else expired[id]
  }

  function Transfer(w: World, serviceId: Id, toId: Id, forcedBy: Id, id: Id, copyId: Id): (World, Reply) {
    if serviceId !in w.services then (w, ErrInternal)
    else
      var ownerId := w.services[serviceId].ownerId;
      if ownerId == toId then (w, ErrToOwner)
      else if toId !in w.users then (w, ErrInternal)
      else if w.users[toId] then (w, ErrRecipientDisabled)
      else
        var (moved, reply) := Move(w, serviceId, toId, copyId);
        if reply != Done then (w, reply)
        else if id in w.handovers then (w, ErrInternal)
        else
          var row := Row(serviceId, ownerId, toId, Accepted, w.now, Some(w.now), w.now, Some(forcedBy));
          (Record(moved.(handovers := ClosePending(w.handovers, serviceId, w.now)[id := row]), serviceId, id), Stored(row))
  }

  // ----- The writes around them -----

  function Tick(w: World, later: int): World {
    if later <= w.now then w else w.(now := later)
  }

  function PutUser(w: World, id: Id, disabled: bool): World {
    w.(users := w.users[id := disabled])
  }

  function AddRoute(w: World, id: Id, route: Route): (World, Reply) {
    if id in w.routes || SlugTaken(w.routes, route.slug) then (w, ErrInternal)
    else (w.(routes := w.routes[id := route]), Done)
  }

  function CreateService(w: World, id: Id, ownerId: Id, routeId: Id): (World, Reply) {
    if id in w.services || ownerId !in w.users || routeId !in w.routes then (w, ErrInternal)
    else
      (w.(services := w.services[id := Service(ownerId, routeId, w.now)],
          creator := w.creator[id := ownerId], ledger := w.ledger[id := []]), Done)
  }

  /** An edit rewrites the route and the timestamp, never the owner. */
  function UpdateService(w: World, id: Id, routeId: Id): (World, Reply) {
    if id !in w.services || routeId !in w.routes then (w, ErrInternal)
    else (w.(services := w.services[id := w.services[id].(routeId := routeId, updatedAt := w.now)]), Done)
  }

  /** Deleting a service cascades into its offers, its jobs and its scenario memberships. */
  function DeleteService(w: World, id: Id): (World, Reply) {
    if id !in w.services then (w, ErrInternal)
    else
      (w.(services := w.services - {id},
          handovers := map h | h in w.handovers && w.handovers[h].serviceId != id :: w.handovers[h],
          jobs := map j | j in w.jobs && w.jobs[j].serviceId != id :: w.jobs[j],
          scenarios := map sc | sc in w.scenarios :: w.scenarios[sc].(members := w.scenarios[sc].members - {id}),
          creator := w.creator - {id},
          ledger := w.ledger - {id}), Done)
  }

  function AddJob(w: World, id: Id, serviceId: Id, ownerId: Id): (World, Reply) {
    if id in w.jobs || serviceId !in w.services then (w, ErrInternal)
    else (w.(jobs := w.jobs[id := Job(serviceId, ownerId)]), Done)
  }

  predicate OwnsAll(w: World, ownerId: Id, members: set<Id>) {
    forall m :: m in members ==> m in w.services && w.services[m].ownerId == ownerId
  }

  /** The membership insert alone: foreign keys are checked, ownership is not. */
  function InsertMembers(w: World, id: Id, ownerId: Id, members: set<Id>): (World, Reply) {
    if !(members <= w.services.Keys) then (w, ErrInternal)
    else (w.(scenarios := w.scenarios[id := Scenario(ownerId, members)]), Done)
  }

  /** The create transaction; it checks no ownership itself. */
  function InsertScenario(w: World, id: Id, ownerId: Id, members: set<Id>): (World, Reply) {
    if id in w.scenarios || ownerId !in w.users then (w, ErrInternal) else InsertMembers(w, id, ownerId, members)
  }

  /** The update transaction: the membership is cleared and written again. */
  function ReplaceMembers(w: World, id: Id, members: set<Id>): (World, Reply) {
    if id !in w.scenarios then (w, ErrInternal) else InsertMembers(w, id, w.scenarios[id].ownerId, members)
  }

  /** A scenario write together with the handler's ownership check, as one step. */
  function CreateScenario(w: World, id: Id, ownerId: Id, members: set<Id>): (World, Reply) {
    if !OwnsAll(w, ownerId, members) then (w, ErrUnauthorizedMember) else InsertScenario(w, id, ownerId, members)
  }

  function UpdateScenario(w: World, id: Id, members: set<Id>): (World, Reply) {
    if id !in w.scenarios then (w, ErrInternal)
    else if !OwnsAll(w, w.scenarios[id].ownerId, members) then (w, ErrUnauthorizedMember)
    else ReplaceMembers(w, id, members)
  }

  function DeleteScenario(w: World, id: Id): (World, Reply) {
    if id !in w.scenarios then (w, ErrInternal) else (w.(scenarios := w.scenarios - {id}), Done)
  }

  // ----- Steps and runs -----

  datatype Op =
    | OpTick(later: int)
    | OpPutUser(userId: Id, disabled: bool)
    | OpAddRoute(routeId: Id, route: Route)
    | OpCreateService(serviceId: Id, ownerId: Id, routeId: Id)
    | OpUpdateService(serviceId: Id, routeId: Id)
    | OpDeleteService(serviceId: Id)
    | OpAddJob(jobId: Id, serviceId: Id, ownerId: Id)
    | OpCreateScenario(scenarioId: Id, ownerId: Id, members: set<Id>)
    | OpUpdateScenario(scenarioId: Id, members: set<Id>)
    | OpDeleteScenario(scenarioId: Id)
    | OpOffer(id: Id, serviceId: Id, fromId: Id, toId: Id)
    | OpCancel(id: Id, callerId: Id)
    | OpDecline(id: Id, callerId: Id)
    | OpAccept(id: Id, callerId: Id, copyId: Id)
    | OpTransfer(serviceId: Id, toId: Id, forcedBy: Id, id: Id, copyId: Id)

  function Step(w: World, op: Op): (World, Reply) {
    match op
    case OpTick(later) => (Tick(w, later), Done)
    case OpPutUser(id, disabled) => (PutUser(w, id, disabled), Done)
    case OpAddRoute(id, route) => AddRoute(w, id, route)
    case OpCreateService(id, ownerId, routeId) => CreateService(w, id, ownerId, routeId)
    case OpUpdateService(id, routeId) => UpdateService(w, id, routeId)
    case OpDeleteService(id) => DeleteService(w, id)
    case OpAddJob(id, serviceId, ownerId) => AddJob(w, id, serviceId, ownerId)
    case OpCreateScenario(id, ownerId, members) => CreateScenario(w, id, ownerId, members)
    case OpUpdateScenario(id, members) => UpdateScenario(w, id, members)
    case OpDeleteScenario(id) => DeleteScenario(w, id)
    case OpOffer(id, serviceId, fromId, toId) => Offer(w, id, serviceId, fromId, toId)
    case OpCancel(id, callerId) => Decide(w, id, Sender, callerId, Cancelled)
    case OpDecline(id, callerId) => Decide(w, id, Recipient, callerId, Declined)
    case OpAccept(id, callerId, copyId) => Accept(w, id, callerId, copyId)
    case OpTransfer(serviceId, toId, forcedBy, id, copyId) => Transfer(w, serviceId, toId, forcedBy, id, copyId)
  }

  function Run(w: World, ops: seq<Op>): (r: (World, seq<Reply>))
    ensures |r.1| == |ops|
    decreases |ops|
  {
    if ops == [] then (w, [])
    else
      var (mid, reply) := Step(w, ops[0]);
      var (end, replies) := Run(mid, ops[1..]);
      (end, [reply] + replies)
  }

  const EMPTY := World(0, map[], map[], map[], map[], map[], map[], map[], map[])
}
