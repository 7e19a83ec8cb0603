/**
 Whether a compiled graph is still current (internal/transit/staleness.go), and how that relates to
 compiling the members again. Times are integers.
 */
module Staleness {
  import opened Collections
  import opened BoardingWait
  import opened Compilables
  import opened PhysicsCompiler
  import opened ScenarioCompiler
  import opened StopSlugs
  import opened Clustering
  import opened Projection
  import opened Merging
  import MergeServices

  datatype Job = Job(compiledServiceIds: seq<string>, createdAt: int, result: Option<TransitGraph>)

  /** A member service as the handler reads it: what the staleness check and a recompile look at. */
  datatype Member = Member(id: string, updatedAt: int, boardingWait: Option<Override>, windows: seq<Window>)

  // ----- Membership -----

  ghost predicate Outdated(compiled: seq<string>, capturedAt: int, current: seq<string>, updatedAt: map<string, int>) {
    || |Elements(compiled)| != |current|
    || (exists k :: 0 <= k < |current| && current[k] !in compiled)
    || NewerMember(capturedAt, current, updatedAt)
  }

  ghost predicate NewerMember(capturedAt: int, current: seq<string>, updatedAt: map<string, int>) {
    exists k :: 0 <= k < |current| && current[k] in updatedAt && updatedAt[current[k]] > capturedAt
  }

  method MembershipStale(compiled: seq<string>, capturedAt: int, current: seq<string>, updatedAt: map<string, int>)
    returns (stale: bool)
    ensures stale <==> Outdated(compiled, capturedAt, current, updatedAt)
  {
    var ids, i := {}, 0;
    while i < |compiled|
      invariant 0 <= i <= |compiled|
      invariant ids == Elements(compiled[..i])
    {
      ids := ids + {compiled[i]};
      i := i + 1;
    }
    assert compiled[..i] == compiled;
    if |ids| != |current| { return true; }
    i := 0;
    while i < |current|
      invariant 0 <= i <= |current|
      invariant forall k :: 0 <= k < i ==> current[k] in compiled
    {
      if current[i] !in ids { return true; }
      i := i + 1;
    }
    i := 0;
    while i < |current|
      invariant 0 <= i <= |current|
      invariant forall k :: 0 <= k < i && current[k] in updatedAt ==> updatedAt[current[k]] <= capturedAt
    {
      if current[i] in updatedAt && updatedAt[current[i]] > capturedAt { return true; }
      i := i + 1;
    }
    return false;
  }

  lemma {:induction false} ElementsSize(s: seq<string>)
    ensures |Elements(s)| <= |s|
    ensures |Elements(s)| == |s| <==> NoRepeat(s)
  {
    if s != [] {
      var n := |s| - 1;
      ElementsSize(s[..n]);
      assert s == s[..n] + [s[n]];
      assert Elements(s) == Elements(s[..n]) + {s[n]};
      if s[n] in Elements(s[..n]) {
        var k :| 0 <= k < n && s[..n][k] == s[n];
        assert s[k] == s[n];
      } else if NoRepeat(s[..n]) {
        forall k | 0 <= k < n ensures s[k] != s[n] {
          assert s[..n][k] in s[..n];
        }
      }
    }
  }

  /** With distinct current members the check is exact: same members, none of them newer. */
  lemma CurrentIffSameMembers(compiled: seq<string>, capturedAt: int, current: seq<string>, updatedAt: map<string, int>)
    requires NoRepeat(current)
    ensures !Outdated(compiled, capturedAt, current, updatedAt) <==>
              Elements(compiled) == Elements(current) && !NewerMember(capturedAt, current, updatedAt)
  {
    hide NewerMember;
    ElementsSize(current);
    if forall k :: 0 <= k < |current| ==> current[k] in compiled {
      assert Elements(current) <= Elements(compiled);
      if |Elements(compiled)| == |current| {
        SameSizeSubset(Elements(current), Elements(compiled));
      }
    }
    if Elements(compiled) == Elements(current) {
      forall k | 0 <= k < |current| ensures current[k] in compiled {
        assert current[k] in Elements(current);
      }
    }
  }

  /** With a repeated current member the check is wrong whenever it passes: a compiled member is gone. */
  lemma RepeatedMemberMisjudged(compiled: seq<string>, capturedAt: int, current: seq<string>, updatedAt: map<string, int>)
    requires !NoRepeat(current)
    requires !Outdated(compiled, capturedAt, current, updatedAt)
    ensures Elements(current) < Elements(compiled)
  {
    ElementsSize(current);
    forall k | 0 <= k < |current| ensures current[k] in Elements(compiled) {
    }
    assert Elements(current) <= Elements(compiled);
    assert Elements(current) != Elements(compiled);
  }

  /** Such a pass exists: two services compiled, one of them listed twice now. */
  lemma RepeatedMemberPasses(a: string, b: string, capturedAt: int)
    requires a != b
    ensures !Outdated([a, b], capturedAt, [a, a], map[])
  {
    assert Elements([a, b]) == {a, b};
  }

  // ----- Waits and routes -----

  /** A service missing from the map has the default policy. */
  function PolicyFor(policies: map<string, Policy>, id: string): Policy {
    if id in policies then policies[id] else DEFAULT
  }

  predicate WaitChanged(sg: ServiceGraph, policies: map<string, Policy>) {
    var current := PolicyFor(policies, sg.serviceId);
    sg.waitPolicy != KindOrNone(current) || (current.kind == "fixed" && sg.waitSecs != current.fixedSecs)
  }

  method BoardingWaitStale(graph: TransitGraph, policies: map<string, Policy>) returns (stale: bool)
    ensures stale <==> exists sg :: sg in graph.services && WaitChanged(sg, policies)
  {
    var i := 0;
    while i < |graph.services|
      invariant 0 <= i <= |graph.services|
      invariant forall k :: 0 <= k < i ==> !WaitChanged(graph.services[k], policies)
    {
      var sg := graph.services[i];
      var current := if sg.serviceId in policies then policies[sg.serviceId] else DEFAULT;
      assert sg in graph.services;
      if sg.waitPolicy != KindOrNone(current) {
        assert WaitChanged(sg, policies);
        return true;
      }
      if current.kind == "fixed" && sg.waitSecs != current.fixedSecs {
        assert WaitChanged(sg, policies);
        return true;
      }
      i := i + 1;
    }
    return false;
  }

  predicate Unplaced(sg: ServiceGraph) {
    exists e :: e in sg.edges && e.routeId == ""
  }

  method EdgeRoutesStale(graph: TransitGraph) returns (stale: bool)
    ensures stale <==> exists sg :: sg in graph.services && Unplaced(sg)
  {
    var i := 0;
    while i < |graph.services|
      invariant 0 <= i <= |graph.services|
      invariant forall k :: 0 <= k < i ==> !Unplaced(graph.services[k])
    {
      var edges, j := graph.services[i].edges, 0;
      while j < |edges|
        invariant 0 <= j <= |edges|
        invariant forall k :: 0 <= k < j ==> edges[k].routeId != ""
      {
        if edges[j].routeId == "" {
          assert edges[j] in edges;
          assert Unplaced(graph.services[i]);
          return true;
        }
        j := j + 1;
      }
      i := i + 1;
    }
    return false;
  }

  ghost predicate Stale(job: Job, current: seq<string>, updatedAt: map<string, int>, policies: map<string, Policy>) {
    || Outdated(job.compiledServiceIds, job.createdAt, current, updatedAt)
    || (job.result.Some? && exists sg :: sg in job.result.value.services && (WaitChanged(sg, policies) || Unplaced(sg)))
  }

  method GraphStale(job: Job, current: seq<string>, updatedAt: map<string, int>, policies: map<string, Policy>)
    returns (stale: bool)
    ensures stale <==> Stale(job, current, updatedAt, policies)
  {
    hide Outdated, WaitChanged, Unplaced;
    var outdated := MembershipStale(job.compiledServiceIds, job.createdAt, current, updatedAt);
    if outdated { return true; }
    if job.result.Some? {
      var waits := BoardingWaitStale(job.result.value, policies);
      if waits { return true; }
      var routes := EdgeRoutesStale(job.result.value);
      if routes { return true; }
    }
    return false;
  }

  // ----- What the handler passes in -----

  function IdsOf(members: seq<Member>): (ids: seq<string>)
    ensures |ids| == |members|
    ensures forall k :: 0 <= k < |ids| ==> ids[k] == members[k].id
  {
    seq(|members|, k requires 0 <= k < |members| => members[k].id)
  }

  function UpdatedAts(members: seq<Member>): map<string, int> {
    if members == [] then map[]
    else var n := |members| - 1; UpdatedAts(members[..n])[members[n].id := members[n].updatedAt]
  }

  /** A policy that does not resolve counts as the default one. */
  function Policies(members: seq<Member>, scenario: Option<Override>, global: Policy): map<string, Policy> {
    if members == [] then map[]
    else
      var n := |members| - 1;
      var p := Resolve(members[n].boardingWait, scenario, global);
      Policies(members[..n], scenario, global)[members[n].id := if p.Ok? then p.value else DEFAULT]
  }

  lemma {:induction false} MemberLookup(members: seq<Member>, scenario: Option<Override>, global: Policy, k: nat)
    requires k < |members| && NoRepeat(IdsOf(members))
    ensures members[k].id in UpdatedAts(members) && UpdatedAts(members)[members[k].id] == members[k].updatedAt
    ensures var p := Resolve(members[k].boardingWait, scenario, global);
            PolicyFor(Policies(members, scenario, global), members[k].id) == if p.Ok? then p.value else DEFAULT
  {
    hide Resolve;
    var n := |members| - 1;
    if k < n {
      assert IdsOf(members)[k] != IdsOf(members)[n];
      forall i, j | 0 <= i < j < n ensures IdsOf(members[..n])[i] != IdsOf(members[..n])[j] {
        assert IdsOf(members)[i] != IdsOf(members)[j];
      }
      MemberLookup(members[..n], scenario, global, k);
    }
  }

  // ----- A graph just compiled is current -----

  function CompiledIds(graph: TransitGraph): (ids: seq<string>)
    ensures |ids| == |graph.services|
    ensures forall k :: 0 <= k < |ids| ==> ids[k] == graph.services[k].serviceId
  {
    seq(|graph.services|, k requires 0 <= k < |graph.services| => graph.services[k].serviceId)
  }

  /** The service was compiled with what the member says now. */
  ghost predicate RecordsWait(sg: ServiceGraph, member: Member, scenario: Option<Override>, global: Policy) {
    && sg.serviceId == member.id
    && WaitFor(member.boardingWait, scenario, global, member.windows) == Ok((sg.waitPolicy, sg.waitSecs))
  }

  lemma RecordedUnchanged(sg: ServiceGraph, member: Member, scenario: Option<Override>, global: Policy, policies: map<string, Policy>)
    requires RecordsWait(sg, member, scenario, global)
    requires PolicyFor(policies, sg.serviceId) == Resolve(member.boardingWait, scenario, global).value
    ensures !WaitChanged(sg, policies)
  {
  }

  /**
   A graph compiled from the current members, none edited since its job was made, is not stale. What the
   graph must satisfy is what the physics compiler gives: recorded waits, and a route on every edge.
   */
  lemma FreshNeverStale(job: Job, members: seq<Member>, scenario: Option<Override>, global: Policy)
    requires NoRepeat(IdsOf(members))
    requires forall k :: 0 <= k < |members| ==> members[k].updatedAt <= job.createdAt
    requires job.result.Some? && job.compiledServiceIds == CompiledIds(job.result.value)
    requires Elements(job.compiledServiceIds) == Elements(IdsOf(members))
    requires forall sg :: sg in job.result.value.services ==>
               !Unplaced(sg) && exists k :: 0 <= k < |members| && RecordsWait(sg, members[k], scenario, global)
    ensures !Stale(job, IdsOf(members), UpdatedAts(members), Policies(members, scenario, global))
  {
    hide Outdated, WaitChanged, Unplaced, Resolve, WaitSecs, UpdatedAts, Policies, PolicyFor;
    var ids, updatedAt, policies := IdsOf(members), UpdatedAts(members), Policies(members, scenario, global);
    forall k | 0 <= k < |ids| ensures ids[k] in updatedAt && updatedAt[ids[k]] <= job.createdAt {
      MemberLookup(members, scenario, global, k);
    }
    CurrentIffSameMembers(job.compiledServiceIds, job.createdAt, ids, updatedAt);
    forall sg | sg in job.result.value.services ensures !WaitChanged(sg, policies) {
      var k :| 0 <= k < |members| && RecordsWait(sg, members[k], scenario, global);
      MemberLookup(members, scenario, global, k);
      RecordedUnchanged(sg, members[k], scenario, global, policies);
    }
  }

  /** The physics compiler records exactly that. */
  lemma CompilerRecords(svc: CompilableService, global: Policy, sg: ServiceGraph, member: Member)
    requires Fault(svc, global).None? && sg.serviceId == svc.id
    requires (sg.waitPolicy, sg.waitSecs) == WaitOf(svc, global).value
    requires member.id == svc.id && member.boardingWait == svc.boardingWait && member.windows == svc.windows
    ensures RecordsWait(sg, member, svc.scenarioBoardingWait, global)
  {
  }

  /** The services handed to the compiler are the members as they are now. */
  ghost predicate ReadsMembers(svcs: seq<CompilableService>, members: seq<Member>, scenario: Option<Override>) {
    && |svcs| == |members|
    && forall i :: 0 <= i < |svcs| ==>
         && members[i].id == svcs[i].id && members[i].boardingWait == svcs[i].boardingWait
         && members[i].windows == svcs[i].windows && svcs[i].scenarioBoardingWait == scenario
         && svcs[i].route.id != ""
  }

  lemma ServiceRecords(sqrt: real -> real, project: (seq<Point>, Point) -> Planar, svc: CompilableService, global: Policy,
                       sg: ServiceGraph, member: Member)
    requires ServiceCompiled(sqrt, project, svc, global, sg) && svc.route.id != ""
    requires member.id == svc.id && member.boardingWait == svc.boardingWait && member.windows == svc.windows
    ensures RecordsWait(sg, member, svc.scenarioBoardingWait, global) && !Unplaced(sg)
  {
    ServiceEndpoints(sqrt, project, svc, global, sg);
    hide Endpoints, SlugsOf, Fault, RecordsWait, WaitOf;
    var placed :| CompiledFrom(sqrt, project, svc, global, placed, sg);
    CompilerRecords(svc, global, sg, member);
  }

  /** What `CompileServices` makes of the current members is not stale. */
  lemma CompiledNeverStale(sqrt: real -> real, project: (seq<Point>, Point) -> Planar,
                           svcs: seq<CompilableService>, merged: seq<CompilableService>, m: Merge, graph: TransitGraph,
                           members: seq<Member>, scenario: Option<Override>, global: Policy, createdAt: int)
    requires MergeServices.SameExceptSlugs(svcs, merged) && GraphOf(sqrt, project, merged, m, global, graph)
    requires ReadsMembers(svcs, members, scenario) && NoRepeat(IdsOf(members))
    requires forall k :: 0 <= k < |members| ==> members[k].updatedAt <= createdAt
    ensures !Stale(Job(CompiledIds(graph), createdAt, Some(graph)),
                   IdsOf(members), UpdatedAts(members), Policies(members, scenario, global))
  {
    hide ServiceCompiled, RecordsWait, Unplaced, Stale, UpdatedAts, Policies;
    forall i | 0 <= i < |merged|
      ensures RecordsWait(graph.services[i], members[i], scenario, global) && !Unplaced(graph.services[i])
    {
      ServiceRecords(sqrt, project, merged[i], global, graph.services[i], members[i]);
    }
    forall i | 0 <= i < |merged| ensures CompiledIds(graph)[i] == IdsOf(members)[i] {
      SameId(graph.services[i], members[i], scenario, global);
    }
    assert CompiledIds(graph) == IdsOf(members);
    FreshNeverStale(Job(CompiledIds(graph), createdAt, Some(graph)), members, scenario, global);
  }

  lemma SameId(sg: ServiceGraph, member: Member, scenario: Option<Override>, global: Policy)
    requires RecordsWait(sg, member, scenario, global)
    ensures sg.serviceId == member.id
  {
  }

  // ----- A graph that is not stale still records the right waits -----

  /**
   If the check passes, compiling the members again records the same policy and seconds for every service
   whose policy resolves. Windows may change only together with the time of the last update.
   */
  lemma NotStaleSameWaits(job: Job, members: seq<Member>, scenario: Option<Override>, global: Policy,
                          sg: ServiceGraph, was: Member, scenarioWas: Option<Override>, globalWas: Policy)
    requires NoRepeat(IdsOf(members)) && job.result.Some? && sg in job.result.value.services
    requires job.compiledServiceIds == CompiledIds(job.result.value)
    requires !Stale(job, IdsOf(members), UpdatedAts(members), Policies(members, scenario, global))
    requires RecordsWait(sg, was, scenarioWas, globalWas)
    requires forall k :: 0 <= k < |members| && members[k].id == was.id && members[k].updatedAt <= job.createdAt ==>
               members[k].windows == was.windows
    ensures exists k :: 0 <= k < |members| && members[k].id == sg.serviceId
              && (RecordsWait(sg, members[k], scenario, global) <==>
                    WaitFor(members[k].boardingWait, scenario, global, members[k].windows).Ok?)
  {
    hide UpdatedAts, Policies, PolicyFor, Outdated, Resolve, WaitChanged, Unplaced, WaitFor;
    var ids := IdsOf(members);
    CurrentIffSameMembers(job.compiledServiceIds, job.createdAt, ids, UpdatedAts(members));
    var i :| 0 <= i < |job.result.value.services| && job.result.value.services[i] == sg;
    assert CompiledIds(job.result.value)[i] in Elements(job.compiledServiceIds);
    var k :| 0 <= k < |ids| && ids[k] == sg.serviceId;
    MemberLookup(members, scenario, global, k);
    assert !NewerMember(job.createdAt, ids, UpdatedAts(members));
    assert members[k].updatedAt <= job.createdAt by {
      assert ids[k] in UpdatedAts(members) && !(UpdatedAts(members)[ids[k]] > job.createdAt);
    }
    SameKindSameWait(sg, was, scenarioWas, globalWas, members[k], scenario, global, Policies(members, scenario, global));
  }

  lemma SameKindSameWait(sg: ServiceGraph, was: Member, scenarioWas: Option<Override>, globalWas: Policy,
                         now: Member, scenario: Option<Override>, global: Policy, policies: map<string, Policy>)
    requires RecordsWait(sg, was, scenarioWas, globalWas) && now.id == sg.serviceId
    requires now.windows == was.windows && !WaitChanged(sg, policies)
    requires var p := Resolve(now.boardingWait, scenario, global);
             PolicyFor(policies, sg.serviceId) == if p.Ok? then p.value else DEFAULT
    ensures RecordsWait(sg, now, scenario, global) <==> WaitFor(now.boardingWait, scenario, global, now.windows).Ok?
  {
    hide Resolve, LeastHeadway;
  }

  /** A policy that does not resolve passes for "none": the check passes although a recompile would fail. */
  lemma UnresolvedPassesForNone(id: string, createdAt: int, edges: seq<Edge>, windows: seq<Window>)
    requires forall e :: e in edges ==> e.routeId != ""
    ensures var sg := ServiceGraph(id, edges, 0, "none");
            var job := Job([id], createdAt, Some(TransitGraph([sg], MergeReport([], []), [])));
            var member := Member(id, createdAt, Some(Override("weekly", None)), windows);
            && !Stale(job, [id], UpdatedAts([member]), Policies([member], None, DEFAULT))
            && WaitFor(member.boardingWait, None, DEFAULT, windows).Err?
  {
    var member := Member(id, createdAt, Some(Override("weekly", None)), windows);
    assert Elements([id]) == {id};
    MemberLookup([member], None, DEFAULT, 0);
  }

  // ----- What makes a graph stale -----

  /** The inputs the handler passes for these members. */
  ghost predicate StaleFor(job: Job, members: seq<Member>, scenario: Option<Override>, global: Policy) {
    Stale(job, IdsOf(members), UpdatedAts(members), Policies(members, scenario, global))
  }

  /** A member edited since the job was made, added, or gone makes the graph stale. */
  lemma ChangedMemberStale(job: Job, members: seq<Member>, scenario: Option<Override>, global: Policy)
    requires NoRepeat(IdsOf(members))
    ensures (exists k :: 0 <= k < |members| && members[k].updatedAt > job.createdAt) ==> StaleFor(job, members, scenario, global)
    ensures (exists k :: 0 <= k < |members| && members[k].id !in job.compiledServiceIds) ==> StaleFor(job, members, scenario, global)
    ensures (exists id :: id in job.compiledServiceIds && forall k :: 0 <= k < |members| ==> members[k].id != id) ==>
              StaleFor(job, members, scenario, global)
  {
    hide Policies, UpdatedAts, WaitChanged, Unplaced;
    var ids, updatedAt := IdsOf(members), UpdatedAts(members);
    CurrentIffSameMembers(job.compiledServiceIds, job.createdAt, ids, updatedAt);
    if k :| 0 <= k < |members| && members[k].updatedAt > job.createdAt {
      MemberLookup(members, scenario, global, k);
      assert ids[k] in updatedAt && updatedAt[ids[k]] > job.createdAt;
    }
    if k :| 0 <= k < |members| && members[k].id !in job.compiledServiceIds {
      assert ids[k] !in job.compiledServiceIds;
    }
    if id :| id in job.compiledServiceIds && forall k :: 0 <= k < |members| ==> members[k].id != id {
      assert id in Elements(job.compiledServiceIds);
    }
  }

  /** So does an edge without a route. */
  lemma UnroutedStale(job: Job, members: seq<Member>, scenario: Option<Override>, global: Policy, sg: ServiceGraph, e: Edge)
    requires job.result.Some? && sg in job.result.value.services && e in sg.edges && e.routeId == ""
    ensures StaleFor(job, members, scenario, global)
  {
    hide Outdated, Policies, UpdatedAts, WaitChanged;
    assert Unplaced(sg);
  }

  /**
   And so does an override that says otherwise than what was compiled: another policy, or other fixed seconds.
   The service's own override counts before the scenario's.
   */
  lemma OverrideChangedStale(job: Job, members: seq<Member>, scenario: Option<Override>, global: Policy, sg: ServiceGraph, k: nat, o: Override)
    requires NoRepeat(IdsOf(members)) && k < |members| && sg.serviceId == members[k].id
    requires job.result.Some? && sg in job.result.value.services
    requires members[k].boardingWait == Some(o) || (members[k].boardingWait.None? && scenario == Some(o))
    ensures o.policy in {"none", "half_headway", "full_headway"} && sg.waitPolicy != o.policy ==>
              StaleFor(job, members, scenario, global)
    ensures o.policy == "fixed" && o.secs.Some? && 0 <= o.secs.value && (sg.waitPolicy != "fixed" || sg.waitSecs != o.secs.value) ==>
              StaleFor(job, members, scenario, global)
  {
    hide Outdated, Policies, UpdatedAts, Unplaced, PolicyFor;
    MemberLookup(members, scenario, global, k);
    var p := Resolve(members[k].boardingWait, scenario, global);
    if o.policy in {"none", "half_headway", "full_headway"} {
      assert p == Ok(Policy(o.policy, 0));
    } else if o.policy == "fixed" && o.secs.Some? && 0 <= o.secs.value {
      assert p == Ok(Policy("fixed", o.secs.value));
    }
    hide Resolve;
    var policies := Policies(members, scenario, global);
    assert WaitChanged(sg, policies) ==> StaleFor(job, members, scenario, global);
  }
}
