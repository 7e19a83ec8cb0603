/** Boarding-wait policies and the wait they give a service (internal/transit/boarding_wait.go). */
module BoardingWait {
  import opened Collections

  datatype Policy = Policy(kind: string, fixedSecs: int)

  datatype Override = Override(policy: string, secs: Option<int>)

  datatype Window = Window(startTime: string, endTime: string, headwayS: int)

  datatype Result<+T> = Ok(value: T) | Err

  const DEFAULT := Policy("none", 0)

  function ParsePolicy(kind: string, secs: Option<int>): Result<Policy> {
    var k := if kind == "" then "none" else kind;
    if k in {"none", "half_headway", "full_headway"} then Ok(Policy(k, 0))
    else if k == "fixed" then
      if secs.None? || secs.value < 0 then Err else Ok(Policy("fixed", secs.value))
    else Err
  }

  function ParseOverride(o: Override): Result<Policy> {
    if o.policy == "" then Err else ParsePolicy(o.policy, o.secs)
  }

  /** The service's own override, else the scenario's, else the global policy. */
  function Resolve(service: Option<Override>, scenario: Option<Override>, global: Policy): Result<Policy> {
    if service.Some? then ParseOverride(service.value)
    else if scenario.Some? then ParseOverride(scenario.value)
    else Ok(global)
  }

  method MinHeadway(windows: seq<Window>) returns (best: int)
    ensures windows == [] ==> best == 0
    ensures windows != [] ==>
              && (exists w :: w in windows && w.headwayS == best)
              && (forall w :: w in windows ==> best <= w.headwayS)
    ensures best == LeastHeadway(windows)
  {
    if windows == [] { return 0; }
    best := windows[0].headwayS;
    assert windows[0] in windows;
    ghost var at := windows[0];
    var i := 1;
    while i < |windows|
      invariant 1 <= i <= |windows|
      invariant at in windows && at.headwayS == best
      invariant forall k :: 0 <= k < i ==> best <= windows[k].headwayS
    {
      if windows[i].headwayS < best {
        best, at := windows[i].headwayS, windows[i];
      }
      i := i + 1;
    }
    LeastHeadwayUnique(windows, best);
  }

  function LeastHeadway(windows: seq<Window>): int {
    if windows == [] then 0
    else if |windows| == 1 then windows[0].headwayS
    else
      var rest := LeastHeadway(windows[1..]);
      if windows[0].headwayS <= rest then windows[0].headwayS else rest
  }

  lemma {:induction false} LeastHeadwayUnique(windows: seq<Window>, best: int)
    requires windows != []
    requires exists w :: w in windows && w.headwayS == best
    requires forall k :: 0 <= k < |windows| ==> best <= windows[k].headwayS
    ensures best == LeastHeadway(windows)
  {
    if |windows| > 1 {
      var w :| w in windows && w.headwayS == best;
      var rest := windows[1..];
      LeastOfRest(rest);
      assert windows == [windows[0]] + rest;
      if w in rest {
        LeastHeadwayUnique(rest, best);
      } else {
        var i :| 0 <= i < |rest| && rest[i].headwayS == LeastHeadway(rest);
        assert rest[i] == windows[i + 1];
      }
    }
  }

  lemma {:induction false} LeastOfRest(windows: seq<Window>)
    requires windows != []
    ensures exists i :: 0 <= i < |windows| && windows[i].headwayS == LeastHeadway(windows)
  {
    if |windows| > 1 {
      LeastOfRest(windows[1..]);
      var i :| 0 <= i < |windows[1..]| && windows[1..][i].headwayS == LeastHeadway(windows[1..]);
      assert windows[i + 1] == windows[1..][i];
      assert windows[0].headwayS == LeastHeadway(windows) || windows[i + 1].headwayS == LeastHeadway(windows);
    } else {
      assert windows[0].headwayS == LeastHeadway(windows);
    }
  }

  /** Integer division truncates toward zero in the source. */
  function Half(x: int): int {
    if x >= 0 then x / 2 else -((-x) / 2)
  }

  function WaitSecs(p: Policy, windows: seq<Window>): Result<int> {
    if p.kind == "none" || p.kind == "" then Ok(0)
    else if p.kind == "half_headway" then Ok(Half(LeastHeadway(windows)))
    else if p.kind == "full_headway" then Ok(LeastHeadway(windows))
    else if p.kind == "fixed" then if p.fixedSecs < 0 then Err else Ok(p.fixedSecs)
    else Err
  }

  function KindOrNone(p: Policy): string {
    if p.kind == "" then "none" else p.kind
  }

  /** The wait policy and seconds a service is compiled with, if its policy resolves. */
  function WaitFor(service: Option<Override>, scenario: Option<Override>, global: Policy, windows: seq<Window>): Result<(string, int)> {
    var policy := Resolve(service, scenario, global);
    if policy.Err? then Err
    else
      var secs := WaitSecs(policy.value, windows);
      if secs.Err? then Err else Ok((KindOrNone(policy.value), secs.value))
  }

  // ----- What a wait is -----

  lemma {:induction false} LeastHeadwayLeast(windows: seq<Window>)
    requires windows != []
    ensures exists w :: w in windows && w.headwayS == LeastHeadway(windows)
    ensures forall w :: w in windows ==> LeastHeadway(windows) <= w.headwayS
  {
    LeastOfRest(windows);
    var i :| 0 <= i < |windows| && windows[i].headwayS == LeastHeadway(windows);
    assert windows[i] in windows;
    if |windows| > 1 {
      LeastHeadwayLeast(windows[1..]);
      assert windows == [windows[0]] + windows[1..];
    }
  }

  /** A headway that no window undercuts and some window has; zero without windows. */
  ghost predicate ShortestHeadway(windows: seq<Window>, secs: int) {
    if windows == [] then secs == 0
    else (exists w :: w in windows && w.headwayS == secs) && (forall w :: w in windows ==> secs <= w.headwayS)
  }

  /**
   The wait an override gives: none, the shortest headway, half of it to the second below, or the seconds it
   fixes. Anything else is refused.
   */
  ghost predicate WaitOfOverride(o: Override, windows: seq<Window>, wait: Result<(string, int)>) {
    if o.policy == "none" then wait == Ok(("none", 0))
    else if o.policy == "full_headway" then
      wait.Ok? && wait.value.0 == "full_headway" && ShortestHeadway(windows, wait.value.1)
    else if o.policy == "half_headway" then
      && wait.Ok? && wait.value.0 == "half_headway"
      && exists full :: ShortestHeadway(windows, full) && if 0 <= full then 0 <= full - 2 * wait.value.1 <= 1
                                                          else -1 <= full - 2 * wait.value.1 <= 0
    else if o.policy == "fixed" && o.secs.Some? && 0 <= o.secs.value then wait == Ok(("fixed", o.secs.value))
    else wait == Err
  }

  lemma OverrideGives(o: Override, windows: seq<Window>, scenario: Option<Override>, global: Policy)
    ensures WaitOfOverride(o, windows, WaitFor(Some(o), scenario, global, windows))
  {
    if windows != [] {
      LeastHeadwayLeast(windows);
    }
    hide LeastHeadway;
    assert ShortestHeadway(windows, LeastHeadway(windows));
  }

  /** A service's own override decides, whatever the scenario and the global policy are; then the scenario's. */
  lemma OwnOverrideDecides(service: Option<Override>, scenario: Option<Override>, global: Policy, windows: seq<Window>)
    ensures service.Some? ==> WaitOfOverride(service.value, windows, WaitFor(service, scenario, global, windows))
    ensures service.None? && scenario.Some? ==>
              WaitOfOverride(scenario.value, windows, WaitFor(service, scenario, global, windows))
    ensures service.None? && scenario.None? && global.kind in {"none", "half_headway", "full_headway", "fixed"} ==>
              WaitOfOverride(Override(global.kind, Some(global.fixedSecs)), windows, WaitFor(service, scenario, global, windows))
  {
    if service.Some? {
      OverrideGives(service.value, windows, scenario, global);
    } else if scenario.Some? {
      OverrideGives(scenario.value, windows, None, global);
    } else {
      OverrideGives(Override(global.kind, Some(global.fixedSecs)), windows, None, global);
    }
    hide WaitOfOverride, WaitSecs;
  }

  /** The half-headway wait is at most the full one, and twice it at most one second less. */
  lemma HalfOfFull(windows: seq<Window>, scenario: Option<Override>, global: Policy)
    ensures var half := WaitFor(Some(Override("half_headway", None)), scenario, global, windows);
            var full := WaitFor(Some(Override("full_headway", None)), scenario, global, windows);
            && half.Ok? && full.Ok?
            && (0 <= full.value.1 ==> half.value.1 <= full.value.1 && full.value.1 - 1 <= 2 * half.value.1 <= full.value.1)
            && (forall w :: w in windows ==> full.value.1 <= w.headwayS)
  {
    if windows != [] {
      LeastHeadwayLeast(windows);
    }
    hide LeastHeadway;
  }

  /** With an override of its own a service waits the same whatever the scenario and the global policy are. */
  lemma OnlyOwnOverride(o: Override, scenario: Option<Override>, global: Policy, scenario': Option<Override>, global': Policy,
                        windows: seq<Window>)
    ensures WaitFor(Some(o), scenario, global, windows) == WaitFor(Some(o), scenario', global', windows)
    ensures WaitFor(None, Some(o), global, windows) == WaitFor(Some(o), scenario', global', windows)
  {
  }
}
