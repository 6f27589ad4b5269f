/** Stopping services around a backup or restore and starting them again
    (plinth/modules/backups/api.py).

    Stopping or starting a resource may fail, which raises.  The handler of the backup is assumed not
    to start or stop services itself. */
module BackupServices {

  /** A system service or an Apache configuration. */
  datatype Resource = Service(name: string) | Site(name: string, kind: string)

  datatype Event = Stopped(r: Resource) | Started(r: Resource)

  // ---------- What a shutdown stops ----------

  /** Handlers are stopped from the last to the first, so the last mention of an active resource is
      the one that finds it active. */
  predicate FindsActive(active: set<Resource>, rs: seq<Resource>, i: nat)
    requires i < |rs|
  {
    rs[i] in active && rs[i] !in rs[i + 1..]
  }

  /** The stops, in time: handlers from the last down to the n-th. */
  function StopEvents(active: set<Resource>, rs: seq<Resource>, n: nat): seq<Event>
    requires n <= |rs|
    decreases |rs| - n
  {
    if n == |rs| then []
    else if FindsActive(active, rs, n) then StopEvents(active, rs, n + 1) + [Stopped(rs[n])]
    else StopEvents(active, rs, n + 1)
  }

  /** The starts, in time: the first n handlers. */
  function StartEvents(active: set<Resource>, rs: seq<Resource>, n: nat): seq<Event>
    requires n <= |rs|
  {
    if n == 0 then []
    else if FindsActive(active, rs, n - 1) then StartEvents(active, rs, n - 1) + [Started(rs[n - 1])]
    else StartEvents(active, rs, n - 1)
  }

  /** The starts are those of the stopped resources, in reverse. */
  ghost predicate IsMirror(stops: seq<Event>, starts: seq<Event>) {
    && |stops| == |starts|
    && forall k | 0 <= k < |stops| :: stops[k].Stopped? && starts[|stops| - 1 - k] == Started(stops[k].r)
  }

  /** The starts of the n-th handler and on. */
  function StartEventsFrom(active: set<Resource>, rs: seq<Resource>, n: nat): seq<Event>
    requires n <= |rs|
    decreases |rs| - n
  {
    if n == |rs| then []
    else if FindsActive(active, rs, n) then [Started(rs[n])] + StartEventsFrom(active, rs, n + 1)
    else StartEventsFrom(active, rs, n + 1)
  }

  lemma {:induction false} StartsSplit(active: set<Resource>, rs: seq<Resource>, n: nat)
    requires n <= |rs|
    ensures StartEvents(active, rs, n) + StartEventsFrom(active, rs, n) == StartEventsFrom(active, rs, 0)
  {
    var before, after := StartEvents(active, rs, n), StartEventsFrom(active, rs, n);
    if n > 0 {
      StartsSplit(active, rs, n - 1);
      var front := StartEvents(active, rs, n - 1);
      assert (front + [Started(rs[n - 1])]) + after == front + ([Started(rs[n - 1])] + after);
    } else {
      assert [] + after == after;
    }
  }

  lemma {:induction false} StopsMirrorStartsFrom(active: set<Resource>, rs: seq<Resource>, n: nat)
    requires n <= |rs|
    ensures IsMirror(StopEvents(active, rs, n), StartEventsFrom(active, rs, n))
    decreases |rs| - n
  {
    if n < |rs| {
      StopsMirrorStartsFrom(active, rs, n + 1);
      MirrorGrows(StopEvents(active, rs, n + 1), StartEventsFrom(active, rs, n + 1), rs[n]);
    }
  }

  lemma MirrorGrows(stops: seq<Event>, starts: seq<Event>, r: Resource)
    requires IsMirror(stops, starts)
    ensures IsMirror(stops + [Stopped(r)], [Started(r)] + starts)
  {
  }

  lemma StartsMirrorStops(active: set<Resource>, rs: seq<Resource>)
    ensures IsMirror(StopEvents(active, rs, 0), StartEvents(active, rs, |rs|))
  {
    StopsMirrorStartsFrom(active, rs, 0);
    StartsSplit(active, rs, |rs|);
    assert StartEvents(active, rs, |rs|) + [] == StartEvents(active, rs, |rs|);
  }

  /** Every active resource that is mentioned is stopped, and nothing else is. */
  lemma {:induction false} StoppedExactly(active: set<Resource>, rs: seq<Resource>, n: nat, r: Resource)
    requires n <= |rs|
    ensures Stopped(r) in StopEvents(active, rs, n) <==> r in active && r in rs[n..]
    decreases |rs| - n
  {
    if n < |rs| {
      StoppedExactly(active, rs, n + 1, r);
      assert rs[n..] == [rs[n]] + rs[n + 1..];
    }
  }

  /** An active resource that is mentioned is found active by one handler. */
  lemma {:induction false} SomeHandlerFinds(active: set<Resource>, rs: seq<Resource>, n: nat, r: Resource)
    returns (i: nat)
    requires n <= |rs| && r in active && r in rs[n..]
    ensures n <= i < |rs| && rs[i] == r && FindsActive(active, rs, i)
    decreases |rs| - n
  {
    assert rs[n..] == [rs[n]] + rs[n + 1..];
    if r in rs[n + 1..] {
      i := SomeHandlerFinds(active, rs, n + 1, r);
    } else {
      i := n;
    }
  }

  /** None of the handlers from the n-th on finds an active resource that cannot be changed. */
  predicate NoneFails(active: set<Resource>, rs: seq<Resource>, bad: set<Resource>, n: nat) {
    forall k | n <= k < |rs| && FindsActive(active, rs, k) :: rs[k] !in bad
  }

  lemma NoneFailsExactly(active: set<Resource>, rs: seq<Resource>, bad: set<Resource>)
    ensures NoneFails(active, rs, bad, 0) <==> forall r | r in active && r in rs :: r !in bad
  {
    if r :| r in active && r in rs && r in bad {
      assert rs[0..] == rs;
      var i := SomeHandlerFinds(active, rs, 0, r);
    }
  }

  /** The resources that the first n handlers start. */
  function StartedBy(active: set<Resource>, rs: seq<Resource>, n: nat): set<Resource>
    requires n <= |rs|
  {
    if n == 0 then {}
    else if FindsActive(active, rs, n - 1) then StartedBy(active, rs, n - 1) + {rs[n - 1]}
    else StartedBy(active, rs, n - 1)
  }

  lemma {:induction false} StartedExactly(active: set<Resource>, rs: seq<Resource>, n: nat, r: Resource)
    requires n <= |rs|
    ensures r in StartedBy(active, rs, n) <==> exists k :: 0 <= k < n && FindsActive(active, rs, k) && rs[k] == r
  {
    if n > 0 {
      StartedExactly(active, rs, n - 1, r);
    }
  }

  /** All handlers together start every resource that was active and is listed. */
  lemma AllStarted(active: set<Resource>, rs: seq<Resource>, r: Resource)
    ensures r in StartedBy(active, rs, |rs|) <==> r in active && r in rs
  {
    StartedExactly(active, rs, |rs|, r);
    if r in active && r in rs {
      assert rs[0..] == rs;
      var i := SomeHandlerFinds(active, rs, 0, r);
    }
  }

  // ---------- The host and the handlers ----------

  class Host {
    const stopFails: set<Resource>
    const startFails: set<Resource>
    var active: set<Resource>
    var log: seq<Event>

    constructor (active: set<Resource>, stopFails: set<Resource>, startFails: set<Resource>)
      ensures this.active == active && log == []
      ensures this.stopFails == stopFails && this.startFails == startFails
    {
      this.active, log, this.stopFails, this.startFails := active, [], stopFails, startFails;
    }

    /** False stands for the exception of a failed command. */
    method Stop(r: Resource) returns (ok: bool)
      modifies this
      ensures ok <==> r !in stopFails
      ensures active == (if ok then old(active) - {r} else old(active))
      ensures log == if ok then old(log) + [Stopped(r)] else old(log)
    {
      ok := r !in stopFails;
      if ok {
        active, log := active - {r}, log + [Stopped(r)];
      }
    }

    method Start(r: Resource) returns (ok: bool)
      modifies this
      ensures ok <==> r !in startFails
      ensures active == (if ok then old(active) + {r} else old(active))
      ensures log == if ok then old(log) + [Started(r)] else old(log)
    {
      ok := r !in startFails;
      if ok {
        active, log := active + {r}, log + [Started(r)];
      }
    }
  }

  class ServiceHandler {
    const resource: Resource
    var wasActive: bool

    constructor (resource: Resource)
      ensures this.resource == resource && !wasActive
    {
      this.resource, wasActive := resource, false;
    }

    method Stop(host: Host) returns (ok: bool)
      modifies this, host
      ensures wasActive <==> resource in old(host.active)
      ensures ok <==> !(wasActive && resource in host.stopFails)
      ensures host.active == if ok then old(host.active) - {resource} else old(host.active)
      ensures host.log == if ok && wasActive then old(host.log) + [Stopped(resource)] else old(host.log)
    {
      wasActive, ok := resource in host.active, true;
      if wasActive {
        ok := host.Stop(resource);
      }
    }

    method Restart(host: Host) returns (ok: bool)
      modifies host
      ensures ok <==> !(wasActive && resource in host.startFails)
      ensures host.active == old(host.active) + if ok && wasActive then {resource} else {}
      ensures host.log == if ok && wasActive then old(host.log) + [Started(resource)] else old(host.log)
    {
      ok := true;
      if wasActive {
        ok := host.Start(resource);
      }
    }
  }

  class App {
    var locked: bool

    constructor ()
      ensures !locked
    {
      locked := false;
    }
  }

  datatype Component = Component(app: App, services: seq<Resource>)

  ghost predicate AreDistinct(handlers: seq<ServiceHandler>) {
    forall i, j | 0 <= i < j < |handlers| :: handlers[i] != handlers[j]
  }

  ghost function Resources(handlers: seq<ServiceHandler>): (rs: seq<Resource>)
    ensures |rs| == |handlers| && forall i | 0 <= i < |rs| :: rs[i] == handlers[i].resource
  {
    seq(|handlers|, i requires 0 <= i < |handlers| => handlers[i].resource)
  }

  function AllServices(components: seq<Component>): seq<Resource> {
    if components == [] then [] else AllServices(components[..|components| - 1]) + components[|components| - 1].services
  }

  /** Exactly the services that some component lists. */
  lemma {:induction false} ServicesExactly(components: seq<Component>, r: Resource)
    ensures r in AllServices(components) <==> exists c | c in components :: r in c.services
  {
    if components != [] {
      var front, last := components[..|components| - 1], components[|components| - 1];
      ServicesExactly(front, r);
      assert components == front + [last];
    }
  }

  /** In the order of the components, and within each in the order of its list. */
  lemma {:induction false} ServicesConcat(a: seq<Component>, b: seq<Component>, c: Component)
    ensures AllServices(a + b) == AllServices(a) + AllServices(b)
    ensures AllServices([c]) == c.services
    decreases b
  {
    assert [c][..0] == [];
    if b == [] {
      assert a + b == a;
    } else {
      var front, last := b[..|b| - 1], b[|b| - 1];
      ServicesConcat(a, front, c);
      assert (a + b)[..|a + b| - 1] == a + front && (a + b)[|a + b| - 1] == last;
    }
  }

  method CreateHandlers(components: seq<Component>) returns (state: seq<ServiceHandler>)
    ensures fresh(state) && AreDistinct(state) && Resources(state) == AllServices(components)
  {
    state := [];
    for i := 0 to |components|
      invariant fresh(state) && AreDistinct(state) && Resources(state) == AllServices(components[..i])
    {
      assert components[..i + 1][..i] == components[..i];
      var services := components[i].services;
      for k := 0 to |services|
        invariant fresh(state) && AreDistinct(state)
        invariant Resources(state) == AllServices(components[..i]) + services[..k]
      {
        var handler := new ServiceHandler(services[k]);
        state := state + [handler];
      }
    }
    assert components[..|components|] == components;
  }

  /** Which handlers found their resource active. */
  ghost predicate Remembers(handlers: seq<ServiceHandler>, active: set<Resource>, rs: seq<Resource>, n: nat)
    requires n <= |handlers| == |rs|
    reads handlers
  {
    forall i | n <= i < |handlers| :: handlers[i].wasActive <==> FindsActive(active, rs, i)
  }

  /** Where a shutdown got to: the handlers from `done` on are stopped, and the one before them, if
      any, failed. */
  ghost predicate ShutDown(host: Host, was: set<Resource>, rs: seq<Resource>, ok: bool, done: nat)
    reads host
  {
    && done <= |rs| && NoneFails(was, rs, host.stopFails, done)
    && (ok <==> done == 0)
    && (!ok ==> FindsActive(was, rs, done - 1) && rs[done - 1] in host.stopFails)
    && forall r :: r in host.active <==> r in was && r !in rs[done..]
  }

  method ShutdownServices(host: Host, components: seq<Component>)
    returns (state: seq<ServiceHandler>, ok: bool, ghost done: nat)
    modifies host
    ensures fresh(state) && AreDistinct(state) && Resources(state) == AllServices(components)
    ensures ShutDown(host, old(host.active), Resources(state), ok, done)
    ensures Remembers(state, old(host.active), Resources(state), done)
    ensures host.log == old(host.log) + StopEvents(old(host.active), AllServices(components), done)
  {
    state := CreateHandlers(components);
    ok, done := StopHandlers(host, state, AllServices(components));
  }

  /** The loop over the handlers in reverse; the first failure ends it. */
  method StopHandlers(host: Host, state: seq<ServiceHandler>, ghost rs: seq<Resource>)
    returns (ok: bool, ghost done: nat)
    requires AreDistinct(state) && rs == Resources(state)
    modifies host, state
    ensures ShutDown(host, old(host.active), rs, ok, done)
    ensures Remembers(state, old(host.active), rs, done)
    ensures host.log == old(host.log) + StopEvents(old(host.active), rs, done)
  {
    ghost var active, log := host.active, host.log;
    ghost var stops: seq<Event> := [];
    var i := |state|;
    while i > 0
      invariant 0 <= i <= |state|
      invariant forall r :: r in host.active <==> r in active && r !in rs[i..]
      invariant Remembers(state, active, rs, i) && NoneFails(active, rs, host.stopFails, i)
      invariant host.log == log + stops && stops == StopEvents(active, rs, i)
    {
      done := i;
      i := i - 1;
      assert rs[i..] == [rs[i]] + rs[i + 1..];
      ok := state[i].Stop(host);
      if !ok {
        return;
      }
      stops := if FindsActive(active, rs, i) then stops + [Stopped(rs[i])] else stops;
    }
    ok, done := true, 0;
  }

  /** Restart in order what was active; the first failure ends it, with `done` handlers restarted. */
  method RestoreServices(host: Host, state: seq<ServiceHandler>, ghost active: set<Resource>, ghost rs: seq<Resource>)
    returns (ok: bool, ghost done: nat)
    requires rs == Resources(state) && Remembers(state, active, rs, 0)
    modifies host
    ensures done <= |rs| && (ok <==> NoneFails(active, rs, host.startFails, 0)) && (ok ==> done == |rs|)
    ensures !ok ==> done < |rs| && FindsActive(active, rs, done) && rs[done] in host.startFails
    ensures host.active == old(host.active) + StartedBy(active, rs, done)
    ensures host.log == old(host.log) + StartEvents(active, rs, done)
  {
    ghost var starts: seq<Event> := [];
    for i := 0 to |state|
      invariant host.active == old(host.active) + StartedBy(active, rs, i)
      invariant forall k | 0 <= k < i && FindsActive(active, rs, k) :: rs[k] !in host.startFails
      invariant host.log == old(host.log) + starts && starts == StartEvents(active, rs, i)
    {
      done := i;
      ok := state[i].Restart(host);
      if !ok {
        return;
      }
      starts := if FindsActive(active, rs, i) then starts + [Started(rs[i])] else starts;
    }
    ok, done := true, |state|;
  }

  method LockdownApps(components: seq<Component>, lockdown: bool)
    modifies set c | c in components :: c.app
    ensures forall c | c in components :: c.app.locked == lockdown
  {
    for i := 0 to |components|
      invariant forall k | 0 <= k < i :: components[k].app.locked == lockdown
    {
      components[i].app.locked := lockdown;
    }
  }

  /** What the hooks and the handler of one operation do; hook errors are only recorded. */
  datatype Behaviour = Behaviour(preFails: seq<bool>, handlerRaises: bool, postFails: seq<bool>)

  /** The component whose hook failed, and whether it was the one after the handler. */
  datatype HookError = HookError(component: nat, post: bool)

  function Failures(fails: seq<bool>, post: bool): seq<HookError> {
    if fails == [] then []
    else
      var n := |fails| - 1;
      if fails[n] then Failures(fails[..n], post) + [HookError(n, post)] else Failures(fails[..n], post)
  }

  lemma {:induction false} FailuresExactly(fails: seq<bool>, post: bool, e: HookError)
    ensures e in Failures(fails, post) <==> e.post == post && e.component < |fails| && fails[e.component]
  {
    if fails != [] {
      FailuresExactly(fails[..|fails| - 1], post, e);
    }
  }

  /** The errors of the first n components, in their order. */
  ghost predicate InOrder(errors: seq<HookError>, n: nat) {
    && (forall i | 0 <= i < |errors| :: errors[i].component < n)
    && (forall i, j | 0 <= i < j < |errors| :: errors[i].component < errors[j].component)
  }

  lemma OneMoreInOrder(errors: seq<HookError>, n: nat, post: bool)
    requires InOrder(errors, n)
    ensures InOrder(errors, n + 1) && InOrder(errors + [HookError(n, post)], n + 1)
  {
  }

  lemma {:induction false} FailuresInOrder(fails: seq<bool>, post: bool)
    ensures InOrder(Failures(fails, post), |fails|)
  {
    if fails != [] {
      var n := |fails| - 1;
      FailuresInOrder(fails[..n], post);
      OneMoreInOrder(Failures(fails[..n], post), n, post);
    }
  }

  /** Run one kind of hook on every component; a failure is recorded and the others still run. */
  method RunHooks(fails: seq<bool>, post: bool) returns (errors: seq<HookError>)
    ensures errors == Failures(fails, post)
  {
    errors := [];
    for i := 0 to |fails|
      invariant errors == Failures(fails[..i], post)
    {
      assert fails[..i + 1][..i] == fails[..i];
      if fails[i] {
        errors := errors + [HookError(i, post)];
      }
    }
    assert fails[..|fails|] == fails;
  }

  method RunOperation(b: Behaviour) returns (errors: seq<HookError>, raised: bool)
    ensures raised == b.handlerRaises
    ensures errors == Failures(b.preFails, false) + if raised then [] else Failures(b.postFails, true)
  {
    errors := RunHooks(b.preFails, false);
    if b.handlerRaises {
      return errors, true;
    }
    var more := RunHooks(b.postFails, true);
    return errors + more, false;
  }

  datatype Ending = Finished | HandlerRaised | StopFailed | StartFailed

  /** Whether some resource that is to be stopped and started again is among these. */
  ghost predicate Hits(active: set<Resource>, components: seq<Component>, bad: set<Resource>) {
    exists r :: r in active && r in AllServices(components) && r in bad
  }

  lemma HitsExactly(active: set<Resource>, components: seq<Component>, bad: set<Resource>)
    ensures NoneFails(active, AllServices(components), bad, 0) <==> !Hits(active, components, bad)
  {
    NoneFailsExactly(active, AllServices(components), bad);
  }

  /** The starts are the stops in reverse, and the stops are those of the active listed resources. */
  ghost predicate IsRoundTrip(stops: seq<Event>, starts: seq<Event>, active: set<Resource>,
                              components: seq<Component>)
  {
    && IsMirror(stops, starts)
    && forall r :: Stopped(r) in stops <==> r in active && r in AllServices(components)
  }

  ghost predicate LogsRoundTrip(before: seq<Event>, after: seq<Event>, active: set<Resource>,
                                components: seq<Component>)
  {
    exists stops, starts :: after == before + stops + starts && IsRoundTrip(stops, starts, active, components)
  }

  lemma RoundTrip(active: set<Resource>, components: seq<Component>, log: seq<Event>)
    ensures var rs := AllServices(components);
            LogsRoundTrip(log, log + StopEvents(active, rs, 0) + StartEvents(active, rs, |rs|), active, components)
  {
    var rs := AllServices(components);
    StartsMirrorStops(active, rs);
    assert rs[0..] == rs;
    forall r ensures Stopped(r) in StopEvents(active, rs, 0) <==> r in active && r in rs {
      StoppedExactly(active, rs, 0, r);
    }
    assert IsRoundTrip(StopEvents(active, rs, 0), StartEvents(active, rs, |rs|), active, components);
  }

  lemma BackAgain(active: set<Resource>, between: set<Resource>, rs: seq<Resource>)
    requires forall r :: r in between <==> r in active && r !in rs
    ensures between + StartedBy(active, rs, |rs|) == active
  {
    forall r ensures r in between + StartedBy(active, rs, |rs|) <==> r in active {
      AllStarted(active, rs, r);
    }
  }

  /** `backup_apps` and the part of `restore_apps` after installing apps.  If no active resource that
      is listed fails to stop or to start, all resources are back in their earlier state whether or
      not the handler raises, the starts are the stops in reverse, and all apps are unlocked.  If
      one does, its exception leaves all apps locked: a failing stop is raised before anything is
      guarded, and a failing start before the apps are unlocked. */
  method WithServicesStopped(host: Host, components: seq<Component>, b: Behaviour) returns (ending: Ending)
    modifies host, set c | c in components :: c.app
    ensures ending == StopFailed <==> Hits(old(host.active), components, host.stopFails)
    ensures ending == StartFailed <==> ending != StopFailed && Hits(old(host.active), components, host.startFails)
    ensures ending == HandlerRaised ==> b.handlerRaises
    ensures ending == Finished ==> !b.handlerRaises
    ensures forall c | c in components :: c.app.locked <==> ending == StopFailed || ending == StartFailed
    ensures ending == Finished || ending == HandlerRaised ==>
              host.active == old(host.active) && LogsRoundTrip(old(host.log), host.log, old(host.active), components)
    ensures ending == StopFailed || ending == StartFailed ==> host.active <= old(host.active)
  {
    ghost var active, rs := host.active, AllServices(components);
    HitsExactly(active, components, host.stopFails);
    HitsExactly(active, components, host.startFails);
    LockdownApps(components, true);
    var state, stopped, _ := ShutdownServices(host, components);
    if !stopped {
      return StopFailed;
    }
    assert rs[0..] == rs;
    ghost var between := host.active;
    var errors, raised := RunOperation(b);
    var started, done := RestoreServices(host, state, active, rs);
    if !started {
      StartedWasActive(active, rs, done);
      return StartFailed;
    }
    BackAgain(active, between, rs);
    RoundTrip(active, components, old(host.log));
    LockdownApps(components, false);
    ending := if raised then HandlerRaised else Finished;
  }

  lemma {:induction false} StartedWasActive(active: set<Resource>, rs: seq<Resource>, n: nat)
    requires n <= |rs|
    ensures StartedBy(active, rs, n) <= active
  {
    if n > 0 {
      StartedWasActive(active, rs, n - 1);
    }
  }
}
