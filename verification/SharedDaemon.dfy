/** Systemd units shared by several apps (plinth/daemon.py, plinth/app.py): a shared unit must stay
    enabled as long as an enabled app uses it. */
module SharedDaemon {

  /** A leader component has a state of its own; a shared daemon stands for a unit. */
  datatype Component = Leader(name: string) | Shared(unit: string)

  datatype App = App(id: string, components: seq<Component>)

  /** What can be enabled: a leader component of one app, or a unit. */
  datatype Key = Own(appId: string, name: string) | Unit(unit: string)

  function KeyOf(app: App, c: Component): Key {
    match c
    case Leader(name) => Own(app.id, name)
    case Shared(unit) => Unit(unit)
  }

  /** All leader components are enabled. */
  predicate IsEnabled(on: set<Key>, app: App) {
    forall i | 0 <= i < |app.components| && app.components[i].Leader? :: KeyOf(app, app.components[i]) in on
  }

  predicate Uses(app: App, unit: string) {
    Shared(unit) in app.components
  }

  predicate HasLeader(app: App) {
    exists i :: 0 <= i < |app.components| && app.components[i].Leader?
  }

  ghost predicate DistinctIds(apps: seq<App>) {
    forall a, b | a in apps && b in apps && a.id == b.id :: a == b
  }

  predicate OtherUses(apps: seq<App>, on: set<Key>, app: App, unit: string) {
    exists i | 0 <= i < |apps| :: apps[i].id != app.id && Uses(apps[i], unit) && IsEnabled(on, apps[i])
  }

  function AfterEnable(on: set<Key>, app: App): set<Key> {
    on + set c | c in app.components :: KeyOf(app, c)
  }

  predicate Drops(apps: seq<App>, on: set<Key>, app: App, c: Component) {
    c.Leader? || !OtherUses(apps, on, app, c.unit)
  }

  function AfterDisable(apps: seq<App>, on: set<Key>, app: App): set<Key> {
    on - set c | c in app.components && Drops(apps, on, app, c) :: KeyOf(app, c)
  }

  // ---------- The methods ----------

  class System {
    const apps: seq<App>
    var on: set<Key>

    constructor (apps: seq<App>)
      ensures this.apps == apps && on == {}
    {
      this.apps, on := apps, {};
    }

    method Enable(app: App)
      modifies this
      ensures on == AfterEnable(old(on), app)
    {
      for i := 0 to |app.components|
        invariant on == old(on) + set c | c in app.components[..i] :: KeyOf(app, c)
      {
        assert app.components[..i + 1] == app.components[..i] + [app.components[i]];
        on := on + {KeyOf(app, app.components[i])};
      }
      assert app.components[..|app.components|] == app.components;
    }

    /** Disable the unit unless another enabled app uses it. */
    method DisableShared(app: App, unit: string)
      modifies this
      ensures on == if OtherUses(apps, old(on), app, unit) then old(on) else old(on) - {Unit(unit)}
    {
      var otherAppsEnabled := false;
      for i := 0 to |apps|
        invariant otherAppsEnabled <==>
                    exists k | 0 <= k < i :: apps[k].id != app.id && Uses(apps[k], unit) && IsEnabled(on, apps[k])
      {
        if apps[i].id == app.id {
          continue;
        }
        for j := 0 to |apps[i].components|
          invariant otherAppsEnabled <==>
                      (exists k | 0 <= k < i :: apps[k].id != app.id && Uses(apps[k], unit) && IsEnabled(on, apps[k]))
                      || (Shared(unit) in apps[i].components[..j] && IsEnabled(on, apps[i]))
        {
          if apps[i].components[j] == Shared(unit) && IsEnabled(on, apps[i]) {
            otherAppsEnabled := true;
          }
        }
        assert apps[i].components[..|apps[i].components|] == apps[i].components;
      }
      if !otherAppsEnabled {
        on := on - {Unit(unit)};
      }
    }

    method Disable(app: App)
      modifies this
      ensures on == AfterDisable(apps, old(on), app)
    {
      var i := |app.components|;
      while i > 0
        invariant 0 <= i <= |app.components|
        invariant on == old(on) - set c | c in app.components[i..] && Drops(apps, old(on), app, c) :: KeyOf(app, c)
      {
        i := i - 1;
        var c := app.components[i];
        assert app.components[i..] == [c] + app.components[i + 1..];
        if c.Leader? {
          on := on - {KeyOf(app, c)};
        } else {
          SameForOthers(apps, old(on), on, app, c.unit);
          DisableShared(app, c.unit);
        }
      }
      assert app.components[0..] == app.components;
    }
  }

  /** Whether others use a unit does not depend on the app's own leaders or on units. */
  lemma SameForOthers(apps: seq<App>, on: set<Key>, on': set<Key>, app: App, unit: string)
    requires forall k: Key | k.Own? && k.appId != app.id :: k in on <==> k in on'
    ensures OtherUses(apps, on, app, unit) == OtherUses(apps, on', app, unit)
  {
    forall i | 0 <= i < |apps| && apps[i].id != app.id ensures IsEnabled(on, apps[i]) == IsEnabled(on', apps[i]) {
      SameLeaders(on, on', apps[i]);
    }
  }

  lemma SameLeaders(on: set<Key>, on': set<Key>, app: App)
    requires forall k: Key | k.Own? && k.appId == app.id :: k in on <==> k in on'
    ensures IsEnabled(on, app) == IsEnabled(on', app)
  {
  }

  // ---------- Units follow the apps ----------

  ghost predicate UnitsFollowApps(apps: seq<App>, on: set<Key>) {
    forall unit :: (exists a :: a in apps && Uses(a, unit)) ==>
      (Unit(unit) in on <==> exists a :: a in apps && Uses(a, unit) && IsEnabled(on, a))
  }

  /** Every app that uses a shared unit has a leader component of its own. */
  ghost predicate UsersHaveLeaders(apps: seq<App>) {
    forall a, unit | a in apps && Uses(a, unit) :: HasLeader(a)
  }

  lemma EnableKeeps(apps: seq<App>, on: set<Key>, app: App)
    requires DistinctIds(apps) && app in apps && UnitsFollowApps(apps, on)
    ensures UnitsFollowApps(apps, AfterEnable(on, app))
    ensures forall a | a in apps :: IsEnabled(AfterEnable(on, app), a) <==> a == app || IsEnabled(on, a)
  {
    var on' := AfterEnable(on, app);
    forall a | a in apps ensures IsEnabled(on', a) <==> a == app || IsEnabled(on, a) {
      if a != app {
        SameLeaders(on, on', a);
      }
    }
  }

  lemma DisableKeeps(apps: seq<App>, on: set<Key>, app: App)
    requires DistinctIds(apps) && app in apps && UsersHaveLeaders(apps) && UnitsFollowApps(apps, on)
    ensures UnitsFollowApps(apps, AfterDisable(apps, on, app))
    ensures forall a | a in apps && HasLeader(a) ::
              IsEnabled(AfterDisable(apps, on, app), a) <==> a != app && IsEnabled(on, a)
  {
    var on' := AfterDisable(apps, on, app);
    forall a | a in apps && HasLeader(a) ensures IsEnabled(on', a) <==> a != app && IsEnabled(on, a) {
      if a != app {
        SameLeaders(on, on', a);
      } else {
        var i :| 0 <= i < |app.components| && app.components[i].Leader?;
        assert KeyOf(app, app.components[i]) !in on';
      }
    }
    forall unit | exists a :: a in apps && Uses(a, unit)
      ensures Unit(unit) in on' <==> exists a :: a in apps && Uses(a, unit) && IsEnabled(on', a)
    {
      if Uses(app, unit) {
        assert Unit(unit) in on' <==> Unit(unit) in on && OtherUses(apps, on, app, unit);
      } else {
        assert Unit(unit) in on' <==> Unit(unit) in on;
      }
    }
  }

  datatype Call = Enable(app: App) | Disable(app: App)

  function After(apps: seq<App>, on: set<Key>, calls: seq<Call>): set<Key> {
    if calls == [] then on
    else
      var before := After(apps, on, calls[..|calls| - 1]);
      match calls[|calls| - 1]
      case Enable(app) => AfterEnable(before, app)
      case Disable(app) => AfterDisable(apps, before, app)
  }

  /** The last call for an app decides whether it is enabled. */
  function LastCallEnables(calls: seq<Call>, app: App): bool {
    if calls == [] then false
    else if calls[|calls| - 1].app == app then calls[|calls| - 1].Enable?
    else LastCallEnables(calls[..|calls| - 1], app)
  }

  ghost predicate CallsOf(apps: seq<App>, calls: seq<Call>) {
    forall i | 0 <= i < |calls| :: calls[i].app in apps
  }

  lemma {:induction false} UnitsFollowInRun(apps: seq<App>, calls: seq<Call>)
    requires DistinctIds(apps) && UsersHaveLeaders(apps) && CallsOf(apps, calls)
    ensures UnitsFollowApps(apps, After(apps, {}, calls))
    ensures forall a | a in apps && HasLeader(a) :: IsEnabled(After(apps, {}, calls), a) <==> LastCallEnables(calls, a)
  {
    if calls == [] {
      forall a | a in apps && HasLeader(a) ensures !IsEnabled({}, a) {
        OffWithLeader(a);
      }
    } else {
      var front, last := calls[..|calls| - 1], calls[|calls| - 1];
      UnitsFollowInRun(apps, front);
      match last
      case Enable(app) => EnableKeeps(apps, After(apps, {}, front), app);
      case Disable(app) => DisableKeeps(apps, After(apps, {}, front), app);
    }
  }

  lemma FollowedUnit(apps: seq<App>, on: set<Key>, app: App, unit: string)
    requires UnitsFollowApps(apps, on)
    requires app in apps && Uses(app, unit) && IsEnabled(on, app)
    ensures Unit(unit) in on
  {
  }

  lemma OffWithLeader(app: App)
    ensures IsEnabled({}, app) <==> !HasLeader(app)
  {
    if HasLeader(app) {
      var i :| 0 <= i < |app.components| && app.components[i].Leader?;
      assert KeyOf(app, app.components[i]) !in {};
    }
  }

  /** Starting from everything off, after any sequence of completed calls a shared unit is enabled
      exactly when some enabled app uses it, if and only if every app that uses a shared unit has a
      leader component: an app without one always counts as enabled. */
  lemma SharedUnitsFollowExactly(apps: seq<App>)
    requires DistinctIds(apps)
    ensures UsersHaveLeaders(apps) <==>
            forall calls | CallsOf(apps, calls) :: UnitsFollowApps(apps, After(apps, {}, calls))
  {
    if UsersHaveLeaders(apps) {
      forall calls | CallsOf(apps, calls) ensures UnitsFollowApps(apps, After(apps, {}, calls)) {
        UnitsFollowInRun(apps, calls);
      }
    } else {
      var a, unit :| a in apps && Uses(a, unit) && !HasLeader(a);
      OffWithLeader(a);
      var none: seq<Call> := [];
      assert CallsOf(apps, none);
      var off := After(apps, {}, none);
      assert off == {} && Unit(unit) !in off && IsEnabled(off, a);
      if UnitsFollowApps(apps, off) {
        FollowedUnit(apps, off, a, unit);
      }
    }
  }

  /** A unit that an app without leader components shares is not switched off by another app. */
  lemma LeaderlessKeepsUnit(apps: seq<App>, on: set<Key>, app: App, other: App, unit: string)
    requires other in apps && other.id != app.id && !HasLeader(other) && Uses(other, unit)
    ensures Unit(unit) in AfterDisable(apps, on, app) <==> Unit(unit) in on
  {
    var i :| 0 <= i < |apps| && apps[i] == other;
    assert IsEnabled(on, apps[i]);
    assert OtherUses(apps, on, app, unit);
  }

  /** Once on, it stays on over any calls for other apps. */
  lemma {:induction false} LeaderlessUnitStaysOn(apps: seq<App>, on: set<Key>, calls: seq<Call>, other: App,
                                                 unit: string)
    requires other in apps && !HasLeader(other) && Uses(other, unit) && Unit(unit) in on
    requires forall i | 0 <= i < |calls| :: calls[i].app.id != other.id
    ensures Unit(unit) in After(apps, on, calls)
  {
    if calls != [] {
      var front, last := calls[..|calls| - 1], calls[|calls| - 1];
      LeaderlessUnitStaysOn(apps, on, front, other, unit);
      if last.Disable? {
        LeaderlessKeepsUnit(apps, After(apps, on, front), last.app, other, unit);
      }
    }
  }

  lemma AfterEnabling(apps: seq<App>, on: set<Key>, calls: seq<Call>, app: App)
    ensures After(apps, on, calls + [Enable(app)]) == AfterEnable(After(apps, on, calls), app)
  {
    assert (calls + [Enable(app)])[..|calls|] == calls;
  }

  lemma AfterDisabling(apps: seq<App>, on: set<Key>, calls: seq<Call>, app: App)
    ensures After(apps, on, calls + [Disable(app)]) == AfterDisable(apps, After(apps, on, calls), app)
  {
    assert (calls + [Disable(app)])[..|calls|] == calls;
  }

  /** So an app that is enabled and disabled again leaves the unit on, although no call was ever made
      for the other app. */
  lemma LeaderlessExample() returns (apps: seq<App>, calls: seq<Call>)
    ensures DistinctIds(apps) && CallsOf(apps, calls) && |apps| == 2
    ensures HasLeader(apps[0]) && forall i | 0 <= i < |calls| :: calls[i].app == apps[0]
    ensures !IsEnabled(After(apps, {}, calls), apps[0]) && Unit("database") in After(apps, {}, calls)
  {
    var app, other := App("a", [Leader("state"), Shared("database")]), App("b", [Shared("database")]);
    var none: seq<Call> := [];
    var enabled := none + [Enable(app)];
    apps, calls := [app, other], enabled + [Disable(app)];
    AfterEnabling(apps, {}, none, app);
    AfterDisabling(apps, {}, enabled, app);
    assert app.components[0].Leader?;
    assert app.components[1] == Shared("database") && other.components[0] == Shared("database");
    var on := After(apps, {}, enabled);
    assert KeyOf(app, app.components[1]) in on;
    LeaderlessKeepsUnit(apps, on, app, other, "database");
    assert KeyOf(app, app.components[0]) !in AfterDisable(apps, on, app);
  }
}
