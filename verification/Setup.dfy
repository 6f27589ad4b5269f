/** Setup runs and the dpkg handler as methods over the stored state (plinth/setup.py), proved to
    do what SetupRerun says. */
module Setup {
  import opened Wrappers
  import opened Packages
  import opened SetupRerun

  class Service {
    var cache: Cache
    var versions: map<string, nat>
    const store: KnownStore

    constructor (cache: Cache, store: KnownStore)
      ensures this.cache == cache && this.store == store && versions == map[]
    {
      this.cache, this.store, this.versions := cache, store, map[];
    }

    ghost function State(): System
      reads this, store
    {
      System(cache, store.known, versions)
    }

    method FindConflicts(names: seq<string>) returns (found: seq<string>)
      ensures found == InstalledOnes(cache, names)
    {
      found := [];
      for i := 0 to |names|
        invariant found == InstalledOnes(cache, names[..i])
      {
        assert names[..i + 1][..i] == names[..i];
        if names[i] in cache && cache[names[i]].installed.Some? {
          found := found + [names[i]];
        }
      }
      assert names[..|names|] == names;
    }

    /** False stands for an exception. */
    method Install(packages: seq<string>, allowInstall: bool, effect: Option<Cache>) returns (ok: bool)
      modifies this, store
      ensures unchanged(this`versions)
      ensures !allowInstall ==> State() == old(State())
      ensures !allowInstall ==> (ok <==> forall p | p in packages :: InstalledVersion(cache, p).Some?)
      ensures allowInstall ==> ok == effect.Some?
      ensures allowInstall && !ok ==> State() == old(State())
      ensures allowInstall && ok ==> cache == effect.value && store.known == Marked(old(store.known), cache, packages)
    {
      if !allowInstall {
        for i := 0 to |packages|
          invariant forall k | 0 <= k < i :: InstalledVersion(cache, packages[k]).Some?
        {
          if InstalledVersion(cache, packages[i]).None? {
            return false;
          }
        }
        return true;
      }
      if effect.None? {
        return false;
      }
      cache := effect.value;
      store.MarkKnown(cache, packages);
      ok := true;
    }

    method SetupComponent(c: Component, allowInstall: bool, e: Effects) returns (ok: bool)
      modifies this, store
      ensures unchanged(this`versions)
      ensures var removed := AfterRemoval(old(State()), c, e);
              if removed.None? then !ok && State() == old(State())
              else var installed := AfterInstall(removed.value, c, allowInstall, e);
                   ok == installed.Some? && State() == if ok then installed.value else removed.value
    {
      var conflicts := FindConflicts(c.conflicts);
      if conflicts != [] && c.removeConflicts {
        if e.removal.None? {
          return false;
        }
        cache := e.removal.value;
        store.UnmarkKnown(conflicts);
      }
      var packages := ActualOf(c.expressions, cache);
      if packages.None? {
        return false;
      }
      ok := Install(packages.value, allowInstall, e.install);
    }

    method RunSetupOnApp(app: App, allowInstall: bool, effects: seq<Effects>) returns (ok: bool)
      requires |app.components| == |effects|
      modifies this, store
      ensures (State(), ok) == AfterSetup(old(State()), app, allowInstall, effects)
    {
      ghost var s := State();
      ok := true;
      for i := 0 to |app.components|
        invariant ok && (State(), true) == AfterComponents(s, app, i, allowInstall, effects)
      {
        ok := SetupComponent(app.components[i], allowInstall, effects[i]);
        if !ok {
          FailureIsFinal(s, app, i + 1, |effects|, allowInstall, effects);
          return;
        }
      }
      versions := versions[app.id := app.version];
    }

    /** Uninstall the components from the last to the first, sparing what other apps need. */
    method RunUninstallOnApp(apps: seq<App>, app: App, effects: seq<Option<Cache>>) returns (purged: seq<string>)
      requires |app.components| == |effects|
      modifies this, store
      ensures State() == AfterUninstall(apps, old(State()), app, |effects|, effects)
      ensures purged == PurgedBy(apps, old(State()), app, |effects|, effects)
    {
      ghost var s := State();
      purged := [];
      var i := |app.components|;
      while i > 0
        invariant 0 <= i <= |effects|
        invariant AfterUninstall(apps, State(), app, i, effects) == AfterUninstall(apps, s, app, |effects|, effects)
        invariant purged + PurgedBy(apps, State(), app, i, effects) == PurgedBy(apps, s, app, |effects|, effects)
      {
        i := i - 1;
        var roots := KeepRoots(apps, System(cache, store.known, versions), app.id);
        var packages := FilterPackagesToKeep(PossibleOf(app.components[i].expressions), cache, roots);
        ghost var before := purged;
        purged := purged + packages;
        if effects[i].None? {
          return;
        }
        cache := effects[i].value;
        store.UnmarkKnown(packages);
        Regroup(before, packages, PurgedBy(apps, State(), app, i, effects));
      }
      versions := versions[app.id := 0];
    }

    /** Scan the packages for one that differs from its known version. */
    method AppNeedsSetupRerun(packages: seq<string>) returns (r: bool)
      ensures r == NeedsRerun(store.known, cache, packages)
    {
      for i := 0 to |packages|
        invariant NeedsRerun(store.known, cache, packages) == NeedsRerun(store.known, cache, packages[i..])
      {
        assert packages[i..][1..] == packages[i + 1..];
        var p := packages[i];
        if p !in cache {
          return false;
        }
        if cache[p].installed.None? {
          return false;
        }
        if p !in store.known || cache[p].installed.value.version != store.known[p] {
          return true;
        }
      }
      return false;
    }

    method PostInvokeOnApp(app: App, effects: seq<Effects>)
      requires |app.components| == |effects|
      modifies this, store
      ensures State() ==
              if Reruns(old(State()), app) then AfterSetup(old(State()), app, true, effects).0 else old(State())
    {
      if !(exists i | 0 <= i < |app.components| :: app.components[i].rerunOnUpgrade) {
        return;
      }
      if SetupVersion(System(cache, store.known, versions), app.id) == 0 {
        return;
      }
      var packages := AllActual(app.components, cache);
      if packages.None? {
        return;
      }
      var needed := AppNeedsSetupRerun(packages.value);
      if !needed {
        return;
      }
      var _ := RunSetupOnApp(app, true, effects);
    }
  }

  lemma {:induction false} FailureIsFinal(s: System, app: App, i: nat, n: nat, allowInstall: bool,
                                          effects: seq<Effects>)
    requires i <= n <= |app.components| == |effects|
    requires !AfterComponents(s, app, i, allowInstall, effects).1
    ensures AfterComponents(s, app, n, allowInstall, effects) == AfterComponents(s, app, i, allowInstall, effects)
    decreases n
  {
    if i < n {
      FailureIsFinal(s, app, i, n - 1, allowInstall, effects);
    }
  }
}
