/** What setup, uninstallation and dpkg notifications promise about packages and versions, in terms of
    dependency paths and of what each app lists (plinth/setup.py, plinth/package.py). */
module SetupLaws {
  import opened Wrappers
  import opened Packages
  import opened SetupRerun

  // ---------- What an app lists ----------

  predicate Mentions(e: Expression, p: string) {
    match e
    case Package(name) => name == p
    case Or(first, second) => Mentions(first, p) || Mentions(second, p)
  }

  lemma {:induction false} PossibleAreMentioned(e: Expression, p: string)
    ensures p in Possible(e) <==> Mentions(e, p)
  {
    if e.Or? {
      PossibleAreMentioned(e.first, p);
      PossibleAreMentioned(e.second, p);
    }
  }

  /** The first alternative is preferred: one of its packages is taken if any can be installed. */
  lemma FirstAlternativeWins(e: Expression, cache: Cache, p: string)
    requires e.Or? && Mentions(e.first, p) && Installable(cache, p)
    ensures Actual(e, cache).Some? && Mentions(e.first, Actual(e, cache).value)
  {
    PossibleAreMentioned(e.first, p);
    ActualIsFirstInstallable(e.first, cache);
    var k :| 0 <= k < |Possible(e.first)| && Possible(e.first)[k] == p;
    var q := Actual(e.first, cache).value;
    var i :| IsFirstInstallable(Possible(e.first), cache, q, i);
    PossibleAreMentioned(e.first, q);
  }

  /** The component lists the package, in whatever alternative. */
  predicate Lists(c: Component, p: string) {
    exists i | 0 <= i < |c.expressions| :: Mentions(c.expressions[i], p)
  }

  lemma {:induction false} ListedArePossible(expressions: seq<Expression>, p: string)
    ensures p in PossibleOf(expressions) <==> exists i | 0 <= i < |expressions| :: Mentions(expressions[i], p)
  {
    if expressions != [] {
      var rest := expressions[1..];
      ListedArePossible(rest, p);
      PossibleAreMentioned(expressions[0], p);
      if i :| 0 <= i < |rest| && Mentions(rest[i], p) {
        assert Mentions(expressions[i + 1], p);
      }
      if i :| 0 <= i < |expressions| && Mentions(expressions[i], p) {
        assert i > 0 ==> Mentions(rest[i - 1], p);
      }
    }
  }

  // ---------- Dependency paths ----------

  /** An installed package lists the other one in some group of its dependencies. */
  predicate DependsOn(cache: Cache, p: string, d: string) {
    && p in cache && cache[p].installed.Some?
    && exists i | 0 <= i < |cache[p].installed.value.dependencies| :: d in cache[p].installed.value.dependencies[i]
  }

  predicate IsPath(cache: Cache, path: seq<string>) {
    path != [] && forall i | 0 <= i < |path| - 1 :: DependsOn(cache, path[i], path[i + 1])
  }

  function Last(path: seq<string>): string
    requires path != []
  {
    path[|path| - 1]
  }

  /** Where paths of packages to keep begin: FreedomBox itself and what other set-up apps list. */
  predicate IsStart(apps: seq<App>, s: System, id: string, p: string) {
    || p == "freedombox"
    || exists a | a in apps :: a.id != id && SetupVersion(s, a.id) != 0 && exists c | c in a.components :: Lists(c, p)
  }

  lemma StartsAreRoots(apps: seq<App>, s: System, id: string, p: string)
    ensures IsStart(apps, s, id, p) <==> p in KeepRoots(apps, s, id)
  {
    forall a, c | a in apps && c in a.components ensures Lists(c, p) <==> p in PossibleOf(c.expressions) {
      ListedArePossible(c.expressions, p);
    }
  }

  lemma DependenciesAreWanted(cache: Cache, p: string, d: string)
    ensures DependsOn(cache, p, d) <==> d in Wanted(cache, p)
  {
  }

  lemma {:induction false} PathIsNeeded(cache: Cache, roots: set<string>, path: seq<string>)
    requires IsPath(cache, path) && path[0] in roots
    ensures Needed(cache, roots, Last(path))
    decreases |path|
  {
    var front := path[..|path| - 1];
    if front == [] {
      assert NeededWithin(cache, roots, 0, path[0]);
    } else {
      forall i | 0 <= i < |front| - 1 ensures DependsOn(cache, front[i], front[i + 1]) {
        assert DependsOn(cache, path[i], path[i + 1]);
      }
      PathIsNeeded(cache, roots, front);
      assert DependsOn(cache, path[|path| - 2], path[|path| - 2 + 1]);
      DependenciesAreWanted(cache, Last(front), Last(path));
      WantedByNeeded(cache, roots, Last(front), Last(path));
    }
  }

  lemma {:induction false} NeededHasPath(cache: Cache, roots: set<string>, n: nat, p: string)
    returns (path: seq<string>)
    requires NeededWithin(cache, roots, n, p)
    ensures IsPath(cache, path) && path[0] in roots && Last(path) == p
  {
    if p in roots {
      path := [p];
    } else {
      var q :| NeededWithin(cache, roots, n - 1, q) && p in Wanted(cache, q);
      DependenciesAreWanted(cache, q, p);
      path := NeededHasPath(cache, roots, n - 1, q);
      PathGrows(cache, path, p);
      path := path + [p];
    }
  }

  lemma PathGrows(cache: Cache, path: seq<string>, p: string)
    requires IsPath(cache, path) && DependsOn(cache, Last(path), p)
    ensures IsPath(cache, path + [p])
  {
    var more := path + [p];
    forall i | 0 <= i < |more| - 1 ensures DependsOn(cache, more[i], more[i + 1]) {
      if i < |path| - 1 {
        assert more[i] == path[i] && more[i + 1] == path[i + 1];
      }
    }
  }

  /** The package ends a path that begins with FreedomBox or another set-up app. */
  ghost predicate IsKept(apps: seq<App>, s: System, id: string, p: string) {
    exists path :: IsPath(s.cache, path) && IsStart(apps, s, id, path[0]) && Last(path) == p
  }

  lemma KeptIsNeeded(apps: seq<App>, s: System, id: string, p: string)
    ensures IsKept(apps, s, id, p) <==> Needed(s.cache, KeepRoots(apps, s, id), p)
  {
    var roots := KeepRoots(apps, s, id);
    if path :| IsPath(s.cache, path) && IsStart(apps, s, id, path[0]) && Last(path) == p {
      StartsAreRoots(apps, s, id, path[0]);
      PathIsNeeded(s.cache, roots, path);
    }
    if Needed(s.cache, roots, p) {
      var n: nat :| NeededWithin(s.cache, roots, n, p);
      var path := NeededHasPath(s.cache, roots, n, p);
      StartsAreRoots(apps, s, id, path[0]);
    }
  }

  // ---------- Uninstallation ----------

  /** The uninstallation of a component purges exactly the packages it lists that no path ends in. */
  lemma PurgedExactly(apps: seq<App>, s: System, app: App, i: nat, p: string)
    requires i < |app.components|
    ensures p in ToPurge(apps, s, app, i) <==> Lists(app.components[i], p) && !IsKept(apps, s, app.id, p)
  {
    ListedArePossible(app.components[i].expressions, p);
    KeptIsNeeded(apps, s, app.id, p);
  }

  lemma UnmarkedExactly(known: Known, packages: seq<string>, p: string)
    ensures KnownVersion(Unmarked(known, packages), p) == if p in packages then None else KnownVersion(known, p)
  {
  }

  /** The path stays one in every cache that the uninstallation leaves behind. */
  predicate PathStays(s: System, caches: seq<Option<Cache>>, path: seq<string>) {
    && IsPath(s.cache, path)
    && forall i | 0 <= i < |caches| && caches[i].Some? :: IsPath(caches[i].value, path)
  }

  lemma StartStays(apps: seq<App>, s: System, t: System, id: string, p: string)
    requires t.versions == s.versions && IsStart(apps, s, id, p)
    ensures IsStart(apps, t, id, p)
  {
    if p != "freedombox" {
      var a :| a in apps && a.id != id && SetupVersion(s, a.id) != 0 && exists c | c in a.components :: Lists(c, p);
      assert SetupVersion(t, a.id) != 0;
    }
  }

  /** Where a path begins with FreedomBox or another set-up app, the uninstallation of an app purges
      no package at its end and leaves its known version alone. */
  lemma {:induction false} UninstallSparesPaths(apps: seq<App>, s: System, app: App, n: nat, caches: seq<Option<Cache>>,
                                                path: seq<string>)
    requires n <= |app.components| == |caches|
    requires PathStays(s, caches, path) && IsStart(apps, s, app.id, path[0])
    ensures Last(path) !in PurgedBy(apps, s, app, n, caches)
    ensures KnownVersion(AfterUninstall(apps, s, app, n, caches).known, Last(path)) == KnownVersion(s.known, Last(path))
    decreases n
  {
    if n > 0 {
      var p := Last(path);
      assert IsKept(apps, s, app.id, p);
      PurgedExactly(apps, s, app, n - 1, p);
      if caches[n - 1].Some? {
        var t := AfterPurge(apps, s, app, n - 1, caches[n - 1].value);
        UnmarkedExactly(s.known, ToPurge(apps, s, app, n - 1), p);
        StartStays(apps, s, t, app.id, path[0]);
        UninstallSparesPaths(apps, t, app, n - 1, caches, path);
      }
    }
  }

  predicate AllSucceed(caches: seq<Option<Cache>>, n: nat)
    requires n <= |caches|
  {
    forall i | 0 <= i < n :: caches[i].Some?
  }

  /** What an uninstallation has purged is not known afterwards, and only if all of it succeeded is
      the app no longer set up; other apps' versions stay. */
  lemma {:induction false} UninstallForgets(apps: seq<App>, s: System, app: App, n: nat, caches: seq<Option<Cache>>)
    requires n <= |app.components| == |caches|
    ensures var t := AfterUninstall(apps, s, app, n, caches);
            && (forall p | KnownVersion(t.known, p).Some? :: KnownVersion(t.known, p) == KnownVersion(s.known, p))
            && (forall id | id != app.id :: SetupVersion(t, id) == SetupVersion(s, id))
            && (AllSucceed(caches, n) ==> SetupVersion(t, app.id) == 0)
            && (!AllSucceed(caches, n) ==> SetupVersion(t, app.id) == SetupVersion(s, app.id))
            && (AllSucceed(caches, n) ==>
                  forall p | p in PurgedBy(apps, s, app, n, caches) :: KnownVersion(t.known, p).None?)
    decreases n
  {
    if n > 0 && caches[n - 1].Some? {
      var t := AfterPurge(apps, s, app, n - 1, caches[n - 1].value);
      UninstallForgets(apps, t, app, n - 1, caches);
    }
  }

  // ---------- Setup ----------

  lemma {:induction false} ComponentsKeepVersions(s: System, app: App, n: nat, allowInstall: bool,
                                                  effects: seq<Effects>)
    requires n <= |app.components| == |effects|
    ensures AfterComponents(s, app, n, allowInstall, effects).0.versions == s.versions
  {
    if n > 0 {
      ComponentsKeepVersions(s, app, n - 1, allowInstall, effects);
    }
  }

  /** Setup records the version of the app exactly if it succeeds, and no other version. */
  lemma SetupRecordsVersion(s: System, app: App, allowInstall: bool, effects: seq<Effects>, id: string)
    requires |app.components| == |effects|
    ensures var (t, ok) := AfterSetup(s, app, allowInstall, effects);
            SetupVersion(t, id) == if ok && id == app.id then app.version else SetupVersion(s, id)
  {
    ComponentsKeepVersions(s, app, |effects|, allowInstall, effects);
  }

  /** Without permission to install, setup of a component succeeds only with one listed package of
      every expression installed. */
  lemma NoInstallNeedsInstalled(s: System, c: Component, e: Effects, j: nat)
    requires AfterInstall(s, c, false, e).Some? && j < |c.expressions|
    ensures exists p :: Mentions(c.expressions[j], p) && InstalledVersion(s.cache, p).Some?
  {
    var p := Actual(c.expressions[j], s.cache);
    ActualOfMembers(c.expressions, s.cache, j);
    ActualDependsOnPossible(c.expressions[j], s.cache, s.cache);
    PossibleAreMentioned(c.expressions[j], p.value);
  }

  /** Only a component that asks for it removes conflicting packages, and forgets those that were
      installed. */
  lemma ConflictsForgotten(s: System, c: Component, e: Effects, p: string)
    requires AfterRemoval(s, c, e).Some?
    ensures var t := AfterRemoval(s, c, e).value;
            && (KnownVersion(t.known, p) ==
                if c.removeConflicts && p in c.conflicts && InstalledVersion(s.cache, p).Some? then None
                else KnownVersion(s.known, p))
            && (!c.removeConflicts ==> t == s)
            && t.versions == s.versions
  {
    InstalledOnesExactly(s.cache, c.conflicts, p);
  }

  /** The packages that count for a rerun are the actual ones of every expression of every component. */
  lemma {:induction false} AllActualExactly(components: seq<Component>, cache: Cache, p: string)
    requires AllActual(components, cache).Some?
    ensures p in AllActual(components, cache).value <==>
              exists i, j | 0 <= i < |components| && 0 <= j < |components[i].expressions| ::
                Actual(components[i].expressions[j], cache) == Some(p)
  {
    if p in AllActual(components, cache).value {
      AllActualMembers(components, cache, p);
    }
    if i, j :| 0 <= i < |components| && 0 <= j < |components[i].expressions|
               && Actual(components[i].expressions[j], cache) == Some(p) {
      AllActualHas(components, cache, i, j);
    }
  }

  lemma {:induction false} AllActualHas(components: seq<Component>, cache: Cache, i: nat, j: nat)
    requires AllActual(components, cache).Some? && i < |components| && j < |components[i].expressions|
    ensures Actual(components[i].expressions[j], cache).Some?
    ensures Actual(components[i].expressions[j], cache).value in AllActual(components, cache).value
  {
    if i == 0 {
      ActualOfMembers(components[0].expressions, cache, j);
    } else {
      AllActualHas(components[1..], cache, i - 1, j);
    }
  }

  // ---------- Notifications ----------

  lemma {:induction false} ActualOfExists(expressions: seq<Expression>, cache: Cache)
    ensures ActualOf(expressions, cache).Some? <==>
              forall j | 0 <= j < |expressions| :: exists p :: Mentions(expressions[j], p) && Installable(cache, p)
  {
    if expressions != [] {
      var rest := expressions[1..];
      ActualOfExists(rest, cache);
      ActualExists(expressions[0], cache);
      assert forall j | 0 <= j < |rest| :: expressions[j + 1] == rest[j];
      if ActualOf(expressions, cache).Some? {
        forall j | 0 <= j < |expressions| ensures exists p :: Mentions(expressions[j], p) && Installable(cache, p) {
          assert j > 0 ==> expressions[j] == rest[j - 1];
        }
      }
    }
  }

  lemma ActualExists(e: Expression, cache: Cache)
    ensures Actual(e, cache).Some? <==> exists p :: Mentions(e, p) && Installable(cache, p)
  {
    ActualIsFirstInstallable(e, cache);
    if p :| Mentions(e, p) && Installable(cache, p) {
      PossibleAreMentioned(e, p);
      var k :| 0 <= k < |Possible(e)| && Possible(e)[k] == p;
    }
    if Actual(e, cache).Some? {
      var p := Actual(e, cache).value;
      var i :| IsFirstInstallable(Possible(e), cache, p, i);
      PossibleAreMentioned(e, p);
    }
  }

  /** A notification leaves everything as it is for an app that is not set up, has no component that
      asks for reruns, or has all its actual packages known with their installed versions. */
  lemma NotificationLeavesAlone(apps: seq<App>, s: System, app: App, effects: seq<Effects>)
    requires app in apps && |effects| == |app.components|
    requires || SetupVersion(s, app.id) == 0
             || (forall c | c in app.components :: !c.rerunOnUpgrade)
             || UpToDate(s, app.components)
    ensures Apply(apps, s, Notification(app, effects)) == s
  {
    if UpToDate(s, app.components) {
      UpToDateIsNotRerun(s, app);
    }
  }

  /** Otherwise it runs setup, provided that all packages are available and some package differs from
      its known version before any that is not installed. */
  lemma NotificationRunsSetup(apps: seq<App>, s: System, app: App, effects: seq<Effects>, packages: seq<string>, i: nat)
    requires app in apps && |effects| == |app.components| && SetupVersion(s, app.id) != 0
    requires exists c | c in app.components :: c.rerunOnUpgrade
    requires AllActual(app.components, s.cache) == Some(packages) && DiffersAt(s.known, s.cache, packages, i)
    ensures Apply(apps, s, Notification(app, effects)) == AfterSetup(s, app, true, effects).0
  {
    var c :| c in app.components && c.rerunOnUpgrade;
    var k :| 0 <= k < |app.components| && app.components[k] == c;
    NeedsRerunExactly(s.known, s.cache, packages);
  }

  ghost predicate IsRun(apps: seq<App>, s: System, steps: seq<Step>)
    decreases steps
  {
    steps != [] ==> Possibly(apps, steps[0]) && IsRun(apps, Apply(apps, s, steps[0]), steps[1..])
  }

  ghost function After(apps: seq<App>, s: System, steps: seq<Step>): System
    requires IsRun(apps, s, steps)
    decreases steps
  {
    if steps == [] then s else After(apps, Apply(apps, s, steps[0]), steps[1..])
  }

  lemma StepLeavesUnset(apps: seq<App>, s: System, id: string, step: Step)
    requires Possibly(apps, step) && SetupVersion(s, id) == 0 && !(step.Setup? && step.app.id == id)
    ensures SetupVersion(Apply(apps, s, step), id) == 0
  {
    match step
    case External(_) =>
    case Setup(app, allowInstall, effects) => SetupRecordsVersion(s, app, allowInstall, effects, id);
    case Notification(app, effects) => SetupRecordsVersion(s, app, true, effects, id);
    case Uninstall(app, caches) => UninstallForgets(apps, s, app, |caches|, caches);
  }

  /** Over every run without a setup of the app asked for, an app that is not set up stays so, whatever
      is installed and whatever dpkg reports. */
  lemma {:induction false} UnsetStaysUnset(apps: seq<App>, s: System, id: string, steps: seq<Step>)
    requires IsRun(apps, s, steps) && SetupVersion(s, id) == 0
    requires forall i | 0 <= i < |steps| :: !(steps[i].Setup? && steps[i].app.id == id)
    ensures SetupVersion(After(apps, s, steps), id) == 0
    decreases steps
  {
    if steps != [] {
      StepLeavesUnset(apps, s, id, steps[0]);
      UnsetStaysUnset(apps, Apply(apps, s, steps[0]), id, steps[1..]);
    }
  }
}
