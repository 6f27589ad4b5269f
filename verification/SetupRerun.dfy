/** When the setup of an app is run again after dpkg was invoked, and what keeps that from
    happening without need (plinth/setup.py, plinth/package.py).

    apt's own work appears as the caches it leaves behind; None stands for a failure of apt. */
module SetupRerun {
  import opened Wrappers
  import opened Packages

  datatype Component = Component(expressions: seq<Expression>, conflicts: seq<string>, removeConflicts: bool,
                                 rerunOnUpgrade: bool)

  datatype App = App(id: string, version: nat, components: seq<Component>)

  /** What is installed, what is known, and which version each app was set up with. */
  datatype System = System(cache: Cache, known: Known, versions: map<string, nat>)

  function SetupVersion(s: System, id: string): nat {
    if id in s.versions then s.versions[id] else 0
  }

  function PossibleOf(expressions: seq<Expression>): seq<string> {
    if expressions == [] then [] else Possible(expressions[0]) + PossibleOf(expressions[1..])
  }

  function ActualOf(expressions: seq<Expression>, cache: Cache): Option<seq<string>> {
    if expressions == [] then Some([])
    else
      var first, rest := Actual(expressions[0], cache), ActualOf(expressions[1..], cache);
      if first.Some? && rest.Some? then Some([first.value] + rest.value) else None
  }

  predicate Uses(app: App, p: string) {
    exists c | c in app.components :: p in PossibleOf(c.expressions)
  }

  /** The packages that the uninstallation of an app must not touch. */
  function KeepRoots(apps: seq<App>, s: System, id: string): set<string> {
    {"freedombox"}
    + set a, c, p | a in apps && a.id != id && SetupVersion(s, a.id) != 0 && c in a.components
                    && p in PossibleOf(c.expressions) :: p
  }

  // ---------- Setup, uninstallation and the reaction to dpkg ----------

  datatype Effects = Effects(removal: Option<Cache>, install: Option<Cache>)

  function InstalledOnes(cache: Cache, names: seq<string>): seq<string> {
    if names == [] then []
    else
      var front, last := InstalledOnes(cache, names[..|names| - 1]), names[|names| - 1];
      if InstalledVersion(cache, last).Some? then front + [last] else front
  }

  /** Remove conflicting packages if the component asks for it. */
  function AfterRemoval(s: System, c: Component, e: Effects): Option<System> {
    var conflicts := InstalledOnes(s.cache, c.conflicts);
    if conflicts == [] || !c.removeConflicts then Some(s)
    else if e.removal.None? then None
    else Some(s.(cache := e.removal.value, known := Unmarked(s.known, conflicts)))
  }

  /** Install the packages; when installing is not allowed they must be there already, and nothing
      becomes known. */
  function AfterInstall(s: System, c: Component, allowInstall: bool, e: Effects): Option<System> {
    var packages := ActualOf(c.expressions, s.cache);
    if packages.None? then None
    else if !allowInstall then
      if forall p | p in packages.value :: InstalledVersion(s.cache, p).Some? then Some(s) else None
    else if e.install.None? then None
    else Some(s.(cache := e.install.value, known := Marked(s.known, e.install.value, packages.value)))
  }

  /** A run of setup over the first `n` components: the state it leaves, and whether it got there. */
  function AfterComponents(s: System, app: App, n: nat, allowInstall: bool, effects: seq<Effects>): (System, bool)
    requires n <= |app.components| == |effects|
  {
    if n == 0 then (s, true)
    else
      var (before, ok) := AfterComponents(s, app, n - 1, allowInstall, effects);
      var removed := AfterRemoval(before, app.components[n - 1], effects[n - 1]);
      if !ok || removed.None? then (before, false)
      else
        var installed := AfterInstall(removed.value, app.components[n - 1], allowInstall, effects[n - 1]);
        if installed.None? then (removed.value, false) else (installed.value, true)
  }

  function AfterSetup(s: System, app: App, allowInstall: bool, effects: seq<Effects>): (System, bool)
    requires |app.components| == |effects|
  {
    var (after, ok) := AfterComponents(s, app, |effects|, allowInstall, effects);
    if ok then (after.(versions := after.versions[app.id := app.version]), true) else (after, false)
  }

  /** Components are uninstalled from the last; `n` of them are left. */
  ghost function AfterUninstall(apps: seq<App>, s: System, app: App, n: nat, effects: seq<Option<Cache>>): System
    requires n <= |app.components| == |effects|
    decreases n
  {
    if n == 0 then s.(versions := s.versions[app.id := 0])
    else if effects[n - 1].None? then s
    else AfterUninstall(apps, AfterPurge(apps, s, app, n - 1, effects[n - 1].value), app, n - 1, effects)
  }

  /** The packages that the uninstallation of one component asks apt to purge. */
  ghost function ToPurge(apps: seq<App>, s: System, app: App, i: nat): seq<string>
    requires i < |app.components|
  {
    Removable(PossibleOf(app.components[i].expressions), s.cache, KeepRoots(apps, s, app.id))
  }

  /** The uninstallation of one component. */
  ghost function AfterPurge(apps: seq<App>, s: System, app: App, i: nat, cache: Cache): System
    requires i < |app.components|
  {
    s.(cache := cache, known := Unmarked(s.known, ToPurge(apps, s, app, i)))
  }

  /** All packages that the uninstallation of an app asks apt to purge. */
  ghost function PurgedBy(apps: seq<App>, s: System, app: App, n: nat, effects: seq<Option<Cache>>): seq<string>
    requires n <= |app.components| == |effects|
    decreases n
  {
    if n == 0 then []
    else if effects[n - 1].None? then ToPurge(apps, s, app, n - 1)
    else ToPurge(apps, s, app, n - 1)
         + PurgedBy(apps, AfterPurge(apps, s, app, n - 1, effects[n - 1].value), app, n - 1, effects)
  }

  /** Whether some package differs from its known version, before any that is not installed. */
  function NeedsRerun(known: Known, cache: Cache, packages: seq<string>): bool {
    if packages == [] || InstalledVersion(cache, packages[0]).None? then false
    else
      var p := packages[0];
      InstalledVersion(cache, p) != KnownVersion(known, p) || NeedsRerun(known, cache, packages[1..])
  }

  function AllActual(components: seq<Component>, cache: Cache): Option<seq<string>> {
    if components == [] then Some([])
    else
      var first, rest := ActualOf(components[0].expressions, cache), AllActual(components[1..], cache);
      if first.Some? && rest.Some? then Some(first.value + rest.value) else None
  }

  predicate Interested(app: App) {
    exists i | 0 <= i < |app.components| :: app.components[i].rerunOnUpgrade
  }

  /** Whether a dpkg notification makes setup of the app run again. */
  predicate Reruns(s: System, app: App) {
    && Interested(app)
    && SetupVersion(s, app.id) != 0
    && AllActual(app.components, s.cache).Some?
    && NeedsRerun(s.known, s.cache, AllActual(app.components, s.cache).value)
  }

  datatype Step =
    | External(cache: Cache)
    | Setup(app: App, allowInstall: bool, effects: seq<Effects>)
    | Notification(app: App, effects: seq<Effects>)
    | Uninstall(app: App, caches: seq<Option<Cache>>)

  predicate Possibly(apps: seq<App>, step: Step) {
    match step
    case External(_) => true
    case Setup(app, _, effects) => app in apps && |effects| == |app.components|
    case Notification(app, effects) => app in apps && |effects| == |app.components|
    case Uninstall(app, caches) => app in apps && |caches| == |app.components|
  }

  ghost function Apply(apps: seq<App>, s: System, step: Step): System
    requires Possibly(apps, step)
  {
    match step
    case External(cache) => s.(cache := cache)
    case Setup(app, allowInstall, effects) => AfterSetup(s, app, allowInstall, effects).0
    case Notification(app, effects) => if Reruns(s, app) then AfterSetup(s, app, true, effects).0 else s
    case Uninstall(app, caches) => AfterUninstall(apps, s, app, |caches|, caches)
  }

  // ---------- Up to date ----------

  /** The package, if installed, is known with its installed version. */
  predicate IsKnown(s: System, p: string) {
    InstalledVersion(s.cache, p).Some? ==> KnownVersion(s.known, p) == InstalledVersion(s.cache, p)
  }

  predicate UpToDate(s: System, components: seq<Component>) {
    forall i, j | 0 <= i < |components| && 0 <= j < |components[i].expressions| ::
      Actual(components[i].expressions[j], s.cache).Some? ==>
          IsKnown(s, Actual(components[i].expressions[j], s.cache).value)
  }

  /** The i-th package differs from its known version, and all up to it are installed. */
  predicate DiffersAt(known: Known, cache: Cache, packages: seq<string>, i: nat) {
    && i < |packages|
    && (forall k | 0 <= k <= i :: InstalledVersion(cache, packages[k]).Some?)
    && InstalledVersion(cache, packages[i]) != KnownVersion(known, packages[i])
  }

  /** The scan asks for a rerun exactly when some package differs from its known version and
      neither it nor any package before it is missing. */
  lemma {:induction false} NeedsRerunExactly(known: Known, cache: Cache, packages: seq<string>)
    ensures NeedsRerun(known, cache, packages) <==> exists i: nat :: DiffersAt(known, cache, packages, i)
  {
    if packages != [] {
      var rest := packages[1..];
      NeedsRerunExactly(known, cache, rest);
      if i: nat :| DiffersAt(known, cache, packages, i) {
        assert i > 0 ==> DiffersAt(known, cache, rest, i - 1);
      }
      if NeedsRerun(known, cache, packages) && !DiffersAt(known, cache, packages, 0) {
        var i: nat :| DiffersAt(known, cache, rest, i);
        assert DiffersAt(known, cache, packages, i + 1);
      }
    }
  }

  lemma {:induction false} KnownNeedsNoRerun(s: System, packages: seq<string>)
    requires forall p | p in packages :: IsKnown(s, p)
    ensures !NeedsRerun(s.known, s.cache, packages)
  {
    if packages != [] {
      assert IsKnown(s, packages[0]);
      KnownNeedsNoRerun(s, packages[1..]);
    }
  }

  lemma {:induction false} ActualMembers(expressions: seq<Expression>, cache: Cache, p: string)
    requires ActualOf(expressions, cache).Some? && p in ActualOf(expressions, cache).value
    ensures exists j | 0 <= j < |expressions| :: Actual(expressions[j], cache) == Some(p)
  {
    if p != Actual(expressions[0], cache).value {
      ActualMembers(expressions[1..], cache, p);
      var j :| 0 <= j < |expressions| - 1 && Actual(expressions[1..][j], cache) == Some(p);
      assert Actual(expressions[j + 1], cache) == Some(p);
    }
  }

  lemma {:induction false} AllActualMembers(components: seq<Component>, cache: Cache, p: string)
    requires AllActual(components, cache).Some? && p in AllActual(components, cache).value
    ensures exists i, j | 0 <= i < |components| && 0 <= j < |components[i].expressions| ::
              Actual(components[i].expressions[j], cache) == Some(p)
  {
    if p in ActualOf(components[0].expressions, cache).value {
      ActualMembers(components[0].expressions, cache, p);
    } else {
      AllActualMembers(components[1..], cache, p);
      var i, j :| 0 <= i < |components| - 1 && 0 <= j < |components[1..][i].expressions|
                  && Actual(components[1..][i].expressions[j], cache) == Some(p);
      assert Actual(components[i + 1].expressions[j], cache) == Some(p);
    }
  }

  /** An app that is up to date is not set up again by a notification. */
  lemma UpToDateIsNotRerun(s: System, app: App)
    requires UpToDate(s, app.components)
    ensures !Reruns(s, app)
  {
    var packages := AllActual(app.components, s.cache);
    if packages.Some? {
      forall p | p in packages.value ensures IsKnown(s, p) {
        AllActualMembers(app.components, s.cache, p);
      }
      KnownNeedsNoRerun(s, packages.value);
    }
  }

  // ---------- Changes that leave an app alone ----------

  predicate SamePackage(c: Cache, d: Cache, p: string) {
    InstalledVersion(c, p) == InstalledVersion(d, p) && Installable(c, p) == Installable(d, p)
  }

  /** No package of the components was installed, removed, upgraded or made unavailable. */
  predicate Untouched(components: seq<Component>, c: Cache, d: Cache) {
    forall i, p | 0 <= i < |components| && p in PossibleOf(components[i].expressions) :: SamePackage(c, d, p)
  }

  lemma {:induction false} ActualDependsOnPossible(e: Expression, c: Cache, d: Cache)
    requires forall p | p in Possible(e) :: Installable(c, p) == Installable(d, p)
    ensures Actual(e, c) == Actual(e, d)
    ensures Actual(e, c).Some? ==> Actual(e, c).value in Possible(e)
  {
    if e.Or? {
      ActualDependsOnPossible(e.first, c, d);
      ActualDependsOnPossible(e.second, c, d);
    }
  }

  lemma {:induction false} PossibleMembers(expressions: seq<Expression>, j: nat)
    requires j < |expressions|
    ensures forall p | p in Possible(expressions[j]) :: p in PossibleOf(expressions)
  {
    if j > 0 {
      PossibleMembers(expressions[1..], j - 1);
    }
  }

  /** The package is no less known than before: it is not installed, or known with its installed
      version, or nothing about it changed. */
  predicate StillKnown(s: System, t: System, p: string) {
    && Installable(s.cache, p) == Installable(t.cache, p)
    && (|| InstalledVersion(t.cache, p).None?
        || KnownVersion(t.known, p) == InstalledVersion(t.cache, p)
        || (KnownVersion(t.known, p) == KnownVersion(s.known, p)
            && InstalledVersion(t.cache, p) == InstalledVersion(s.cache, p)))
  }

  lemma StaysUpToDate(s: System, t: System, components: seq<Component>)
    requires UpToDate(s, components)
    requires forall i, p | 0 <= i < |components| && p in PossibleOf(components[i].expressions) :: StillKnown(s, t, p)
    ensures UpToDate(t, components)
  {
    forall i, j | 0 <= i < |components| && 0 <= j < |components[i].expressions|
      && Actual(components[i].expressions[j], t.cache).Some?
      ensures IsKnown(t, Actual(components[i].expressions[j], t.cache).value)
    {
      var e := components[i].expressions[j];
      PossibleMembers(components[i].expressions, j);
      forall p | p in Possible(e) ensures Installable(s.cache, p) == Installable(t.cache, p) {
        assert StillKnown(s, t, p);
      }
      ActualDependsOnPossible(e, s.cache, t.cache);
      var p := Actual(e, t.cache).value;
      assert p in PossibleOf(components[i].expressions) && StillKnown(s, t, p);
      assert IsKnown(s, p);
    }
  }

  /** After a removal the conflicting packages are not installed. */
  predicate Sensible(c: Component, e: Effects) {
    e.removal.Some? ==> forall p | p in c.conflicts :: InstalledVersion(e.removal.value, p).None?
  }

  predicate EffectsLeaveAlone(components: seq<Component>, cache: Cache, e: Effects) {
    && (e.removal.Some? ==> Untouched(components, cache, e.removal.value))
    && (e.install.Some? ==> Untouched(components, cache, e.install.value))
  }

  lemma {:induction false} InstalledOnesExactly(cache: Cache, names: seq<string>, p: string)
    ensures p in InstalledOnes(cache, names) <==> p in names && InstalledVersion(cache, p).Some?
  {
    if names != [] {
      InstalledOnesExactly(cache, names[..|names| - 1], p);
      assert names == names[..|names| - 1] + [names[|names| - 1]];
    }
  }

  /** Packages of the components were at most removed, except for the given ones. */
  predicate AtMostRemoved(components: seq<Component>, c: Cache, d: Cache, except: seq<string>) {
    forall i, p | 0 <= i < |components| && p in PossibleOf(components[i].expressions) ::
      && Installable(c, p) == Installable(d, p)
      && (InstalledVersion(d, p) == InstalledVersion(c, p) || InstalledVersion(d, p).None? || p in except)
  }

  lemma RemovalKeepsUpToDate(s: System, components: seq<Component>, c: Component, e: Effects)
    requires UpToDate(s, components) && Sensible(c, e)
    requires e.removal.Some? ==> AtMostRemoved(components, s.cache, e.removal.value, [])
    ensures AfterRemoval(s, c, e).Some? ==> UpToDate(AfterRemoval(s, c, e).value, components)
  {
    var conflicts := InstalledOnes(s.cache, c.conflicts);
    if conflicts != [] && c.removeConflicts && e.removal.Some? {
      var t := AfterRemoval(s, c, e).value;
      forall i, p | 0 <= i < |components| && p in PossibleOf(components[i].expressions) ensures StillKnown(s, t, p) {
        InstalledOnesExactly(s.cache, c.conflicts, p);
      }
      StaysUpToDate(s, t, components);
    }
  }

  predicate GentleInstall(cache: Cache, components: seq<Component>, c: Component, e: Effects) {
    e.install.Some? && ActualOf(c.expressions, cache).Some? ==>
      AtMostRemoved(components, cache, e.install.value, ActualOf(c.expressions, cache).value)
  }

  /** Installing keeps components up to date if it changes no other of their packages than those
      it makes known. */
  lemma InstallKeepsUpToDate(s: System, components: seq<Component>, c: Component, allowInstall: bool, e: Effects)
    requires UpToDate(s, components)
    requires allowInstall ==> GentleInstall(s.cache, components, c, e)
    ensures AfterInstall(s, c, allowInstall, e).Some? ==>
              UpToDate(AfterInstall(s, c, allowInstall, e).value, components)
  {
    var packages := ActualOf(c.expressions, s.cache);
    if packages.Some? && allowInstall && e.install.Some? {
      var t := AfterInstall(s, c, allowInstall, e).value;
      forall i, p | 0 <= i < |components| && p in PossibleOf(components[i].expressions) ensures StillKnown(s, t, p) {
        MarkedExactly(s.known, t.cache, packages.value, p);
      }
      StaysUpToDate(s, t, components);
    }
  }

  /** Whether the setup of an app leaves the versions of these packages alone, but for removing
      packages and for installing what it makes known itself. */
  predicate GentleSetup(s: System, components: seq<Component>, other: App, n: nat, allowInstall: bool,
                        effects: seq<Effects>)
    requires n <= |other.components| == |effects|
  {
    n > 0 ==>
      var c, e := other.components[n - 1], effects[n - 1];
      var before := AfterComponents(s, other, n - 1, allowInstall, effects).0;
      && GentleSetup(s, components, other, n - 1, allowInstall, effects)
      && Sensible(c, e)
      && (e.removal.Some? ==> AtMostRemoved(components, before.cache, e.removal.value, []))
      && (allowInstall && AfterRemoval(before, c, e).Some? ==>
            GentleInstall(AfterRemoval(before, c, e).value.cache, components, c, e))
  }

  /** Whether the uninstallation of an app changes none of these packages but by removing them. */
  ghost predicate GentleUninstall(apps: seq<App>, s: System, components: seq<Component>, other: App, n: nat,
                                  caches: seq<Option<Cache>>)
    requires n <= |other.components| == |caches|
    decreases n
  {
    n > 0 && caches[n - 1].Some? ==>
      && AtMostRemoved(components, s.cache, caches[n - 1].value, [])
      && GentleUninstall(apps, AfterPurge(apps, s, other, n - 1, caches[n - 1].value), components, other, n - 1, caches)
  }

  /** The step upgrades no package of the app behind its back: installed versions change only where
      a setup run makes the new version known, or where a package is removed. */
  ghost predicate IsGentle(apps: seq<App>, app: App, s: System, step: Step)
    requires Possibly(apps, step)
  {
    match step
    case External(cache) => AtMostRemoved(app.components, s.cache, cache, [])
    case Setup(other, allowInstall, effects) => GentleSetup(s, app.components, other, |effects|, allowInstall, effects)
    case Notification(other, effects) => GentleSetup(s, app.components, other, |effects|, true, effects)
    case Uninstall(other, caches) =>
      other.id != app.id && GentleUninstall(apps, s, app.components, other, |caches|, caches)
  }

  predicate AllLeaveAlone(app: App, s: System, other: App, effects: seq<Effects>) {
    && (forall i | 0 <= i < |effects| :: EffectsLeaveAlone(app.components, s.cache, effects[i]))
    && (forall i | 0 <= i < |effects| && i < |other.components| :: Sensible(other.components[i], effects[i]))
  }

  lemma UntouchedFromCommon(components: seq<Component>, c: Cache, d: Cache, e: Cache)
    requires Untouched(components, c, d) && Untouched(components, c, e)
    ensures Untouched(components, d, e)
  {
    forall i, p | 0 <= i < |components| && p in PossibleOf(components[i].expressions) ensures SamePackage(d, e, p) {
      assert SamePackage(c, d, p) && SamePackage(c, e, p);
    }
  }

  lemma EffectsFromCommon(components: seq<Component>, c: Cache, d: Cache, e: Effects)
    requires Untouched(components, c, d) && EffectsLeaveAlone(components, c, e)
    ensures EffectsLeaveAlone(components, d, e)
  {
    if e.removal.Some? {
      UntouchedFromCommon(components, c, d, e.removal.value);
    }
    if e.install.Some? {
      UntouchedFromCommon(components, c, d, e.install.value);
    }
  }

  lemma {:induction false} ComponentsKeepUpToDate(s: System, app: App, other: App, n: nat, allowInstall: bool,
                                                  effects: seq<Effects>)
    requires n <= |other.components| == |effects|
    requires UpToDate(s, app.components) && GentleSetup(s, app.components, other, n, allowInstall, effects)
    ensures var after := AfterComponents(s, other, n, allowInstall, effects).0;
            UpToDate(after, app.components) && after.versions == s.versions
  {
    if n > 0 {
      ComponentsKeepUpToDate(s, app, other, n - 1, allowInstall, effects);
      var (before, ok) := AfterComponents(s, other, n - 1, allowInstall, effects);
      var c, e := other.components[n - 1], effects[n - 1];
      RemovalKeepsUpToDate(before, app.components, c, e);
      var removed := AfterRemoval(before, c, e);
      if ok && removed.Some? {
        InstallKeepsUpToDate(removed.value, app.components, c, allowInstall, e);
      }
    }
  }

  lemma UninstallSparesOthers(apps: seq<App>, s: System, app: App, other: string, packages: seq<string>, p: string)
    requires app in apps && app.id != other && SetupVersion(s, app.id) != 0 && Uses(app, p)
    ensures p !in Removable(packages, s.cache, KeepRoots(apps, s, other))
  {
    var c :| c in app.components && p in PossibleOf(c.expressions);
    assert p in KeepRoots(apps, s, other);
    assert NeededWithin(s.cache, KeepRoots(apps, s, other), 0, p);
  }

  lemma PurgeKeepsUpToDate(apps: seq<App>, s: System, app: App, other: App, i: nat, cache: Cache)
    requires i < |other.components|
    requires app in apps && app.id != other.id && SetupVersion(s, app.id) != 0
    requires UpToDate(s, app.components) && AtMostRemoved(app.components, s.cache, cache, [])
    ensures UpToDate(AfterPurge(apps, s, other, i, cache), app.components)
  {
    var t := AfterPurge(apps, s, other, i, cache);
    forall k, p | 0 <= k < |app.components| && p in PossibleOf(app.components[k].expressions)
      ensures StillKnown(s, t, p)
    {
      assert app.components[k] in app.components && Uses(app, p);
      UninstallSparesOthers(apps, s, app, other.id, PossibleOf(other.components[i].expressions), p);
    }
    StaysUpToDate(s, t, app.components);
  }

  lemma {:induction false} UninstallKeepsUpToDate(apps: seq<App>, s: System, app: App, other: App, n: nat,
                                                  caches: seq<Option<Cache>>)
    requires n <= |other.components| == |caches|
    requires app in apps && app.id != other.id && SetupVersion(s, app.id) != 0
    requires UpToDate(s, app.components) && GentleUninstall(apps, s, app.components, other, n, caches)
    ensures var after := AfterUninstall(apps, s, other, n, caches);
            UpToDate(after, app.components) && SetupVersion(after, app.id) == SetupVersion(s, app.id)
    decreases n
  {
    if n > 0 && caches[n - 1].Some? {
      PurgeKeepsUpToDate(apps, s, app, other, n - 1, caches[n - 1].value);
      UninstallKeepsUpToDate(apps, AfterPurge(apps, s, other, n - 1, caches[n - 1].value), app, other, n - 1, caches);
    }
  }

  /** Everything an app is entitled to between its own setup runs. */
  predicate SetUp(s: System, app: App) {
    UpToDate(s, app.components) && SetupVersion(s, app.id) != 0
  }

  lemma StepKeepsSetUp(apps: seq<App>, s: System, app: App, step: Step)
    requires app in apps && (forall a | a in apps :: a.version > 0)
    requires Possibly(apps, step) && SetUp(s, app) && IsGentle(apps, app, s, step)
    ensures SetUp(Apply(apps, s, step), app)
  {
    match step
    case External(cache) =>
      var t := s.(cache := cache);
      assert forall i, p | 0 <= i < |app.components| && p in PossibleOf(app.components[i].expressions) ::
          StillKnown(s, t, p);
      StaysUpToDate(s, t, app.components);
    case Setup(other, allowInstall, effects) =>
      ComponentsKeepUpToDate(s, app, other, |effects|, allowInstall, effects);
    case Notification(other, effects) =>
      ComponentsKeepUpToDate(s, app, other, |effects|, true, effects);
    case Uninstall(other, caches) =>
      UninstallKeepsUpToDate(apps, s, app, other, |caches|, caches);
  }

  ghost predicate QuietRun(apps: seq<App>, s: System, app: App, steps: seq<Step>)
    decreases steps
  {
    steps != [] ==>
      && Possibly(apps, steps[0]) && IsGentle(apps, app, s, steps[0])
      && QuietRun(apps, Apply(apps, s, steps[0]), app, steps[1..])
  }

  /** Over any run of dpkg work, notifications, setups and uninstallations of other apps that upgrades
      no package of an app behind its back, an app that is set up and up to date is at no time set up
      again by a notification. */
  lemma {:induction false} NeverRerunInQuietRun(apps: seq<App>, s: System, app: App, steps: seq<Step>, n: nat)
    requires app in apps && (forall a | a in apps :: a.version > 0)
    requires SetUp(s, app) && QuietRun(apps, s, app, steps) && n <= |steps|
    ensures !Reruns(StateAfter(apps, s, app, steps, n), app)
    decreases steps
  {
    UpToDateIsNotRerun(s, app);
    if n > 0 {
      StepKeepsSetUp(apps, s, app, steps[0]);
      NeverRerunInQuietRun(apps, Apply(apps, s, steps[0]), app, steps[1..], n - 1);
    }
  }

  ghost function StateAfter(apps: seq<App>, s: System, app: App, steps: seq<Step>, n: nat): System
    requires QuietRun(apps, s, app, steps) && n <= |steps|
    decreases steps
  {
    if n == 0 then s else StateAfter(apps, Apply(apps, s, steps[0]), app, steps[1..], n - 1)
  }

  // ---------- A setup run makes the app up to date ----------

  /** Installing the packages of a component keeps them installable; of the packages of the
      components before it, this and the removal of conflicts change no version except of those
      that the component itself installs. */
  predicate OrderlyEffects(s: System, app: App, n: nat, effects: seq<Effects>)
    requires n <= |app.components| == |effects|
  {
    n > 0 ==>
      var c, e, earlier := app.components[n - 1], effects[n - 1], app.components[..n - 1];
      var before := AfterComponents(s, app, n - 1, true, effects).0;
      && OrderlyEffects(s, app, n - 1, effects)
      && Sensible(c, e)
      && (e.removal.Some? ==> AtMostRemoved(earlier, before.cache, e.removal.value, []))
      && (AfterRemoval(before, c, e).Some? ==> OrderlyInstall(AfterRemoval(before, c, e).value.cache, earlier, c, e))
  }

  predicate OrderlyInstall(cache: Cache, earlier: seq<Component>, c: Component, e: Effects) {
    && GentleInstall(cache, earlier, c, e)
    && (e.install.Some? && ActualOf(c.expressions, cache).Some? ==>
          forall p | p in PossibleOf(c.expressions) :: Installable(cache, p) == Installable(e.install.value, p))
  }

  lemma {:induction false} ActualOfMembers(expressions: seq<Expression>, cache: Cache, j: nat)
    requires ActualOf(expressions, cache).Some? && j < |expressions|
    ensures Actual(expressions[j], cache).Some?
            && Actual(expressions[j], cache).value in ActualOf(expressions, cache).value
  {
    if j > 0 {
      ActualOfMembers(expressions[1..], cache, j - 1);
    }
  }

  lemma InstalledIsUpToDate(s: System, c: Component, e: Effects)
    requires e.install.Some? && AfterInstall(s, c, true, e).Some?
    requires forall p | p in PossibleOf(c.expressions) :: Installable(s.cache, p) == Installable(e.install.value, p)
    ensures UpToDate(AfterInstall(s, c, true, e).value, [c])
  {
    var t := AfterInstall(s, c, true, e).value;
    forall j | 0 <= j < |c.expressions| && Actual(c.expressions[j], t.cache).Some?
      ensures IsKnown(t, Actual(c.expressions[j], t.cache).value)
    {
      PossibleMembers(c.expressions, j);
      ActualDependsOnPossible(c.expressions[j], s.cache, t.cache);
      ActualOfMembers(c.expressions, s.cache, j);
      MarkedExactly(s.known, t.cache, ActualOf(c.expressions, s.cache).value, Actual(c.expressions[j], t.cache).value);
    }
  }

  lemma {:induction false} SetupMakesUpToDate(s: System, app: App, n: nat, effects: seq<Effects>)
    requires n <= |app.components| == |effects| && OrderlyEffects(s, app, n, effects)
    requires AfterComponents(s, app, n, true, effects).1
    ensures UpToDate(AfterComponents(s, app, n, true, effects).0, app.components[..n])
  {
    if n > 0 {
      SetupMakesUpToDate(s, app, n - 1, effects);
      var before := AfterComponents(s, app, n - 1, true, effects).0;
      var c, e, earlier := app.components[n - 1], effects[n - 1], app.components[..n - 1];
      assert earlier == app.components[..n][..n - 1];
      RemovalKeepsUpToDate(before, earlier, c, Effects(e.removal, None));
      var removed := AfterRemoval(before, c, e).value;
      assert AfterRemoval(before, c, Effects(e.removal, None)) == Some(removed);
      InstallKeepsUpToDate(removed, earlier, c, true, e);
      InstalledIsUpToDate(removed, c, e);
      var after := AfterInstall(removed, c, true, e).value;
      assert app.components[..n] == earlier + [c];
      UpToDateTogether(after, earlier, c);
    }
  }

  lemma UpToDateTogether(s: System, components: seq<Component>, c: Component)
    requires UpToDate(s, components) && UpToDate(s, [c])
    ensures UpToDate(s, components + [c])
  {
    forall i, j | 0 <= i <= |components| && 0 <= j < |(components + [c])[i].expressions|
      && Actual((components + [c])[i].expressions[j], s.cache).Some?
      ensures IsKnown(s, Actual((components + [c])[i].expressions[j], s.cache).value)
    {
      if i == |components| {
        assert [c][0].expressions[j] == (components + [c])[i].expressions[j];
      } else {
        assert (components + [c])[i] == components[i];
      }
    }
  }

  /** A setup run that installs packages and succeeds leaves the app set up and up to date. */
  lemma SuccessfulSetupIsSetUp(s: System, app: App, effects: seq<Effects>)
    requires |app.components| == |effects| && app.version > 0
    requires OrderlyEffects(s, app, |effects|, effects)
    requires AfterSetup(s, app, true, effects).1
    ensures SetUp(AfterSetup(s, app, true, effects).0, app)
    ensures !Reruns(AfterSetup(s, app, true, effects).0, app)
  {
    SetupMakesUpToDate(s, app, |effects|, effects);
    assert app.components[..|effects|] == app.components;
    UpToDateIsNotRerun(AfterSetup(s, app, true, effects).0, app);
  }

  /** A setup run that may not install packages makes no version known, whatever conflicting
      packages it removes. */
  lemma {:induction false} SetupWithoutInstallLearnsNothing(s: System, app: App, n: nat, effects: seq<Effects>,
                                                            p: string)
    requires n <= |app.components| == |effects|
    ensures var after := AfterComponents(s, app, n, false, effects).0;
            KnownVersion(after.known, p).None? || KnownVersion(after.known, p) == KnownVersion(s.known, p)
  {
    if n > 0 {
      SetupWithoutInstallLearnsNothing(s, app, n - 1, effects, p);
    }
  }

  /** Nothing about the packages of the components differs. */
  predicate SameState(components: seq<Component>, s: System, t: System) {
    && Untouched(components, s.cache, t.cache)
    && forall i, p | 0 <= i < |components| && p in PossibleOf(components[i].expressions) ::
         KnownVersion(t.known, p) == KnownVersion(s.known, p)
  }

  lemma RemovalKeepsState(s: System, components: seq<Component>, c: Component, e: Effects)
    requires Sensible(c, e) && (e.removal.Some? ==> Untouched(components, s.cache, e.removal.value))
    ensures AfterRemoval(s, c, e).Some? ==> SameState(components, s, AfterRemoval(s, c, e).value)
  {
    if AfterRemoval(s, c, e).Some? {
      var t := AfterRemoval(s, c, e).value;
      forall i, p | 0 <= i < |components| && p in PossibleOf(components[i].expressions)
        ensures SamePackage(s.cache, t.cache, p) && KnownVersion(t.known, p) == KnownVersion(s.known, p)
      {
        InstalledOnesExactly(s.cache, c.conflicts, p);
      }
    }
  }

  lemma SameStateThrough(components: seq<Component>, s: System, t: System, u: System)
    requires SameState(components, s, t) && SameState(components, t, u)
    ensures SameState(components, s, u)
  {
    forall i, p | 0 <= i < |components| && p in PossibleOf(components[i].expressions)
      ensures SamePackage(s.cache, u.cache, p)
    {
      assert SamePackage(s.cache, t.cache, p) && SamePackage(t.cache, u.cache, p);
    }
  }

  lemma {:induction false} SetupWithoutInstallKeepsState(s: System, app: App, n: nat, effects: seq<Effects>)
    requires n <= |app.components| == |effects| && AllLeaveAlone(app, s, app, effects)
    ensures SameState(app.components, s, AfterComponents(s, app, n, false, effects).0)
  {
    if n > 0 {
      SetupWithoutInstallKeepsState(s, app, n - 1, effects);
      var before := AfterComponents(s, app, n - 1, false, effects).0;
      var c, e := app.components[n - 1], effects[n - 1];
      EffectsFromCommon(app.components, s.cache, before.cache, e);
      RemovalKeepsState(before, app.components, c, e);
      if AfterRemoval(before, c, e).Some? {
        SameStateThrough(app.components, s, before, AfterRemoval(before, c, e).value);
      }
    }
  }

  lemma {:induction false} SameActual(expressions: seq<Expression>, c: Cache, d: Cache)
    requires forall p | p in PossibleOf(expressions) :: SamePackage(c, d, p)
    ensures ActualOf(expressions, c) == ActualOf(expressions, d)
    ensures ActualOf(expressions, c).Some? ==>
            forall p | p in ActualOf(expressions, c).value :: p in PossibleOf(expressions)
  {
    if expressions != [] {
      forall p | p in Possible(expressions[0]) ensures Installable(c, p) == Installable(d, p) {
        assert SamePackage(c, d, p);
      }
      ActualDependsOnPossible(expressions[0], c, d);
      SameActual(expressions[1..], c, d);
    }
  }

  lemma {:induction false} SameAllActual(components: seq<Component>, s: System, t: System)
    requires SameState(components, s, t)
    ensures AllActual(components, s.cache) == AllActual(components, t.cache)
    ensures AllActual(components, s.cache).Some? ==>
              forall p | p in AllActual(components, s.cache).value :: SameVersions(s, t, p)
  {
    if components != [] {
      var first, rest := components[0], components[1..];
      forall p | p in PossibleOf(first.expressions) ensures SamePackage(s.cache, t.cache, p) && SameVersions(s, t, p) {
        assert p in PossibleOf(components[0].expressions);
      }
      SameActual(first.expressions, s.cache, t.cache);
      forall i, p | 0 <= i < |rest| && p in PossibleOf(rest[i].expressions)
        ensures SamePackage(s.cache, t.cache, p) && KnownVersion(t.known, p) == KnownVersion(s.known, p)
      {
        assert p in PossibleOf(components[i + 1].expressions);
      }
      SameAllActual(rest, s, t);
    }
  }

  predicate SameVersions(s: System, t: System, p: string) {
    InstalledVersion(t.cache, p) == InstalledVersion(s.cache, p) && KnownVersion(t.known, p) == KnownVersion(s.known, p)
  }

  lemma {:induction false} SameNeedsRerun(s: System, t: System, packages: seq<string>)
    requires forall p | p in packages :: SameVersions(s, t, p)
    ensures NeedsRerun(s.known, s.cache, packages) == NeedsRerun(t.known, t.cache, packages)
  {
    if packages != [] {
      assert SameVersions(s, t, packages[0]);
      SameNeedsRerun(s, t, packages[1..]);
    }
  }

  /** After a setup run that may not install packages, and whose removal of conflicts leaves the
      packages of the app alone, a notification sets the app up again exactly when its packages
      needed it before. */
  lemma SetupWithoutInstallRerunsExactly(s: System, app: App, effects: seq<Effects>)
    requires |app.components| == |effects| && app.version > 0
    requires AllLeaveAlone(app, s, app, effects)
    requires AfterSetup(s, app, false, effects).1
    ensures Reruns(AfterSetup(s, app, false, effects).0, app) <==>
              && Interested(app) && AllActual(app.components, s.cache).Some?
              && NeedsRerun(s.known, s.cache, AllActual(app.components, s.cache).value)
  {
    var t := AfterSetup(s, app, false, effects).0;
    SetupWithoutInstallKeepsState(s, app, |effects|, effects);
    SameAllActual(app.components, s, t);
    if AllActual(app.components, s.cache).Some? {
      SameNeedsRerun(s, t, AllActual(app.components, s.cache).value);
    }
  }

  /** An app whose setup is to be rerun on upgrades, and whose package is installed but not known,
      is set up without installing and then set up again by the next notification. */
  lemma SetupIsRerunExample() returns (s: System, app: App, effects: seq<Effects>)
    ensures |app.components| == |effects| && AfterSetup(s, app, false, effects).1
    ensures Reruns(AfterSetup(s, app, false, effects).0, app)
  {
    var c := Component([Package("radicale")], [], false, true);
    app := App("radicale", 1, [c]);
    s := System(map["radicale" := Entry(true, Some(Installed("3", [])))], map[], map[]);
    effects := [Effects(None, None)];
    assert app.components[0].rerunOnUpgrade;
    assert c.expressions[1..] == [] && ActualOf([], s.cache) == Some([]);
    assert Actual(c.expressions[0], s.cache) == Some("radicale") && ["radicale"] + [] == ["radicale"];
    assert ActualOf(c.expressions, s.cache) == Some(["radicale"]);
    assert AllActual(app.components, s.cache) == Some(["radicale"]);
    assert AfterComponents(s, app, 1, false, effects) == (s, true);
  }
}
