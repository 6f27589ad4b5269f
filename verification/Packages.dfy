/** Packages that apps ask for, the packages to keep when an app is uninstalled, and the record of
    known package versions (plinth/package.py). */
module Packages {
  import opened Wrappers

  // ---------- apt's cache and package expressions ----------

  /** Each dependency is a group of alternatives. */
  datatype Installed = Installed(version: string, dependencies: seq<seq<string>>)

  datatype Entry = Entry(hasCandidate: bool, installed: Option<Installed>)

  type Cache = map<string, Entry>

  predicate Installable(cache: Cache, name: string) {
    name in cache && cache[name].hasCandidate
  }

  function InstalledVersion(cache: Cache, name: string): Option<string> {
    if name in cache && cache[name].installed.Some? then Some(cache[name].installed.value.version) else None
  }

  datatype Expression = Package(name: string) | Or(first: Expression, second: Expression)

  function Possible(e: Expression): seq<string> {
    match e
    case Package(name) => [name]
    case Or(first, second) => Possible(first) + Possible(second)
  }

  /** None stands for MissingPackageError. */
  function Actual(e: Expression, cache: Cache): Option<string> {
    match e
    case Package(name) => if Installable(cache, name) then Some(name) else None
    case Or(first, second) => if Actual(first, cache).Some? then Actual(first, cache) else Actual(second, cache)
  }

  ghost predicate IsFirstInstallable(names: seq<string>, cache: Cache, name: string, i: int) {
    && 0 <= i < |names| && names[i] == name && Installable(cache, name)
    && forall j | 0 <= j < i :: !Installable(cache, names[j])
  }

  /** Resolving an expression picks the first of its possible packages that can be installed. */
  lemma {:induction false} ActualIsFirstInstallable(e: Expression, cache: Cache)
    ensures Actual(e, cache).None? ==> forall i | 0 <= i < |Possible(e)| :: !Installable(cache, Possible(e)[i])
    ensures Actual(e, cache).Some? ==> exists i :: IsFirstInstallable(Possible(e), cache, Actual(e, cache).value, i)
  {
    match e
    case Package(name) =>
      assert Actual(e, cache).Some? ==> IsFirstInstallable(Possible(e), cache, name, 0);
    case Or(first, second) =>
      ActualIsFirstInstallable(first, cache);
      ActualIsFirstInstallable(second, cache);
      var n := |Possible(first)|;
      if Actual(first, cache).Some? {
        var i :| IsFirstInstallable(Possible(first), cache, Actual(first, cache).value, i);
        assert Actual(e, cache) == Actual(first, cache);
        assert IsFirstInstallable(Possible(e), cache, Actual(e, cache).value, i);
      } else if Actual(second, cache).Some? {
        var i :| IsFirstInstallable(Possible(second), cache, Actual(second, cache).value, i);
        var names := Possible(first) + Possible(second);
        assert names == Possible(e) && names[n + i] == Possible(second)[i];
        forall j | 0 <= j < n + i ensures !Installable(cache, names[j]) {
          assert names[j] == if j < n then Possible(first)[j] else Possible(second)[j - n];
        }
        assert Actual(e, cache) == Actual(second, cache);
        assert IsFirstInstallable(Possible(e), cache, Actual(e, cache).value, n + i);
      }
  }

  // ---------- Packages to keep ----------

  /** What an installed package asks for: its dependencies and recommendations. */
  function Wanted(cache: Cache, name: string): set<string> {
    if name in cache && cache[name].installed.Some? then
      var dependencies := cache[name].installed.value.dependencies;
      set i, d | 0 <= i < |dependencies| && d in dependencies[i] :: d
    else {}
  }

  ghost predicate NeededWithin(cache: Cache, roots: set<string>, n: nat, name: string) {
    name in roots || (n > 0 && exists p :: NeededWithin(cache, roots, n - 1, p) && name in Wanted(cache, p))
  }

  /** A root, or reachable from one along the wants of installed packages. */
  ghost predicate Needed(cache: Cache, roots: set<string>, name: string) {
    exists n: nat :: NeededWithin(cache, roots, n, name)
  }

  lemma WantedByNeeded(cache: Cache, roots: set<string>, p: string, name: string)
    requires Needed(cache, roots, p) && name in Wanted(cache, p)
    ensures Needed(cache, roots, name)
  {
    var n: nat :| NeededWithin(cache, roots, n, p);
    assert NeededWithin(cache, roots, n + 1, name);
  }

  lemma {:induction false} NeededStaysInside(cache: Cache, roots: set<string>, closed: set<string>, n: nat,
                                             name: string)
    requires roots <= closed && forall p | p in closed :: Wanted(cache, p) <= closed
    requires NeededWithin(cache, roots, n, name)
    ensures name in closed
    decreases n
  {
    if name !in roots {
      var p :| NeededWithin(cache, roots, n - 1, p) && name in Wanted(cache, p);
      NeededStaysInside(cache, roots, closed, n - 1, p);
    }
  }

  /** Every name that can turn up while following wants. */
  ghost function Universe(cache: Cache, roots: set<string>): (u: set<string>)
    ensures roots <= u && forall p :: Wanted(cache, p) <= u
  {
    roots + set p, d | p in cache && d in Wanted(cache, p) :: d
  }

  /** The worklist loop: all packages needed by the roots, on any dependency graph. */
  method KeepWithDependencies(cache: Cache, roots: set<string>) returns (kept: set<string>)
    ensures forall name :: name in kept <==> Needed(cache, roots, name)
  {
    var todo := roots;
    kept := {};
    ghost var universe := Universe(cache, roots);
    assert forall name | name in roots :: NeededWithin(cache, roots, 0, name);
    while todo != {}
      invariant todo <= universe
      invariant roots <= kept + todo
      invariant forall p | p in kept :: Wanted(cache, p) <= kept + todo
      invariant forall name | name in kept + todo :: Needed(cache, roots, name)
      decreases universe - kept, todo
    {
      var name :| name in todo;
      todo := todo - {name};
      if name in kept {
        continue;
      }
      kept := kept + {name};
      forall d | d in Wanted(cache, name) ensures Needed(cache, roots, d) {
        WantedByNeeded(cache, roots, name, d);
      }
      if name !in cache {
        continue;
      }
      if cache[name].installed.None? {
        continue;
      }
      todo := todo + Wanted(cache, name);
    }
    forall name | Needed(cache, roots, name) ensures name in kept {
      var n: nat :| NeededWithin(cache, roots, n, name);
      NeededStaysInside(cache, roots, kept, n, name);
    }
  }

  /** The list without the needed packages; order and repeats stay. */
  ghost function Removable(packages: seq<string>, cache: Cache, roots: set<string>): (r: seq<string>)
    ensures forall p :: p in r <==> p in packages && !Needed(cache, roots, p)
  {
    if packages == [] then []
    else
      var front := Removable(packages[..|packages| - 1], cache, roots);
      var last := packages[|packages| - 1];
      assert packages == packages[..|packages| - 1] + [last];
      if Needed(cache, roots, last) then front else front + [last]
  }

  /** One part of the list after the other. */
  lemma {:induction false} RemovableConcat(a: seq<string>, b: seq<string>, cache: Cache, roots: set<string>)
    ensures Removable(a + b, cache, roots) == Removable(a, cache, roots) + Removable(b, cache, roots)
    decreases b
  {
    if b == [] {
      assert a + b == a;
    } else {
      var front, last := b[..|b| - 1], b[|b| - 1];
      RemovableConcat(a, front, cache, roots);
      assert (a + b)[..|a + b| - 1] == a + front && (a + b)[|a + b| - 1] == last;
    }
  }

  method FilterPackagesToKeep(packages: seq<string>, cache: Cache, roots: set<string>) returns (r: seq<string>)
    ensures r == Removable(packages, cache, roots)
  {
    var kept := KeepWithDependencies(cache, roots);
    var packagesSet := (set p | p in packages) - kept;
    r := [];
    for i := 0 to |packages|
      invariant r == Removable(packages[..i], cache, roots)
    {
      assert packages[..i + 1][..i] == packages[..i];
      if packages[i] in packagesSet {
        r := r + [packages[i]];
      }
    }
    assert packages[..|packages|] == packages;
  }

  // ---------- Known versions ----------

  type Known = map<string, string>

  /** One package after the other, the installed ones become known with their version. */
  function Marked(known: Known, cache: Cache, packages: seq<string>): Known {
    if packages == [] then known
    else
      var before, last := Marked(known, cache, packages[..|packages| - 1]), packages[|packages| - 1];
      if InstalledVersion(cache, last).Some? then before[last := InstalledVersion(cache, last).value] else before
  }

  function KnownVersion(known: Known, p: string): Option<string> {
    if p in known then Some(known[p]) else None
  }

  lemma {:induction false} MarkedExactly(known: Known, cache: Cache, packages: seq<string>, p: string)
    ensures KnownVersion(Marked(known, cache, packages), p) ==
            if p in packages && InstalledVersion(cache, p).Some? then InstalledVersion(cache, p)
            else KnownVersion(known, p)
  {
    if packages != [] {
      MarkedExactly(known, cache, packages[..|packages| - 1], p);
      assert packages == packages[..|packages| - 1] + [packages[|packages| - 1]];
    }
  }

  function Unmarked(known: Known, packages: seq<string>): Known {
    known - (set p | p in packages)
  }

  /** The stored record of known versions. */
  class KnownStore {
    var known: Known

    constructor ()
      ensures known == map[]
    {
      known := map[];
    }

    method MarkKnown(cache: Cache, packages: seq<string>)
      modifies this
      ensures known == Marked(old(known), cache, packages)
    {
      var updated := known;
      for i := 0 to |packages|
        invariant updated == Marked(known, cache, packages[..i])
      {
        assert packages[..i + 1][..i] == packages[..i];
        var name := packages[i];
        if name !in cache {
          continue;
        }
        if cache[name].installed.None? {
          continue;
        }
        updated := updated[name := cache[name].installed.value.version];
      }
      assert packages[..|packages|] == packages;
      known := updated;
    }

    method UnmarkKnown(packages: seq<string>)
      modifies this
      ensures known == Unmarked(old(known), packages)
    {
      var updated := known;
      for i := 0 to |packages|
        invariant updated == Unmarked(known, packages[..i])
      {
        assert packages[..i + 1] == packages[..i] + [packages[i]];
        if packages[i] in updated {
          updated := updated - {packages[i]};
        }
      }
      assert packages[..|packages|] == packages;
      known := updated;
    }
  }
}
