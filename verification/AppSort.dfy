/** Ordering of the loaded apps by their dependencies (plinth/app.py).

    Apps name their dependencies freely: a dependency may be missing, may be the app itself or
    may close a cycle.  The sort drops the apps it cannot place.  The main result is that it
    drops no more than it must: what remains is exactly the least fixpoint of
    "all my dependencies are kept".
 */
module AppSort {

  type AppId = string

  datatype Info = Info(isEssential: bool, depends: seq<AppId>)

  type Apps = map<AppId, Info>

  // ---------- What "can be placed" means, independently of any order ----------

  ghost predicate PlaceableWithin(apps: Apps, n: nat, id: AppId) {
    id in apps && forall d | d in apps[id].depends :: n > 0 && PlaceableWithin(apps, n - 1, d)
  }

  /** The dependencies of the app can be satisfied, all the way down, in finitely many levels. */
  ghost predicate Placeable(apps: Apps, id: AppId) {
    exists n: nat :: PlaceableWithin(apps, n, id)
  }

  /** `s` holds every app whose dependencies it holds. */
  ghost predicate IsClosed(apps: Apps, s: set<AppId>) {
    forall id | id in apps && (forall d | d in apps[id].depends :: d in s) :: id in s
  }

  lemma {:induction false} PlaceableWithinMonotone(apps: Apps, n: nat, m: nat, id: AppId)
    requires PlaceableWithin(apps, n, id) && n <= m
    ensures PlaceableWithin(apps, m, id)
    decreases n
  {
    forall d | d in apps[id].depends ensures m > 0 && PlaceableWithin(apps, m - 1, d) {
      PlaceableWithinMonotone(apps, n - 1, m - 1, d);
    }
  }

  lemma {:induction false} CommonLevel(apps: Apps, ids: seq<AppId>) returns (n: nat)
    requires forall d | d in ids :: Placeable(apps, d)
    ensures forall d | d in ids :: PlaceableWithin(apps, n, d)
  {
    n := 0;
    if ids != [] {
      assert Placeable(apps, ids[0]);
      var k: nat :| PlaceableWithin(apps, k, ids[0]);
      var m := CommonLevel(apps, ids[1..]);
      n := if k < m then m else k;
      forall d | d in ids ensures PlaceableWithin(apps, n, d) {
        PlaceableWithinMonotone(apps, if d in ids[1..] then m else k, n, d);
      }
    }
  }

  lemma {:induction false} PlaceableInClosed(apps: Apps, n: nat, id: AppId, s: set<AppId>)
    requires PlaceableWithin(apps, n, id) && IsClosed(apps, s)
    ensures id in s
    decreases n
  {
    forall d | d in apps[id].depends ensures d in s {
      PlaceableInClosed(apps, n - 1, d, s);
    }
  }

  /** The placeable apps are the least set that holds every app whose dependencies it holds. */
  lemma PlaceableIsLeastFixpoint(apps: Apps, id: AppId)
    ensures Placeable(apps, id) <==> forall s | IsClosed(apps, s) :: id in s
    ensures Placeable(apps, id) <==> id in apps && forall d | d in apps[id].depends :: Placeable(apps, d)
  {
    var least := set x | x in apps && Placeable(apps, x);
    forall x | x in apps && forall d | d in apps[x].depends :: Placeable(apps, d)
      ensures Placeable(apps, x)
    {
      var n := CommonLevel(apps, apps[x].depends);
      assert PlaceableWithin(apps, n + 1, x);
    }
    assert IsClosed(apps, least);
    if Placeable(apps, id) {
      var n: nat :| PlaceableWithin(apps, n, id);
      forall d | d in apps[id].depends ensures Placeable(apps, d) {
        assert PlaceableWithin(apps, n - 1, d);
      }
      forall s | IsClosed(apps, s) ensures id in s {
        PlaceableInClosed(apps, n, id, s);
      }
    }
  }

  // ---------- What an order must satisfy ----------

  ghost predicate Distinct<T>(s: seq<T>) {
    forall i, j | 0 <= i < j < |s| :: s[i] != s[j]
  }

  ghost predicate AfterDependencies(apps: Apps, ordered: seq<AppId>) {
    forall i, d | 0 <= i < |ordered| && ordered[i] in apps && d in apps[ordered[i]].depends :: d in ordered[..i]
  }

  /** Some dependency of the app is neither placed nor still to be considered. */
  ghost predicate Blocked(apps: Apps, id: AppId, open: set<AppId>, ordered: seq<AppId>)
    requires id in apps
  {
    exists d | d in apps[id].depends :: d !in open && d !in ordered
  }

  lemma {:induction false} BlockedIsNotPlaceable(apps: Apps, ordered: seq<AppId>, n: nat, id: AppId)
    requires forall x | x in apps && x !in ordered :: Blocked(apps, x, {}, ordered)
    requires id !in ordered
    ensures !PlaceableWithin(apps, n, id)
    decreases n
  {
    if PlaceableWithin(apps, n, id) {
      var d :| d in apps[id].depends && d !in ordered;
      BlockedIsNotPlaceable(apps, ordered, n - 1, d);
    }
  }

  lemma PlacedBefore(apps: Apps, ordered: seq<AppId>, i: nat, d: AppId) returns (j: nat)
    requires AfterDependencies(apps, ordered)
    requires i < |ordered| && ordered[i] in apps && d in apps[ordered[i]].depends
    ensures j < i && ordered[j] == d
  {
    assert d in ordered[..i];
    j :| 0 <= j < i && ordered[..i][j] == d;
  }

  lemma OnePlaced(apps: Apps, ordered: seq<AppId>, i: nat)
    requires AfterDependencies(apps, ordered)
    requires i < |ordered| && ordered[i] in apps
    requires forall j | 0 <= j < i :: PlaceableWithin(apps, j, ordered[j])
    ensures PlaceableWithin(apps, i, ordered[i])
  {
    forall d | d in apps[ordered[i]].depends ensures i > 0 && PlaceableWithin(apps, i - 1, d) {
      var j := PlacedBefore(apps, ordered, i, d);
      PlaceableWithinMonotone(apps, j, i - 1, d);
    }
  }

  lemma {:induction false} PlacedArePlaceable(apps: Apps, ordered: seq<AppId>, n: nat)
    requires forall k | 0 <= k < |ordered| :: ordered[k] in apps
    requires AfterDependencies(apps, ordered)
    requires n <= |ordered|
    ensures forall i | 0 <= i < n :: PlaceableWithin(apps, i, ordered[i])
  {
    if n > 0 {
      PlacedArePlaceable(apps, ordered, n - 1);
      OnePlaced(apps, ordered, n - 1);
    }
  }

  /** An order in which every app follows its dependencies, and which misses only apps that miss
      a dependency in turn, holds exactly the placeable apps. */
  lemma OrderIsExact(apps: Apps, ordered: seq<AppId>)
    requires forall id | id in ordered :: id in apps
    requires AfterDependencies(apps, ordered)
    requires forall x | x in apps && x !in ordered :: Blocked(apps, x, {}, ordered)
    ensures forall id :: id in ordered <==> Placeable(apps, id)
  {
    PlacedArePlaceable(apps, ordered, |ordered|);
    forall id ensures id in ordered <==> Placeable(apps, id) {
      if id in ordered {
        var i :| 0 <= i < |ordered| && ordered[i] == id;
        assert PlaceableWithin(apps, i, ordered[i]);
      } else if Placeable(apps, id) {
        var n: nat :| PlaceableWithin(apps, n, id);
        BlockedIsNotPlaceable(apps, ordered, n, id);
      }
    }
  }

  // ---------- Transitive dependencies ----------

  ghost predicate ReachesWithin(apps: Apps, n: nat, a: AppId, b: AppId) {
    a == b || (n > 0 && a in apps && exists d | d in apps[a].depends :: ReachesWithin(apps, n - 1, d, b))
  }

  /** `b` is `a` itself or one of its transitive dependencies. */
  ghost predicate Reaches(apps: Apps, a: AppId, b: AppId) {
    exists n: nat :: ReachesWithin(apps, n, a, b)
  }

  lemma ReachesThrough(apps: Apps, a: AppId, d: AppId, b: AppId)
    requires a in apps && d in apps[a].depends && Reaches(apps, d, b)
    ensures Reaches(apps, a, b)
  {
    var n: nat :| ReachesWithin(apps, n, d, b);
    assert ReachesWithin(apps, n + 1, a, b);
  }

  // ---------- The search ----------

  /** The apps not yet considered, the apps placed so far, and whether the search goes on: a missing
      dependency abandons the whole call stack. */
  datatype Search = Search(remaining: Apps, ordered: seq<AppId>, ok: bool)

  predicate IsPart(some: Apps, apps: Apps) {
    forall id | id in some :: id in apps && some[id] == apps[id]
  }

  /** Place an app after its dependencies: depth first, in the order in which they are listed. */
  function Visit(apps: Apps, remaining: Apps, ordered: seq<AppId>, id: AppId): (r: Search)
    requires id in apps && IsPart(remaining, apps)
    ensures IsPart(r.remaining, remaining) && r.remaining.Keys <= remaining.Keys
    decreases remaining.Keys, 1, 0
  {
    if id in ordered then Search(remaining, ordered, true)
    else
      var s := VisitAll(apps, remaining, ordered, apps[id].depends);
      if s.ok then Search(s.remaining, s.ordered + [id], true) else s
  }

  function VisitAll(apps: Apps, remaining: Apps, ordered: seq<AppId>, ids: seq<AppId>): (r: Search)
    requires IsPart(remaining, apps)
    ensures IsPart(r.remaining, remaining) && r.remaining.Keys <= remaining.Keys
    decreases remaining.Keys, 0, |ids|
  {
    if ids == [] then Search(remaining, ordered, true)
    else if ids[0] in ordered then VisitAll(apps, remaining, ordered, ids[1..])
    else if ids[0] !in remaining then Search(remaining, ordered, false)
    else
      var s := Visit(apps, remaining - {ids[0]}, ordered, ids[0]);
      if s.ok then VisitAll(apps, s.remaining, s.ordered, ids[1..]) else s
  }

  // ---------- What the search keeps ----------

  /** `pending` are the apps taken from `remaining` whose insertion is still under way. */
  ghost predicate Consistent(apps: Apps, remaining: Apps, ordered: seq<AppId>, pending: set<AppId>) {
    && (forall id | id in remaining :: id in apps && remaining[id] == apps[id] && id !in pending)
    && Distinct(ordered)
    && (forall id | id in ordered :: id in apps && id !in remaining && id !in pending)
    && AfterDependencies(apps, ordered)
  }

  /** Every app that was taken and given up on misses a dependency that is gone for good; apps in
      `mayRecover` are not gone yet. */
  ghost predicate LostOnlyBlocked(apps: Apps, remaining: Apps, ordered: seq<AppId>,
                                  pending: set<AppId>, mayRecover: set<AppId>)
  {
    forall id | id in apps && id !in remaining && id !in ordered && id !in pending ::
      Blocked(apps, id, remaining.Keys + mayRecover, ordered)
  }

  lemma PlaceOne(apps: Apps, remaining: Apps, ordered: seq<AppId>, pending: set<AppId>, id: AppId)
    requires Consistent(apps, remaining, ordered, pending + {id})
    requires LostOnlyBlocked(apps, remaining, ordered, pending + {id}, pending + {id})
    requires id in apps && id !in pending && id !in remaining
    requires forall d | d in apps[id].depends :: d in ordered
    ensures Consistent(apps, remaining, ordered + [id], pending)
    ensures LostOnlyBlocked(apps, remaining, ordered + [id], pending, pending)
  {
    var placed := ordered + [id];
    forall i, d | 0 <= i < |placed| && placed[i] in apps && d in apps[placed[i]].depends
      ensures d in placed[..i]
    {
      assert placed[..i] == ordered[..i];
      if i < |ordered| {
        assert placed[i] == ordered[i];
      } else {
        assert ordered[..i] == ordered;
      }
    }
  }

  lemma GiveUp(apps: Apps, remaining: Apps, ordered: seq<AppId>, pending: set<AppId>,
               mayRecover: set<AppId>, id: AppId, d: AppId)
    requires LostOnlyBlocked(apps, remaining, ordered, pending + {id}, mayRecover)
    requires id in apps && d in apps[id].depends && d !in remaining && d !in ordered
    ensures LostOnlyBlocked(apps, remaining, ordered, pending, {})
  {
    forall x | x in apps && x !in remaining && x !in ordered && x !in pending
      ensures Blocked(apps, x, remaining.Keys + {}, ordered)
    {
      if x != id {
        assert Blocked(apps, x, remaining.Keys + mayRecover, ordered);
      }
    }
  }

  lemma ReachedThrough(apps: Apps, id: AppId, d: AppId, ordered: seq<AppId>, from: nat)
    requires id in apps && d in apps[id].depends
    requires forall k | from <= k < |ordered| :: Reaches(apps, d, ordered[k])
    ensures forall k | from <= k < |ordered| :: Reaches(apps, id, ordered[k])
  {
    forall k | from <= k < |ordered| ensures Reaches(apps, id, ordered[k]) {
      ReachesThrough(apps, id, d, ordered[k]);
    }
  }

  /** What a search adds to the order: apps that were remaining, all needed by the given one. */
  ghost predicate Extends(apps: Apps, remaining: Apps, ordered: seq<AppId>, ordered': seq<AppId>, id: AppId) {
    && ordered <= ordered'
    && forall k | |ordered| <= k < |ordered'| ::
        Reaches(apps, id, ordered'[k]) && (ordered'[k] == id || ordered'[k] in remaining)
  }

  lemma ExtendsThrough(apps: Apps, remaining: Apps, ordered: seq<AppId>, ordered': seq<AppId>, id: AppId, d: AppId)
    requires id in apps && d in apps[id].depends && d in remaining
    requires Extends(apps, remaining - {d}, ordered, ordered', d)
    ensures Extends(apps, remaining, ordered, ordered', id)
  {
    ReachedThrough(apps, id, d, ordered', |ordered|);
  }

  lemma ExtendsOn(apps: Apps, remaining: Apps, ordered: seq<AppId>, remaining1: Apps, ordered1: seq<AppId>,
                  ordered2: seq<AppId>, id: AppId)
    requires Extends(apps, remaining, ordered, ordered1, id) && Extends(apps, remaining1, ordered1, ordered2, id)
    requires remaining1.Keys <= remaining.Keys
    ensures Extends(apps, remaining, ordered, ordered2, id)
  {
    forall k | |ordered| <= k < |ordered2|
      ensures Reaches(apps, id, ordered2[k]) && (ordered2[k] == id || ordered2[k] in remaining)
    {
      if k < |ordered1| {
        assert ordered2[k] == ordered1[k];
      }
    }
  }

  /** Placing an app keeps the order; being abandoned loses only apps that miss a dependency for
      good, this one among them. */
  lemma {:induction false} VisitKeeps(apps: Apps, remaining: Apps, ordered: seq<AppId>, pending: set<AppId>, id: AppId)
    requires id in apps && id !in pending && id !in remaining && IsPart(remaining, apps)
    requires Consistent(apps, remaining, ordered, pending + if id in ordered then {} else {id})
    requires LostOnlyBlocked(apps, remaining, ordered, pending + {id}, pending + {id})
    ensures var r := Visit(apps, remaining, ordered, id);
            && Consistent(apps, r.remaining, r.ordered, pending)
            && Extends(apps, remaining, ordered, r.ordered, id)
            && (r.ok <==> id in r.ordered)
            && LostOnlyBlocked(apps, r.remaining, r.ordered, pending, if r.ok then pending else {})
    decreases remaining.Keys, 1, 0
  {
    if id !in ordered {
      VisitAllKeeps(apps, remaining, ordered, pending, id, apps[id].depends);
      var s := VisitAll(apps, remaining, ordered, apps[id].depends);
      if s.ok {
        PlaceOne(apps, s.remaining, s.ordered, pending, id);
        assert ReachesWithin(apps, 0, id, id);
      }
    }
  }

  lemma {:induction false} VisitAllKeeps(apps: Apps, remaining: Apps, ordered: seq<AppId>, pending: set<AppId>,
                                         id: AppId, ids: seq<AppId>)
    requires id in apps && id !in pending && id !in remaining && id !in ordered && IsPart(remaining, apps)
    requires forall d | d in ids :: d in apps[id].depends
    requires Consistent(apps, remaining, ordered, pending + {id})
    requires LostOnlyBlocked(apps, remaining, ordered, pending + {id}, pending + {id})
    ensures var r := VisitAll(apps, remaining, ordered, ids);
            && Consistent(apps, r.remaining, r.ordered, pending + {id})
            && Extends(apps, remaining, ordered, r.ordered, id) && id !in r.ordered
            && (r.ok ==> LostOnlyBlocked(apps, r.remaining, r.ordered, pending + {id}, pending + {id}))
            && (r.ok ==> forall d | d in ids :: d in r.ordered)
            && (!r.ok ==> LostOnlyBlocked(apps, r.remaining, r.ordered, pending, {}))
    decreases remaining.Keys, 0, |ids|
  {
    if ids != [] {
      var d, rest := ids[0], ids[1..];
      assert forall x | x in ids :: x == d || x in rest;
      if d in ordered {
        VisitAllKeeps(apps, remaining, ordered, pending, id, rest);
        PlacedStays(ordered, VisitAll(apps, remaining, ordered, rest).ordered, d);
      } else if d !in remaining {
        GiveUp(apps, remaining, ordered, pending, pending + {id}, id, d);
      } else {
        TakeKeeps(apps, remaining, ordered, pending + {id}, d);
        var s := Visit(apps, remaining - {d}, ordered, d);
        ExtendsThrough(apps, remaining, ordered, s.ordered, id, d);
        if s.ok {
          var after := VisitAll(apps, s.remaining, s.ordered, rest).ordered;
          VisitAllKeeps(apps, s.remaining, s.ordered, pending, id, rest);
          ExtendsOn(apps, remaining, ordered, s.remaining, s.ordered, after, id);
          PlacedStays(s.ordered, after, d);
        } else {
          GiveUp(apps, s.remaining, s.ordered, pending, {}, id, d);
        }
      }
    }
  }

  /** The dependencies that a visit places come in the order in which they are listed, but for those
      that an earlier listed one needs. */
  lemma VisitFollowsListing(apps: Apps, remaining: Apps, ordered: seq<AppId>, pending: set<AppId>, id: AppId,
                            a: nat, b: nat)
    requires id in apps && id !in pending && id !in remaining && id !in ordered && IsPart(remaining, apps)
    requires Consistent(apps, remaining, ordered, pending + {id})
    requires LostOnlyBlocked(apps, remaining, ordered, pending + {id}, pending + {id})
    ensures var r := Visit(apps, remaining, ordered, id);
            |ordered| <= a <= b < |r.ordered| && r.ordered[b] in apps[id].depends ==>
              NeededByTurn(apps, apps[id].depends, r.ordered[a], r.ordered[b])
  {
    var s := VisitAll(apps, remaining, ordered, apps[id].depends);
    VisitAllKeeps(apps, remaining, ordered, pending, id, apps[id].depends);
    if |ordered| <= a <= b < |s.ordered| && s.ordered[b] in apps[id].depends {
      AllFollowListing(apps, remaining, ordered, pending, id, apps[id].depends, a, b);
    }
  }

  lemma {:induction false} AllFollowListing(apps: Apps, remaining: Apps, ordered: seq<AppId>, pending: set<AppId>,
                                            id: AppId, ids: seq<AppId>, a: nat, b: nat)
    requires id in apps && id !in pending && id !in remaining && id !in ordered && IsPart(remaining, apps)
    requires forall d | d in ids :: d in apps[id].depends
    requires Consistent(apps, remaining, ordered, pending + {id})
    requires LostOnlyBlocked(apps, remaining, ordered, pending + {id}, pending + {id})
    ensures var r := VisitAll(apps, remaining, ordered, ids);
            |ordered| <= a <= b < |r.ordered| && r.ordered[b] in ids ==>
              NeededByTurn(apps, ids, r.ordered[a], r.ordered[b])
    decreases |ids|
  {
    var r := VisitAll(apps, remaining, ordered, ids).ordered;
    if |ordered| <= a <= b < |r| && r[b] in ids {
      var d, rest := ids[0], ids[1..];
      assert forall x | x in ids :: x == d || x in rest;
      VisitAllKeeps(apps, remaining, ordered, pending, id, ids);
      if d in ordered {
        PlacedOnce(r, ordered, b, d);
        AllFollowListing(apps, remaining, ordered, pending, id, rest, a, b);
        OneTurnLater(apps, ids, r[a], r[b]);
      } else if d in remaining {
        var s := Visit(apps, remaining - {d}, ordered, d);
        TakeKeeps(apps, remaining, ordered, pending + {id}, d);
        if s.ok {
          VisitAllKeeps(apps, s.remaining, s.ordered, pending, id, rest);
        }
        if a < |s.ordered| {
          assert r[a] == s.ordered[a];
          FirstTurn(apps, ids, r[a], r[b]);
        } else {
          PlacedOnce(r, s.ordered, b, d);
          AllFollowListing(apps, s.remaining, s.ordered, pending, id, rest, a, b);
          OneTurnLater(apps, ids, r[a], r[b]);
        }
      }
    }
  }

  /** An app that is placed already is not what is placed later. */
  lemma PlacedOnce(all: seq<AppId>, before: seq<AppId>, b: nat, d: AppId)
    requires before <= all && Distinct(all) && |before| <= b < |all| && d in before
    ensures all[b] != d
  {
    var i :| 0 <= i < |before| && before[i] == d;
    assert all[i] == d;
  }

  lemma FirstTurn(apps: Apps, ids: seq<AppId>, a: AppId, b: AppId)
    requires b in ids && Reaches(apps, ids[0], a)
    ensures NeededByTurn(apps, ids, a, b)
  {
    var q :| 0 <= q < |ids| && ids[q] == b;
    assert 0 <= 0 <= q;
  }

  lemma OneTurnLater(apps: Apps, ids: seq<AppId>, a: AppId, b: AppId)
    requires ids != [] && NeededByTurn(apps, ids[1..], a, b)
    ensures NeededByTurn(apps, ids, a, b)
  {
    var p, q :| 0 <= p <= q < |ids| - 1 && ids[1..][q] == b && Reaches(apps, ids[1..][p], a);
    assert ids[q + 1] == b && Reaches(apps, ids[p + 1], a);
  }

  lemma PlacedStays(ordered: seq<AppId>, ordered': seq<AppId>, d: AppId)
    requires ordered <= ordered' && d in ordered
    ensures d in ordered'
  {
  }

  /** The same for an app popped from the remaining ones. */
  lemma {:induction false} TakeKeeps(apps: Apps, remaining: Apps, ordered: seq<AppId>, pending: set<AppId>, id: AppId)
    requires id in remaining && IsPart(remaining, apps)
    requires Consistent(apps, remaining, ordered, pending)
    requires LostOnlyBlocked(apps, remaining, ordered, pending, pending)
    ensures var r := Visit(apps, remaining - {id}, ordered, id);
            && Consistent(apps, r.remaining, r.ordered, pending)
            && Extends(apps, remaining - {id}, ordered, r.ordered, id)
            && (r.ok <==> id in r.ordered)
            && LostOnlyBlocked(apps, r.remaining, r.ordered, pending, if r.ok then pending else {})
    decreases remaining.Keys, 0, 0
  {
    var rest := remaining - {id};
    assert rest.Keys == remaining.Keys - {id};
    TakenIsPending(apps, remaining, ordered, pending, id);
    VisitKeeps(apps, rest, ordered, pending, id);
  }

  lemma TakenIsPending(apps: Apps, remaining: Apps, ordered: seq<AppId>, pending: set<AppId>, id: AppId)
    requires id in remaining && IsPart(remaining, apps)
    requires Consistent(apps, remaining, ordered, pending)
    requires LostOnlyBlocked(apps, remaining, ordered, pending, pending)
    ensures Consistent(apps, remaining - {id}, ordered, pending + {id})
    ensures LostOnlyBlocked(apps, remaining - {id}, ordered, pending + {id}, pending + {id})
  {
    var rest := remaining - {id};
    forall x | x in apps && x !in rest && x !in ordered && x !in pending + {id}
      ensures Blocked(apps, x, rest.Keys + (pending + {id}), ordered)
    {
      assert Blocked(apps, x, remaining.Keys + pending, ordered);
    }
  }

  /** The working lists of one sort. */
  class Sorter {
    var remaining: Apps
    var ordered: seq<AppId>
    ghost const apps: Apps

    constructor (apps: Apps)
      ensures remaining == apps && ordered == [] && this.apps == apps
    {
      remaining, ordered, this.apps := apps, [], apps;
    }

    ghost function Result(ok: bool): Search
      reads this
    {
      Search(remaining, ordered, ok)
    }

    /** Place `appId` after its dependencies; false stands for the KeyError that abandons the
        whole call stack. */
    method InsertApps(appId: AppId, app: Info) returns (ok: bool)
      requires appId in apps && app == apps[appId] && IsPart(remaining, apps)
      modifies this
      ensures Result(ok) == Visit(apps, old(remaining), old(ordered), appId)
      decreases remaining.Keys
    {
      if appId in ordered {
        return true;
      }
      for i := 0 to |app.depends|
        invariant IsPart(remaining, apps) && remaining.Keys <= old(remaining.Keys)
        invariant VisitAll(apps, old(remaining), old(ordered), app.depends) ==
                  VisitAll(apps, remaining, ordered, app.depends[i..])
      {
        var dependency := app.depends[i];
        assert app.depends[i..][1..] == app.depends[i + 1..];
        if dependency !in ordered {
          if dependency !in remaining {
            return false;
          }
          var next := remaining[dependency];
          remaining := remaining - {dependency};
          ok := InsertApps(dependency, next);
          if !ok {
            return;
          }
        }
      }
      ordered := ordered + [appId];
      ok := true;
    }

    /** The loop over the apps, essential ones first; an abandoned insertion is only logged. */
    method InsertInTurns(turns: seq<AppId>)
      requires IsPart(remaining, apps)
      modifies this
      ensures ordered == VisitTurns(apps, old(remaining), old(ordered), turns)
    {
      for turn := 0 to |turns|
        invariant IsPart(remaining, apps)
        invariant VisitTurns(apps, old(remaining), old(ordered), turns) ==
                    VisitTurns(apps, remaining, ordered, turns[turn..])
      {
        var id := turns[turn];
        assert turns[turn..][1..] == turns[turn + 1..];
        if id in remaining {
          var app := remaining[id];
          remaining := remaining - {id};
          var _ := InsertApps(id, app);
        }
      }
    }
  }

  // ---------- The whole sort ----------

  function Select(ids: seq<AppId>, apps: Apps, essential: bool): (r: seq<AppId>)
    requires forall id | id in ids :: id in apps
    ensures forall id :: id in r <==> id in ids && apps[id].isEssential == essential
  {
    if ids == [] then []
    else (if apps[ids[0]].isEssential == essential then [ids[0]] else []) + Select(ids[1..], apps, essential)
  }

  /** The apps in the order of their turns: stable, essential ones first. */
  function Turns(ids: seq<AppId>, apps: Apps): (r: seq<AppId>)
    requires forall id | id in ids :: id in apps
    ensures forall id :: id in r <==> id in ids
  {
    Select(ids, apps, true) + Select(ids, apps, false)
  }

  lemma TurnsAreEssentialFirst(ids: seq<AppId>, apps: Apps, p: nat, q: nat)
    requires forall id | id in ids :: id in apps
    requires p <= q < |Turns(ids, apps)|
    ensures apps[Turns(ids, apps)[q]].isEssential ==> apps[Turns(ids, apps)[p]].isEssential
  {
    var first, rest := Select(ids, apps, true), Select(ids, apps, false);
    if q >= |first| {
      assert Turns(ids, apps)[q] == rest[q - |first|];
    } else {
      assert Turns(ids, apps)[p] == first[p];
    }
  }

  ghost predicate Precedes(ids: seq<AppId>, a: AppId, b: AppId) {
    exists p, q | 0 <= p <= q < |ids| :: ids[p] == a && ids[q] == b
  }

  /** In the order in which apps are loaded, essential ones first, `a` does not come after `b`. */
  ghost predicate NotAfter(ids: seq<AppId>, apps: Apps, a: AppId, b: AppId) {
    && a in apps && b in apps
    && if apps[a].isEssential != apps[b].isEssential then apps[a].isEssential else Precedes(ids, a, b)
  }

  lemma FirstPrecedes(ids: seq<AppId>, b: AppId)
    requires b in ids
    ensures Precedes(ids, ids[0], b)
  {
    var q :| 0 <= q < |ids| && ids[q] == b;
    assert 0 <= 0 <= q;
  }

  lemma LaterPrecedes(ids: seq<AppId>, a: AppId, b: AppId)
    requires ids != [] && Precedes(ids[1..], a, b)
    ensures Precedes(ids, a, b)
  {
    var p, q :| 0 <= p <= q < |ids| - 1 && ids[1..][p] == a && ids[1..][q] == b;
    assert ids[p + 1] == a && ids[q + 1] == b;
  }

  lemma {:induction false} SelectKeepsOrder(ids: seq<AppId>, apps: Apps, essential: bool, k: nat, l: nat)
    requires forall id | id in ids :: id in apps
    requires k <= l < |Select(ids, apps, essential)|
    ensures var s := Select(ids, apps, essential); Precedes(ids, s[k], s[l])
  {
    var s, rest := Select(ids, apps, essential), Select(ids[1..], apps, essential);
    if apps[ids[0]].isEssential != essential {
      assert s == rest;
      SelectKeepsOrder(ids[1..], apps, essential, k, l);
      LaterPrecedes(ids, s[k], s[l]);
    } else if k > 0 {
      assert s == [ids[0]] + rest;
      SelectKeepsOrder(ids[1..], apps, essential, k - 1, l - 1);
      LaterPrecedes(ids, s[k], s[l]);
    } else {
      assert s == [ids[0]] + rest && s[l] in s;
      FirstPrecedes(ids, s[l]);
    }
  }

  lemma {:induction false} SelectSplits(ids: seq<AppId>, apps: Apps, id: AppId)
    requires forall x | x in ids :: x in apps
    ensures multiset(Select(ids, apps, true))[id] + multiset(Select(ids, apps, false))[id] == multiset(ids)[id]
  {
    if ids != [] {
      var x, rest := ids[0], ids[1..];
      SelectSplits(rest, apps, id);
      assert ids == [x] + rest;
      CountCons(x, rest, id);
      CountCons(x, Select(rest, apps, apps[x].isEssential), id);
      assert Select(ids, apps, apps[x].isEssential) == [x] + Select(rest, apps, apps[x].isEssential);
      assert Select(ids, apps, !apps[x].isEssential) == Select(rest, apps, !apps[x].isEssential);
    }
  }

  lemma CountCons(x: AppId, s: seq<AppId>, id: AppId)
    ensures multiset([x] + s)[id] == multiset(s)[id] + if x == id then 1 else 0
  {
  }

  lemma TurnNotAfter(ids: seq<AppId>, apps: Apps, p: nat, q: nat)
    requires forall id | id in ids :: id in apps
    requires p <= q < |Turns(ids, apps)|
    ensures NotAfter(ids, apps, Turns(ids, apps)[p], Turns(ids, apps)[q])
  {
    var first, rest, turns := Select(ids, apps, true), Select(ids, apps, false), Turns(ids, apps);
    if q < |first| {
      SelectKeepsOrder(ids, apps, true, p, q);
      assert turns[p] in first && turns[q] in first;
    } else if p >= |first| {
      SelectKeepsOrder(ids, apps, false, p - |first|, q - |first|);
      assert turns[p] == rest[p - |first|] && turns[q] == rest[q - |first|];
      assert turns[p] in rest && turns[q] in rest;
    } else {
      assert turns[q] == rest[q - |first|];
      assert turns[p] in first && turns[q] in rest;
    }
  }

  /** Every app has its turns as often as it is loaded, and of two turns the later one is not of an
      app that comes before. */
  lemma TurnsFollowLoading(ids: seq<AppId>, apps: Apps)
    requires forall id | id in ids :: id in apps
    ensures multiset(Turns(ids, apps)) == multiset(ids)
    ensures var turns := Turns(ids, apps);
            forall p, q | 0 <= p <= q < |turns| :: NotAfter(ids, apps, turns[p], turns[q])
  {
    forall id ensures multiset(Turns(ids, apps))[id] == multiset(ids)[id] {
      SelectSplits(ids, apps, id);
    }
    forall p, q | 0 <= p <= q < |Turns(ids, apps)|
      ensures NotAfter(ids, apps, Turns(ids, apps)[p], Turns(ids, apps)[q])
    {
      TurnNotAfter(ids, apps, p, q);
    }
  }

  /** `a` is needed by an app that does not come after `b` in the order of loading. */
  ghost predicate NeededByLoading(ids: seq<AppId>, apps: Apps, a: AppId, b: AppId) {
    exists e :: NotAfter(ids, apps, e, b) && Reaches(apps, e, a)
  }

  /** Where an app is placed before another one, it is needed by an app that does not come after
      that one in the order of loading, essential ones first. */
  ghost predicate FollowsLoading(ids: seq<AppId>, apps: Apps, ordered: seq<AppId>) {
    forall i, j | 0 <= i <= j < |ordered| :: NeededByLoading(ids, apps, ordered[i], ordered[j])
  }

  lemma OrderFollowsLoading(ids: seq<AppId>, apps: Apps, ordered: seq<AppId>)
    requires forall id | id in ids :: id in apps
    requires IsDependencyOrder(apps, Turns(ids, apps), ordered)
    ensures FollowsLoading(ids, apps, ordered)
  {
    var turns := Turns(ids, apps);
    TurnsFollowLoading(ids, apps);
    forall i, j | 0 <= i <= j < |ordered| ensures NeededByLoading(ids, apps, ordered[i], ordered[j]) {
      assert NeededByTurn(apps, turns, ordered[i], ordered[j]);
      var p, q :| 0 <= p <= q < |turns| && turns[q] == ordered[j] && Reaches(apps, turns[p], ordered[i]);
      assert NotAfter(ids, apps, turns[p], turns[q]);
    }
  }

  /** Without any dependencies the order is that of loading, essential apps first. */
  lemma WithoutDependencies(ids: seq<AppId>, apps: Apps, ordered: seq<AppId>)
    requires forall id | id in apps :: apps[id].depends == []
    requires FollowsLoading(ids, apps, ordered)
    ensures forall i, j | 0 <= i <= j < |ordered| :: NotAfter(ids, apps, ordered[i], ordered[j])
  {
    forall i, j | 0 <= i <= j < |ordered| ensures NotAfter(ids, apps, ordered[i], ordered[j]) {
      assert NeededByLoading(ids, apps, ordered[i], ordered[j]);
      var e :| NotAfter(ids, apps, e, ordered[j]) && Reaches(apps, e, ordered[i]);
      var n: nat :| ReachesWithin(apps, n, e, ordered[i]);
    }
  }

  /** `a` is needed by an app whose turn is not after the turn of `b`. */
  ghost predicate NeededByTurn(apps: Apps, turns: seq<AppId>, a: AppId, b: AppId) {
    exists p, q | 0 <= p <= q < |turns| :: turns[q] == b && Reaches(apps, turns[p], a)
  }

  /** What the sort promises about its result. */
  ghost predicate IsDependencyOrder(apps: Apps, turns: seq<AppId>, ordered: seq<AppId>) {
    && Distinct(ordered)
    && AfterDependencies(apps, ordered)
    && (forall id :: id in ordered <==> Placeable(apps, id))
    && (forall i, j | 0 <= i <= j < |ordered| :: NeededByTurn(apps, turns, ordered[i], ordered[j]))
  }

  /** An app that is not essential comes before an essential one only as a transitive dependency
      of some essential app. */
  lemma EssentialAppsComeFirst(ids: seq<AppId>, apps: Apps, ordered: seq<AppId>, i: nat, j: nat)
    requires forall id | id in ids :: id in apps
    requires IsDependencyOrder(apps, Turns(ids, apps), ordered)
    requires i < j < |ordered| && ordered[j] in ids && apps[ordered[j]].isEssential
    ensures exists e :: e in apps && apps[e].isEssential && Reaches(apps, e, ordered[i])
  {
    var turns := Turns(ids, apps);
    assert NeededByTurn(apps, turns, ordered[i], ordered[j]);
    var p, q :| 0 <= p <= q < |turns| && turns[q] == ordered[j] && Reaches(apps, turns[p], ordered[i]);
    TurnsAreEssentialFirst(ids, apps, p, q);
    assert turns[p] in apps;
  }

  /** `blocks[k]` is the turn during which `ordered[k]` was placed. */
  ghost predicate PlacedInTurns(apps: Apps, turns: seq<AppId>, ordered: seq<AppId>, blocks: seq<nat>, turn: nat) {
    && |blocks| == |ordered|
    && (forall k | 0 <= k < |blocks| :: blocks[k] < turn && blocks[k] < |turns|)
    && (forall k, l | 0 <= k <= l < |blocks| :: blocks[k] <= blocks[l])
    && (forall k | 0 <= k < |blocks| :: Reaches(apps, turns[blocks[k]], ordered[k]))
    && NotAfterOwnTurn(turns, ordered, blocks)
  }

  /** None of the apps still remaining has had its turn. */
  ghost predicate TurnsToCome(turns: seq<AppId>, remaining: set<AppId>, turn: nat) {
    forall k | 0 <= k < turn && k < |turns| :: turns[k] !in remaining
  }

  /** The state of a sort before the given turn. */
  ghost predicate Progress(apps: Apps, turns: seq<AppId>, remaining: Apps, ordered: seq<AppId>,
                           blocks: seq<nat>, turn: nat)
  {
    && Consistent(apps, remaining, ordered, {})
    && LostOnlyBlocked(apps, remaining, ordered, {}, {})
    && TurnsToCome(turns, remaining.Keys, turn)
    && PlacedInTurns(apps, turns, ordered, blocks, turn)
  }

  lemma TurnDone(apps: Apps, turns: seq<AppId>, remaining: Apps, ordered: seq<AppId>, blocks: seq<nat>, turn: nat,
                 remaining': Apps, ordered': seq<AppId>) returns (blocks': seq<nat>)
    requires Progress(apps, turns, remaining, ordered, blocks, turn) && turn < |turns|
    requires Consistent(apps, remaining', ordered', {}) && LostOnlyBlocked(apps, remaining', ordered', {}, {})
    requires remaining'.Keys <= remaining.Keys && turns[turn] !in remaining'
    requires Extends(apps, remaining, ordered, ordered', turns[turn])
    requires |ordered'| > |ordered| ==> turns[turn] in remaining
    ensures Progress(apps, turns, remaining', ordered', blocks', turn + 1)
  {
    blocks' := blocks + seq(|ordered'| - |ordered|, _ => turn);
    PlacedInOwnTurn(turns, remaining.Keys, ordered, blocks, turn, ordered', blocks');
  }

  /** Nothing is placed after its own turn. */
  ghost predicate NotAfterOwnTurn(turns: seq<AppId>, ordered: seq<AppId>, blocks: seq<nat>)
    requires |blocks| == |ordered|
  {
    forall k, q | 0 <= k < |blocks| && 0 <= q < |turns| && turns[q] == ordered[k] :: blocks[k] <= q
  }

  lemma PlacedInOwnTurn(turns: seq<AppId>, remaining: set<AppId>, ordered: seq<AppId>, blocks: seq<nat>, turn: nat,
                         ordered': seq<AppId>, blocks': seq<nat>)
    requires |blocks| == |ordered| <= |blocks'| == |ordered'| && ordered <= ordered' && blocks <= blocks'
    requires NotAfterOwnTurn(turns, ordered, blocks) && TurnsToCome(turns, remaining, turn)
    requires forall k | |ordered| <= k < |ordered'| :: ordered'[k] in remaining && blocks'[k] == turn
    ensures NotAfterOwnTurn(turns, ordered', blocks')
  {
    forall k, q | 0 <= k < |blocks'| && 0 <= q < |turns| && turns[q] == ordered'[k] ensures blocks'[k] <= q {
      if k < |ordered| {
        assert ordered'[k] == ordered[k] && blocks'[k] == blocks[k];
      }
    }
  }

  lemma BlocksGiveTurns(apps: Apps, turns: seq<AppId>, ordered: seq<AppId>, blocks: seq<nat>, turn: nat)
    requires PlacedInTurns(apps, turns, ordered, blocks, turn)
    requires forall id | id in ordered :: id in turns
    ensures forall i, j | 0 <= i <= j < |ordered| :: NeededByTurn(apps, turns, ordered[i], ordered[j])
  {
    forall i, j | 0 <= i <= j < |ordered| ensures NeededByTurn(apps, turns, ordered[i], ordered[j]) {
      assert ordered[j] in turns;
      var q :| 0 <= q < |turns| && turns[q] == ordered[j];
      assert NotAfterOwnTurn(turns, ordered, blocks);
      assert blocks[i] <= blocks[j] <= q;
    }
  }

  lemma AllTurnsDone(apps: Apps, turns: seq<AppId>, remaining: Apps, ordered: seq<AppId>, blocks: seq<nat>)
    requires forall id :: id in turns <==> id in apps
    requires Progress(apps, turns, remaining, ordered, blocks, |turns|)
    ensures IsDependencyOrder(apps, turns, ordered)
    ensures forall id | id in ordered :: id in apps
  {
    assert remaining.Keys + {} == {};
    BlocksGiveTurns(apps, turns, ordered, blocks, |turns|);
    OrderIsExact(apps, ordered);
  }

  /** The placed apps after each of the turns: apps that remain are visited, and a visit that is
      abandoned leaves what it has placed. */
  function VisitTurns(apps: Apps, remaining: Apps, ordered: seq<AppId>, turns: seq<AppId>): seq<AppId>
    requires IsPart(remaining, apps)
  {
    if turns == [] then ordered
    else if turns[0] !in remaining then VisitTurns(apps, remaining, ordered, turns[1..])
    else
      var s := Visit(apps, remaining - {turns[0]}, ordered, turns[0]);
      VisitTurns(apps, s.remaining, s.ordered, turns[1..])
  }

  lemma {:induction false} TurnsKeepProgress(apps: Apps, turns: seq<AppId>, remaining: Apps, ordered: seq<AppId>,
                                             blocks: seq<nat>, turn: nat)
    returns (remaining': Apps, blocks': seq<nat>)
    requires turn <= |turns| && IsPart(remaining, apps) && Progress(apps, turns, remaining, ordered, blocks, turn)
    ensures Progress(apps, turns, remaining', VisitTurns(apps, remaining, ordered, turns[turn..]), blocks', |turns|)
    decreases |turns| - turn
  {
    remaining', blocks' := remaining, blocks;
    if turn < |turns| {
      var id, s := turns[turn], Search(remaining, ordered, true);
      assert turns[turn..][1..] == turns[turn + 1..];
      if id in remaining {
        TakeKeeps(apps, remaining, ordered, {}, id);
        s := Visit(apps, remaining - {id}, ordered, id);
      }
      blocks' := TurnDone(apps, turns, remaining, ordered, blocks, turn, s.remaining, s.ordered);
      remaining', blocks' := TurnsKeepProgress(apps, turns, s.remaining, s.ordered, blocks', turn + 1);
    }
  }

  /** The sort keeps exactly the placeable apps, in an order of dependencies and turns. */
  lemma SortedIsDependencyOrder(apps: Apps, turns: seq<AppId>)
    requires forall id :: id in turns <==> id in apps
    ensures IsDependencyOrder(apps, turns, VisitTurns(apps, apps, [], turns))
    ensures forall id | id in VisitTurns(apps, apps, [], turns) :: id in apps
  {
    var remaining, blocks := TurnsKeepProgress(apps, turns, apps, [], [], 0);
    assert turns[0..] == turns;
    AllTurnsDone(apps, turns, remaining, VisitTurns(apps, apps, [], turns), blocks);
  }

  /** The global list of apps, in order. */
  class AppRegistry {
    var ids: seq<AppId>
    var apps: Apps

    ghost predicate Valid()
      reads this
    {
      Distinct(ids) && forall id :: id in ids <==> id in apps
    }

    method SortApps()
      requires Valid()
      modifies this
      ensures Valid()
      ensures ids == VisitTurns(old(apps), old(apps), [], Turns(old(ids), old(apps)))
      ensures IsDependencyOrder(old(apps), Turns(old(ids), old(apps)), ids)
      ensures FollowsLoading(old(ids), old(apps), ids)
      ensures forall id | id in apps :: apps[id] == old(apps)[id]
    {
      var sorter := new Sorter(apps);
      var turns := Turns(ids, apps);
      sorter.InsertInTurns(turns);
      SortedIsDependencyOrder(apps, turns);
      OrderFollowsLoading(ids, apps, sorter.ordered);
      var newApps := map id | id in sorter.ordered :: apps[id];
      ids, apps := sorter.ordered, newApps;
    }
  }
}
