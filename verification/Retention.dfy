/** The archives of a backup repository: their order, the recency lookup and the cleanup that
    deletes old scheduled archives (plinth/modules/backups/schedule.py). */
module Retention {
  import opened Calendar

  datatype Period = Daily | Weekly | Monthly

  function Name(p: Period): string {
    match p
    case Daily => "daily"
    case Weekly => "weekly"
    case Monthly => "monthly"
  }

  /** What the comment of an archive decodes to. */
  datatype Comment = NotJson | NotScheduled | Scheduled(periods: seq<string>)

  datatype Archive = Archive(name: string, start: DateTime, comment: Comment)

  predicate InPeriod(a: Archive, p: Period) {
    a.comment.Scheduled? && Name(p) in a.comment.periods
  }

  /** Scheduled, and not dated in the future. */
  predicate Counts(a: Archive, now: DateTime) {
    a.comment.Scheduled? && Instant(a.start) <= Instant(now)
  }

  function Filter(keep: Archive -> bool, s: seq<Archive>): seq<Archive> {
    if s == [] then []
    else if keep(s[0]) then [s[0]] + Filter(keep, s[1..])
    else Filter(keep, s[1..])
  }

  lemma {:induction false} FilterMembers(keep: Archive -> bool, s: seq<Archive>)
    ensures forall a :: a in Filter(keep, s) <==> a in s && keep(a)
  {
    if s != [] {
      FilterMembers(keep, s[1..]);
      assert forall a :: a in s <==> a == s[0] || a in s[1..];
    }
  }

  lemma FilterCons(keep: Archive -> bool, a: Archive, s: seq<Archive>)
    ensures Filter(keep, [a] + s) == if keep(a) then [a] + Filter(keep, s) else Filter(keep, s)
  {
    assert ([a] + s)[1..] == s;
  }

  lemma {:induction false} FilterConcat(keep: Archive -> bool, s: seq<Archive>, t: seq<Archive>)
    ensures Filter(keep, s + t) == Filter(keep, s) + Filter(keep, t)
  {
    if s == [] {
      assert s + t == t;
    } else {
      var rest := s[1..];
      assert s + t == [s[0]] + (rest + t);
      FilterCons(keep, s[0], rest + t);
      FilterConcat(keep, rest, t);
    }
  }

  lemma FilterSnoc(keep: Archive -> bool, s: seq<Archive>, a: Archive)
    ensures Filter(keep, s + [a]) == if keep(a) then Filter(keep, s) + [a] else Filter(keep, s)
  {
    FilterConcat(keep, s, [a]);
    FilterCons(keep, a, []);
    assert [a] + [] == [a];
  }

  // ---------- Newest first ----------

  /** Python's stable sort by start time in reverse. */
  function NewestFirst(s: seq<Archive>): seq<Archive> {
    if s == [] then [] else Insert(s[0], NewestFirst(s[1..]))
  }

  function Insert(a: Archive, s: seq<Archive>): seq<Archive> {
    if s == [] || Instant(s[0].start) <= Instant(a.start) then [a] + s else [s[0]] + Insert(a, s[1..])
  }

  ghost predicate IsNewestFirst(s: seq<Archive>) {
    forall i, j | 0 <= i < j < |s| :: Instant(s[j].start) <= Instant(s[i].start)
  }

  lemma {:induction false} InsertSorts(a: Archive, s: seq<Archive>)
    requires IsNewestFirst(s)
    ensures IsNewestFirst(Insert(a, s))
    ensures forall x :: x in Insert(a, s) <==> x == a || x in s
  {
    if s != [] && Instant(s[0].start) > Instant(a.start) {
      var rest := s[1..];
      InsertSorts(a, rest);
      assert forall x :: x in s <==> x == s[0] || x in rest;
      NewestOnTop(s[0], Insert(a, rest));
    }
  }

  lemma {:induction false} InsertKeepsAll(a: Archive, s: seq<Archive>)
    ensures multiset(Insert(a, s)) == multiset(s) + multiset{a}
  {
    if s != [] && Instant(s[0].start) > Instant(a.start) {
      InsertKeepsAll(a, s[1..]);
      assert s == [s[0]] + s[1..];
    }
  }

  lemma NewestOnTop(a: Archive, s: seq<Archive>)
    requires IsNewestFirst(s) && forall x | x in s :: Instant(x.start) <= Instant(a.start)
    ensures IsNewestFirst([a] + s)
  {
  }

  lemma {:induction false} NewestFirstKeepsAll(s: seq<Archive>)
    ensures multiset(NewestFirst(s)) == multiset(s)
  {
    if s != [] {
      var rest := s[1..];
      NewestFirstKeepsAll(rest);
      InsertKeepsAll(s[0], NewestFirst(rest));
      assert s == [s[0]] + rest;
      assert multiset(s) == multiset{s[0]} + multiset(rest);
    }
  }

  lemma {:induction false} NewestFirstSorts(s: seq<Archive>)
    ensures IsNewestFirst(NewestFirst(s))
    ensures multiset(NewestFirst(s)) == multiset(s)
    ensures forall x :: x in NewestFirst(s) <==> x in s
  {
    NewestFirstKeepsAll(s);
    forall x ensures x in NewestFirst(s) <==> x in s {
      assert x in multiset(NewestFirst(s)) <==> x in multiset(s);
    }
    if s != [] {
      NewestFirstSorts(s[1..]);
      InsertSorts(s[0], NewestFirst(s[1..]));
    }
  }

  lemma InsertOnTop(a: Archive, s: seq<Archive>)
    requires forall x | x in s :: Instant(x.start) <= Instant(a.start)
    ensures Insert(a, s) == [a] + s
  {
    if s != [] {
      assert s[0] in s;
    }
  }

  lemma {:induction false} FilterInsert(keep: Archive -> bool, a: Archive, s: seq<Archive>)
    requires IsNewestFirst(s)
    ensures Filter(keep, Insert(a, s)) == if keep(a) then Insert(a, Filter(keep, s)) else Filter(keep, s)
  {
    var r := Filter(keep, s);
    if s == [] || Instant(s[0].start) <= Instant(a.start) {
      FilterCons(keep, a, s);
      FilterMembers(keep, s);
      InsertOnTop(a, r);
    } else {
      var rest := s[1..];
      FilterInsert(keep, a, rest);
      FilterCons(keep, s[0], Insert(a, rest));
      InsertBelow(a, s[0], Filter(keep, rest));
    }
  }

  lemma InsertBelow(a: Archive, x: Archive, s: seq<Archive>)
    requires Instant(x.start) > Instant(a.start)
    ensures Insert(a, [x] + s) == [x] + Insert(a, s)
  {
    assert ([x] + s)[1..] == s;
  }

  /** Deleting archives and sorting commute. */
  lemma {:induction false} FilterNewestFirst(keep: Archive -> bool, s: seq<Archive>)
    ensures NewestFirst(Filter(keep, s)) == Filter(keep, NewestFirst(s))
  {
    if s != [] {
      var rest := s[1..];
      FilterNewestFirst(keep, rest);
      NewestFirstSorts(rest);
      FilterInsert(keep, s[0], NewestFirst(rest));
      if keep(s[0]) {
        NewestFirstCons(s[0], Filter(keep, rest));
      }
    }
  }

  lemma NewestFirstCons(a: Archive, s: seq<Archive>)
    ensures NewestFirst([a] + s) == Insert(a, NewestFirst(s))
  {
    assert ([a] + s)[1..] == s;
  }

  function StartedAt(instant: int): Archive -> bool {
    (a: Archive) => Instant(a.start) == instant
  }

  /** The result of a stable sort: newest first, the same archives, and those that started at the
      same instant in the order they had. */
  ghost predicate IsStablySorted(r: seq<Archive>, s: seq<Archive>) {
    && IsNewestFirst(r)
    && multiset(r) == multiset(s)
    && forall t :: Filter(StartedAt(t), r) == Filter(StartedAt(t), s)
  }

  lemma {:induction false} SortedAlready(s: seq<Archive>, t: int)
    requires forall x | x in s :: Instant(x.start) == t
    ensures NewestFirst(s) == s
  {
    if s != [] {
      SortedAlready(s[1..], t);
      InsertOnTop(s[0], s[1..]);
    }
  }

  lemma NewestFirstIsStable(s: seq<Archive>)
    ensures IsStablySorted(NewestFirst(s), s)
  {
    NewestFirstSorts(s);
    forall t ensures Filter(StartedAt(t), NewestFirst(s)) == Filter(StartedAt(t), s) {
      FilterNewestFirst(StartedAt(t), s);
      FilterMembers(StartedAt(t), s);
      SortedAlready(Filter(StartedAt(t), s), t);
    }
  }

  /** A list in order is at least as new at its head as everything in it. */
  lemma NotNewerThanHead(s: seq<Archive>, x: Archive)
    requires IsNewestFirst(s) && x in s
    ensures Instant(x.start) <= Instant(s[0].start)
  {
  }

  lemma SameHead(a: seq<Archive>, b: seq<Archive>)
    requires IsNewestFirst(a) && IsNewestFirst(b) && a != [] && b != []
    requires forall t :: Filter(StartedAt(t), a) == Filter(StartedAt(t), b)
    ensures a[0] == b[0]
  {
    var t, u := Instant(a[0].start), Instant(b[0].start);
    FilterMembers(StartedAt(t), a);
    FilterMembers(StartedAt(t), b);
    FilterMembers(StartedAt(u), a);
    FilterMembers(StartedAt(u), b);
    assert a[0] in Filter(StartedAt(t), b) && b[0] in Filter(StartedAt(u), a);
    NotNewerThanHead(b, a[0]);
    NotNewerThanHead(a, b[0]);
    assert Filter(StartedAt(t), a)[0] == a[0] && Filter(StartedAt(t), b)[0] == b[0];
  }

  lemma NothingStarted(s: seq<Archive>)
    requires forall t :: Filter(StartedAt(t), s) == []
    ensures s == []
  {
    if s != [] {
      FilterMembers(StartedAt(Instant(s[0].start)), s);
    }
  }

  lemma {:induction false} SameOrder(a: seq<Archive>, b: seq<Archive>)
    requires IsNewestFirst(a) && IsNewestFirst(b)
    requires forall t :: Filter(StartedAt(t), a) == Filter(StartedAt(t), b)
    ensures a == b
  {
    if a == [] {
      NothingStarted(b);
    } else if b == [] {
      NothingStarted(a);
    } else {
      SameHead(a, b);
      forall t ensures Filter(StartedAt(t), a[1..]) == Filter(StartedAt(t), b[1..]) {
        SameTail(StartedAt(t), a, b);
      }
      SameOrder(a[1..], b[1..]);
      assert a == [a[0]] + a[1..] && b == [b[0]] + b[1..];
    }
  }

  lemma SameTail(keep: Archive -> bool, a: seq<Archive>, b: seq<Archive>)
    requires a != [] && b != [] && a[0] == b[0] && Filter(keep, a) == Filter(keep, b)
    ensures Filter(keep, a[1..]) == Filter(keep, b[1..])
  {
    var x, y := Filter(keep, a[1..]), Filter(keep, b[1..]);
    if keep(a[0]) {
      assert ([a[0]] + x)[1..] == x && ([b[0]] + y)[1..] == y;
    }
  }

  /** There is one stable order. */
  lemma StableOrderIsUnique(r: seq<Archive>, s: seq<Archive>)
    requires IsStablySorted(r, s)
    ensures r == NewestFirst(s)
  {
    NewestFirstIsStable(s);
    SameOrder(r, NewestFirst(s));
  }

  /** The archives due to the schedule, newest first. */
  function Listed(archives: seq<Archive>, now: DateTime): seq<Archive> {
    Filter(a => Counts(a, now), NewestFirst(archives))
  }

  lemma {:induction false} FilterKeepsOrder(keep: Archive -> bool, s: seq<Archive>)
    requires IsNewestFirst(s)
    ensures IsNewestFirst(Filter(keep, s))
  {
    if s != [] {
      FilterKeepsOrder(keep, s[1..]);
      FilterMembers(keep, s[1..]);
      NewestOnTop(s[0], Filter(keep, s[1..]));
    }
  }

  lemma ListedOrder(archives: seq<Archive>, now: DateTime)
    ensures IsNewestFirst(Listed(archives, now))
    ensures forall a :: a in Listed(archives, now) <==> a in archives && Counts(a, now)
  {
    NewestFirstSorts(archives);
    FilterKeepsOrder(a => Counts(a, now), NewestFirst(archives));
    FilterMembers(a => Counts(a, now), NewestFirst(archives));
  }

  // ---------- The most recent backup of a period ----------

  /** The loop of the lookup, one archive after the other. */
  function Recent(listed: seq<Archive>, p: Period): DateTime {
    if listed == [] then MIN
    else
      var last := |listed| - 1;
      var time := Recent(listed[..last], p);
      if InPeriod(listed[last], p) && Instant(time) < Instant(listed[last].start) then listed[last].start else time
  }

  /** `t` is the start of a newest archive of the period, or the beginning of time if there is none. */
  ghost predicate IsMostRecent(listed: seq<Archive>, p: Period, t: DateTime) {
    && (t == MIN || exists a :: a in listed && InPeriod(a, p) && a.start == t)
    && (forall a | a in listed && InPeriod(a, p) :: Instant(a.start) <= Instant(t))
  }

  lemma MinIsFirst(d: DateTime)
    ensures Instant(MIN) <= Instant(d)
  {
    FieldOrderIsInstantOrder(d, MIN);
  }

  lemma {:induction false} RecentIsMostRecent(listed: seq<Archive>, p: Period)
    ensures IsMostRecent(listed, p, Recent(listed, p))
  {
    if listed != [] {
      var last := |listed| - 1;
      RecentIsMostRecent(listed[..last], p);
      assert listed == listed[..last] + [listed[last]];
    }
  }

  lemma MostRecentIsUnique(listed: seq<Archive>, p: Period, t: DateTime, u: DateTime)
    requires IsMostRecent(listed, p, t) && IsMostRecent(listed, p, u)
    ensures t == u
  {
    MinIsFirst(t);
    MinIsFirst(u);
    FieldOrderIsInstantOrder(t, u);
  }

  // ---------- Cleanup ----------

  /** How many archives of each period to keep. */
  datatype Limits = Limits(daily: nat, weekly: nat, monthly: nat)

  function Limit(limits: Limits, p: Period): nat {
    match p
    case Daily => limits.daily
    case Weekly => limits.weekly
    case Monthly => limits.monthly
  }

  function Count(s: seq<Archive>, p: Period): nat {
    if s == [] then 0 else Count(s[..|s| - 1], p) + if InPeriod(s[|s| - 1], p) then 1 else 0
  }

  /** The position of an archive among those of a period, counted from 1. */
  function Rank(listed: seq<Archive>, i: nat, p: Period): nat
    requires i < |listed|
  {
    Count(listed[..i + 1], p)
  }

  /** The archive is among the newest of some period of its own. */
  predicate Kept(limits: Limits, listed: seq<Archive>, i: nat)
    requires i < |listed|
  {
    exists p: Period :: InPeriod(listed[i], p) && Rank(listed, i, p) <= Limit(limits, p)
  }

  ghost predicate DistinctNames(s: seq<Archive>) {
    forall i, j | 0 <= i < j < |s| :: s[i].name != s[j].name
  }

  /** The names of the archives that the cleanup deletes. */
  function Doomed(limits: Limits, listed: seq<Archive>): (r: set<string>) {
    set i | 0 <= i < |listed| && !Kept(limits, listed, i) :: listed[i].name
  }

  function Sparing(names: set<string>): Archive -> bool {
    (a: Archive) => a.name !in names
  }

  function Cleaned(limits: Limits, archives: seq<Archive>, now: DateTime): seq<Archive> {
    Filter(Sparing(Doomed(limits, Listed(archives, now))), archives)
  }

  lemma {:induction false} CountConcat(s: seq<Archive>, t: seq<Archive>, p: Period)
    ensures Count(s + t, p) == Count(s, p) + Count(t, p)
  {
    if t == [] {
      assert s + t == s;
    } else {
      assert (s + t)[..|s + t| - 1] == s + t[..|t| - 1];
      CountConcat(s, t[..|t| - 1], p);
    }
  }

  // ---------- What the cleanup keeps ----------

  predicate NameFree(s: seq<Archive>, name: string) {
    forall i | 0 <= i < |s| :: s[i].name != name
  }

  lemma {:induction false} InsertDistinct(a: Archive, s: seq<Archive>)
    requires DistinctNames(s) && NameFree(s, a.name)
    ensures DistinctNames(Insert(a, s))
    ensures forall name | NameFree(s, name) && name != a.name :: NameFree(Insert(a, s), name)
  {
    if s != [] && Instant(s[0].start) > Instant(a.start) {
      InsertDistinct(a, s[1..]);
      assert NameFree(s[1..], s[0].name);
      forall name | NameFree(s, name) && name != a.name ensures NameFree(Insert(a, s), name) {
        assert NameFree(s[1..], name);
      }
    }
  }

  lemma {:induction false} NewestFirstDistinct(s: seq<Archive>)
    requires DistinctNames(s)
    ensures DistinctNames(NewestFirst(s))
    ensures forall name | NameFree(s, name) :: NameFree(NewestFirst(s), name)
  {
    if s != [] {
      NewestFirstDistinct(s[1..]);
      assert NameFree(s[1..], s[0].name);
      InsertDistinct(s[0], NewestFirst(s[1..]));
      forall name | NameFree(s, name) ensures NameFree(NewestFirst(s), name) {
        assert NameFree(s[1..], name);
      }
    }
  }

  lemma {:induction false} FilterDistinct(keep: Archive -> bool, s: seq<Archive>)
    requires DistinctNames(s)
    ensures DistinctNames(Filter(keep, s))
  {
    if s != [] {
      FilterDistinct(keep, s[1..]);
      FilterMembers(keep, s[1..]);
      var r := Filter(keep, s[1..]);
      assert forall i | 0 <= i < |r| :: r[i] in s[1..];
    }
  }

  lemma ListedDistinct(archives: seq<Archive>, now: DateTime)
    requires DistinctNames(archives)
    ensures DistinctNames(Listed(archives, now))
  {
    NewestFirstDistinct(archives);
    FilterDistinct(a => Counts(a, now), NewestFirst(archives));
  }

  lemma SameNameSameArchive(s: seq<Archive>, a: Archive, b: Archive)
    requires DistinctNames(s) && a in s && b in s && a.name == b.name
    ensures a == b
  {
    var i :| 0 <= i < |s| && s[i] == a;
    var j :| 0 <= j < |s| && s[j] == b;
  }

  lemma DoomedExactly(limits: Limits, listed: seq<Archive>, i: nat)
    requires DistinctNames(listed) && i < |listed|
    ensures listed[i].name in Doomed(limits, listed) <==> !Kept(limits, listed, i)
  {
    if listed[i].name in Doomed(limits, listed) {
      var j :| 0 <= j < |listed| && !Kept(limits, listed, j) && listed[j].name == listed[i].name;
    }
  }

  /** An archive survives the cleanup exactly when it is not up for it (not scheduled, or dated in
      the future) or its rank is within the limit of at least one of its periods. */
  lemma SurvivesExactly(limits: Limits, archives: seq<Archive>, now: DateTime, a: Archive)
    requires DistinctNames(archives) && a in archives
    ensures var listed := Listed(archives, now);
            a in Cleaned(limits, archives, now) <==>
              !Counts(a, now) || exists i :: 0 <= i < |listed| && listed[i] == a && Kept(limits, listed, i)
  {
    var listed := Listed(archives, now);
    FilterMembers(Sparing(Doomed(limits, listed)), archives);
    ListedOrder(archives, now);
    ListedDistinct(archives, now);
    if Counts(a, now) {
      var i :| 0 <= i < |listed| && listed[i] == a;
      DoomedExactly(limits, listed, i);
      forall j | 0 <= j < |listed| && listed[j] == a ensures j == i {
      }
    } else if a.name in Doomed(limits, listed) {
      var j :| 0 <= j < |listed| && listed[j].name == a.name && !Kept(limits, listed, j);
      assert listed[j] in listed;
      SameNameSameArchive(archives, listed[j], a);
    }
  }

  /** So the newest archives of each period, up to its limit, all survive. */
  lemma NewestOfPeriodSurvive(limits: Limits, archives: seq<Archive>, now: DateTime, i: nat, p: Period)
    requires DistinctNames(archives) && i < |Listed(archives, now)|
    requires InPeriod(Listed(archives, now)[i], p) && Rank(Listed(archives, now), i, p) <= Limit(limits, p)
    ensures Listed(archives, now)[i] in Cleaned(limits, archives, now)
  {
    var listed := Listed(archives, now);
    ListedOrder(archives, now);
    assert listed[i] in listed && Kept(limits, listed, i);
    SurvivesExactly(limits, archives, now, listed[i]);
  }

  lemma {:induction false} FilterCommutes(f: Archive -> bool, g: Archive -> bool, s: seq<Archive>)
    ensures Filter(f, Filter(g, s)) == Filter(g, Filter(f, s))
  {
    if s != [] {
      FilterCommutes(f, g, s[1..]);
      FilterCons(f, s[0], Filter(g, s[1..]));
      FilterCons(g, s[0], Filter(f, s[1..]));
    }
  }

  lemma ListedCleaned(limits: Limits, archives: seq<Archive>, now: DateTime, later: DateTime)
    ensures Listed(Cleaned(limits, archives, now), later) ==
            Filter(Sparing(Doomed(limits, Listed(archives, now))), Listed(archives, later))
  {
    var sparing := Sparing(Doomed(limits, Listed(archives, now)));
    FilterNewestFirst(sparing, archives);
    FilterCommutes(a => Counts(a, later), sparing, NewestFirst(archives));
  }

  /** Where an element of the filtered list stood before. */
  lemma {:induction false} FilterIndex(keep: Archive -> bool, s: seq<Archive>, k: nat) returns (i: nat)
    requires k < |Filter(keep, s)|
    ensures i < |s| && s[i] == Filter(keep, s)[k] && keep(s[i])
    ensures Filter(keep, s)[..k + 1] == Filter(keep, s[..i + 1])
    decreases |s|
  {
    var last := |s| - 1;
    var front := s[..last];
    assert s == front + [s[last]];
    FilterSnoc(keep, front, s[last]);
    var r := Filter(keep, front);
    if k < |r| {
      i := FilterIndex(keep, front, k);
      assert front[..i + 1] == s[..i + 1];
      assert Filter(keep, s)[..k + 1] == r[..k + 1];
    } else {
      i := last;
      assert s[..i + 1] == s;
    }
  }

  lemma {:induction false} FilterCountsLess(keep: Archive -> bool, s: seq<Archive>, p: Period)
    ensures Count(Filter(keep, s), p) <= Count(s, p)
  {
    if s != [] {
      var last := |s| - 1;
      assert s == s[..last] + [s[last]];
      FilterSnoc(keep, s[..last], s[last]);
      FilterCountsLess(keep, s[..last], p);
      CountConcat(Filter(keep, s[..last]), [s[last]], p);
    }
  }

  lemma StillKept(limits: Limits, listed: seq<Archive>, k: nat)
    requires DistinctNames(listed)
    requires k < |Filter(Sparing(Doomed(limits, listed)), listed)|
    ensures Kept(limits, Filter(Sparing(Doomed(limits, listed)), listed), k)
  {
    var sparing := Sparing(Doomed(limits, listed));
    var rest := Filter(sparing, listed);
    var i := FilterIndex(sparing, listed, k);
    DoomedExactly(limits, listed, i);
    var p :| InPeriod(listed[i], p) && Rank(listed, i, p) <= Limit(limits, p);
    FilterCountsLess(sparing, listed[..i + 1], p);
    assert Rank(rest, k, p) <= Limit(limits, p);
  }

  lemma {:induction false} FilterAll(keep: Archive -> bool, s: seq<Archive>)
    requires forall a | a in s :: keep(a)
    ensures Filter(keep, s) == s
  {
    if s != [] {
      FilterAll(keep, s[1..]);
    }
  }

  /** A second cleanup deletes nothing. */
  lemma CleanupIsIdempotent(limits: Limits, archives: seq<Archive>, now: DateTime)
    requires DistinctNames(archives)
    ensures var once := Cleaned(limits, archives, now); Cleaned(limits, once, now) == once
  {
    var listed, once := Listed(archives, now), Cleaned(limits, archives, now);
    ListedDistinct(archives, now);
    ListedCleaned(limits, archives, now, now);
    forall k | 0 <= k < |Listed(once, now)| ensures Kept(limits, Listed(once, now), k) {
      StillKept(limits, listed, k);
    }
    FilterAll(Sparing(Doomed(limits, Listed(once, now))), once);
  }

  function Min(a: nat, b: nat): nat {
    if a < b then a else b
  }

  function Quota(limits: Limits, s: seq<Archive>, p: Period): nat {
    Min(Limit(limits, p), Count(s, p))
  }

  lemma CountSnoc(s: seq<Archive>, a: Archive, p: Period)
    ensures Count(s + [a], p) == Count(s, p) + if InPeriod(a, p) then 1 else 0
  {
    assert (s + [a])[..|s|] == s;
  }

  lemma {:induction false} KeptWithinQuota(limits: Limits, listed: seq<Archive>, keep: Archive -> bool, n: nat)
    requires n <= |listed|
    requires forall i | 0 <= i < n :: keep(listed[i]) ==> Kept(limits, listed, i)
    ensures |Filter(keep, listed[..n])| <=
            Quota(limits, listed[..n], Daily) + Quota(limits, listed[..n], Weekly) + Quota(limits, listed[..n], Monthly)
  {
    if n > 0 {
      var front, x := listed[..n - 1], listed[n - 1];
      KeptWithinQuota(limits, listed, keep, n - 1);
      assert listed[..n] == front + [x];
      FilterSnoc(keep, front, x);
      QuotaGrows(limits, front, x, Daily);
      QuotaGrows(limits, front, x, Weekly);
      QuotaGrows(limits, front, x, Monthly);
      if keep(x) {
        var p :| InPeriod(x, p) && Rank(listed, n - 1, p) <= Limit(limits, p);
      }
    }
  }

  lemma QuotaGrows(limits: Limits, front: seq<Archive>, x: Archive, p: Period)
    ensures Quota(limits, front, p) <= Quota(limits, front + [x], p)
    ensures InPeriod(x, p) && Count(front + [x], p) <= Limit(limits, p) ==>
              Quota(limits, front, p) + 1 == Quota(limits, front + [x], p)
  {
    CountSnoc(front, x, p);
  }

  /** No more scheduled archives survive than the three limits allow together. */
  lemma SurvivorsWithinLimits(limits: Limits, archives: seq<Archive>, now: DateTime)
    requires DistinctNames(archives)
    ensures |Listed(Cleaned(limits, archives, now), now)| <= limits.daily + limits.weekly + limits.monthly
  {
    var listed := Listed(archives, now);
    var sparing := Sparing(Doomed(limits, listed));
    ListedDistinct(archives, now);
    ListedCleaned(limits, archives, now, now);
    forall i | 0 <= i < |listed| ensures sparing(listed[i]) ==> Kept(limits, listed, i) {
      DoomedExactly(limits, listed, i);
    }
    KeptWithinQuota(limits, listed, sparing, |listed|);
    assert listed[..|listed|] == listed;
  }

  /** The first archive of a period, if any. */
  lemma {:induction false} FirstOfPeriod(s: seq<Archive>, p: Period) returns (i: nat)
    ensures i <= |s| && Count(s[..i], p) == 0
    ensures i < |s| ==> InPeriod(s[i], p)
    ensures forall k | 0 <= k < i :: !InPeriod(s[k], p)
  {
    i := 0;
    while i < |s| && !InPeriod(s[i], p)
      invariant i <= |s| && Count(s[..i], p) == 0
      invariant forall k | 0 <= k < i :: !InPeriod(s[k], p)
    {
      assert s[..i + 1][..i] == s[..i];
      i := i + 1;
    }
  }

  lemma FirstOfPeriodSurvives(limits: Limits, archives: seq<Archive>, now: DateTime, p: Period, i: nat)
    requires DistinctNames(archives) && Limit(limits, p) >= 1
    requires i < |Listed(archives, now)| && InPeriod(Listed(archives, now)[i], p)
    requires Count(Listed(archives, now)[..i], p) == 0
    ensures Listed(archives, now)[i] in Cleaned(limits, archives, now)
  {
    var listed := Listed(archives, now);
    assert listed[..i + 1][..i] == listed[..i];
    assert Rank(listed, i, p) == 1;
    NewestOfPeriodSurvive(limits, archives, now, i, p);
  }

  lemma CleanupKeepsRecentNow(limits: Limits, archives: seq<Archive>, now: DateTime, p: Period)
    requires DistinctNames(archives) && Limit(limits, p) >= 1
    ensures Recent(Listed(Cleaned(limits, archives, now), now), p) == Recent(Listed(archives, now), p)
  {
    var listed, cleaned := Listed(archives, now), Cleaned(limits, archives, now);
    ListedOrder(archives, now);
    ListedOrder(cleaned, now);
    FilterMembers(Sparing(Doomed(limits, listed)), archives);
    var i := FirstOfPeriod(listed, p);
    if i < |listed| {
      FirstOfPeriodSurvives(limits, archives, now, p, i);
      assert listed[i] in listed;
      FirstIsMostRecent(listed, listed, p, i);
      FirstIsMostRecent(listed, Listed(cleaned, now), p, i);
    } else {
      MinFirstForNone(listed, p);
      MinFirstForNone(Listed(cleaned, now), p);
    }
  }

  /** The cleanup does not change the time of the most recent backup of a period that is kept at
      all, whenever that time is looked up from then on. */
  lemma CleanupKeepsRecent(limits: Limits, archives: seq<Archive>, now: DateTime, later: DateTime, p: Period)
    requires DistinctNames(archives) && Limit(limits, p) >= 1 && Instant(now) <= Instant(later)
    ensures Recent(Listed(Cleaned(limits, archives, now), later), p) == Recent(Listed(archives, later), p)
  {
    var cleaned, t := Cleaned(limits, archives, now), Recent(Listed(archives, later), p);
    RecentIsMostRecent(Listed(archives, later), p);
    ListedOrder(archives, later);
    ListedOrder(cleaned, later);
    FilterMembers(Sparing(Doomed(limits, Listed(archives, now))), archives);
    if t != MIN {
      RecentSurvives(limits, archives, now, later, p);
    }
    assert IsMostRecent(Listed(cleaned, later), p, t);
    RecentIsMostRecent(Listed(cleaned, later), p);
    MostRecentIsUnique(Listed(cleaned, later), p, t, Recent(Listed(cleaned, later), p));
  }

  /** An archive that fixes the most recent time survives. */
  lemma RecentSurvives(limits: Limits, archives: seq<Archive>, now: DateTime, later: DateTime, p: Period)
    requires DistinctNames(archives) && Limit(limits, p) >= 1 && Instant(now) <= Instant(later)
    requires Recent(Listed(archives, later), p) != MIN
    ensures exists a :: a in Listed(Cleaned(limits, archives, now), later) && InPeriod(a, p)
                        && a.start == Recent(Listed(archives, later), p)
  {
    var cleaned := Cleaned(limits, archives, now);
    var t, u := Recent(Listed(archives, later), p), Recent(Listed(archives, now), p);
    RecentIsMostRecent(Listed(archives, later), p);
    ListedOrder(archives, later);
    ListedOrder(cleaned, later);
    var a :| a in Listed(archives, later) && InPeriod(a, p) && a.start == t;
    if Counts(a, now) {
      CleanupKeepsRecentNow(limits, archives, now, p);
      RecentOfMore(archives, now, later, p, a);
      RecentIsMostRecent(Listed(cleaned, now), p);
      ListedOrder(cleaned, now);
      assert u != MIN;
      var b :| b in Listed(cleaned, now) && InPeriod(b, p) && b.start == u;
      assert Counts(b, later);
    } else {
      SurvivesExactly(limits, archives, now, a);
      assert a in Listed(cleaned, later);
    }
  }

  /** If the most recent archive counts already, the time is the same earlier. */
  lemma RecentOfMore(archives: seq<Archive>, now: DateTime, later: DateTime, p: Period, a: Archive)
    requires Instant(now) <= Instant(later)
    requires a in Listed(archives, later) && InPeriod(a, p) && Counts(a, now)
    requires a.start == Recent(Listed(archives, later), p)
    ensures Recent(Listed(archives, now), p) == Recent(Listed(archives, later), p)
  {
    var t := Recent(Listed(archives, later), p);
    RecentIsMostRecent(Listed(archives, later), p);
    ListedOrder(archives, now);
    ListedOrder(archives, later);
    forall x | x in Listed(archives, now) && InPeriod(x, p) ensures Instant(x.start) <= Instant(t) {
      assert Counts(x, later);
    }
    assert IsMostRecent(Listed(archives, now), p, t);
    RecentIsMostRecent(Listed(archives, now), p);
    MostRecentIsUnique(Listed(archives, now), p, t, Recent(Listed(archives, now), p));
  }

  lemma FirstIsMostRecent(listed: seq<Archive>, some: seq<Archive>, p: Period, i: nat)
    requires IsNewestFirst(listed) && i < |listed| && InPeriod(listed[i], p)
    requires forall k | 0 <= k < i :: !InPeriod(listed[k], p)
    requires listed[i] in some && forall a | a in some :: a in listed
    ensures Recent(some, p) == listed[i].start
  {
    forall a | a in some && InPeriod(a, p) ensures Instant(a.start) <= Instant(listed[i].start) {
      var k :| 0 <= k < |listed| && listed[k] == a;
      assert i <= k;
    }
    assert IsMostRecent(some, p, listed[i].start);
    RecentIsMostRecent(some, p);
    MostRecentIsUnique(some, p, listed[i].start, Recent(some, p));
  }

  lemma MinFirstForNone(s: seq<Archive>, p: Period)
    requires forall a | a in s :: !InPeriod(a, p)
    ensures Recent(s, p) == MIN
  {
    RecentIsMostRecent(s, p);
    MostRecentIsUnique(s, p, MIN, Recent(s, p));
  }
}
