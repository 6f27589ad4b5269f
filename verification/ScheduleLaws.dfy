/** What the backup schedule promises in plain times and names (plinth/modules/backups/schedule.py): when
    a backup is taken, for which periods it counts, and which archives are kept. */
module ScheduleLaws {
  import opened Wrappers
  import opened Calendar
  import opened Retention
  import opened ScheduleRuns

  const NAMES := ["daily", "weekly", "monthly"]

  /** The archive is a scheduled one that counts for the period of that name. */
  predicate Marked(a: Archive, name: string) {
    a.comment.Scheduled? && name in a.comment.periods
  }

  function LimitOf(limits: Limits, name: string): nat {
    if name == "daily" then limits.daily
    else if name == "weekly" then limits.weekly
    else if name == "monthly" then limits.monthly
    else 0
  }

  /** The start of the latest archive of that name that is not dated in the future, or the beginning
      of time if there is none. */
  ghost predicate IsLatest(archives: seq<Archive>, now: DateTime, name: string, t: DateTime) {
    && (t == MIN || exists a :: a in archives && Marked(a, name) && Instant(a.start) <= Instant(now) && a.start == t)
    && forall a | a in archives && Marked(a, name) && Instant(a.start) <= Instant(now) :: Instant(a.start) <= Instant(t)
  }

  // ---------- Calendar ----------

  /** The same day and time of the following month, or of January of the next year if the following
      month does not have that day. */
  predicate IsMonthAfter(last: DateTime, next: DateTime) {
    && next.day == last.day && next.time == last.time
    && if last.month == 12 || last.day <= DaysInMonth(last.year, last.month + 1)
       then 12 * next.year + next.month == 12 * last.year + last.month + 1
       else next.year == last.year + 1 && next.month == 1
  }

  lemma NextMonthlyIsMonthAfter(last: DateTime, next: DateTime)
    ensures NextMonthly(last) == Some(next) <==> IsMonthAfter(last, next)
  {
  }

  const A_SUNDAY: DateTime := DateTime(2024, 1, 7, 0)

  lemma SundayNumber()
    ensures Ordinal(A_SUNDAY) == 738892
  {
    assert DaysBeforeMonth(2024, 1) == 0;
  }

  lemma WeeksApart(a: int, b: int)
    requires b % 7 == 0
    ensures a % 7 == 0 <==> (a - b) % 7 == 0
  {
  }

  /** 7 January 2024 was a Sunday, and Sundays are a multiple of seven days apart. */
  lemma SundaysAreWeekly(d: DateTime)
    ensures IsSunday(d) <==> (Ordinal(d) - Ordinal(A_SUNDAY)) % 7 == 0
  {
    SundayNumber();
    WeeksApart(Ordinal(d), 738892);
  }

  lemma CycleOfYears(y: int)
    ensures DaysBeforeYear(y + 400) == DaysBeforeYear(y) + 146097
  {
    var z := y - 1;
    assert (z + 400) / 4 == z / 4 + 100;
    assert (z + 400) / 100 == z / 100 + 4;
    assert (z + 400) / 400 == z / 400 + 1;
  }

  /** The day after: the next day of the month, the first of the next month or New Year's Day. */
  function DayAfter(d: DateTime): (next: Fields)
    ensures d.year < MAX_YEAR ==> IsDateTime(next)
  {
    if d.day < DaysInMonth(d.year, d.month) then d.(day := d.day + 1)
    else if d.month < 12 then DateTime(d.year, d.month + 1, 1, d.time)
    else DateTime(d.year + 1, 1, 1, d.time)
  }

  /** Days are numbered one after the other. */
  lemma DaysFollow(d: DateTime)
    requires d.year < MAX_YEAR
    ensures Ordinal(DayAfter(d)) == Ordinal(d) + 1
  {
    if d.day == DaysInMonth(d.year, d.month) && d.month == 12 {
      YearLength(d.year);
      MonthsFillYear(d.year);
      assert DaysBeforeMonth(d.year + 1, 1) == 0;
      assert DaysBeforeMonth(d.year, 13) == DaysBeforeMonth(d.year, 12) + 31;
    }
  }

  // ---------- When a period is due ----------

  const ONE_HOUR := 3_600_000_000

  /** It is more than 25 hours, or 7 days and an hour, or an hour beyond the same day of the next
      month, since then. */
  ghost predicate Elapsed(name: string, last: DateTime, now: DateTime) {
    || (name == "daily" && Instant(now) - Instant(last) > 25 * ONE_HOUR)
    || (name == "weekly" && Instant(now) - Instant(last) > (7 * 24 + 1) * ONE_HOUR)
    || (name == "monthly" && forall next | IsMonthAfter(last, next) :: Instant(now) - Instant(next) > ONE_HOUR)
  }

  /** The clock shows the configured hour, on a Sunday for weekly and on the first for monthly
      backups. */
  predicate InItsHour(runAtHour: int, name: string, now: DateTime) {
    && runAtHour * ONE_HOUR <= now.time < (runAtHour + 1) * ONE_HOUR
    && (|| name == "daily"
        || (name == "weekly" && IsSunday(now))
        || (name == "monthly" && now.day == 1))
  }

  ghost predicate IsDue(s: Settings, archives: seq<Archive>, now: DateTime, name: string) {
    && LimitOf(s.limits, name) != 0
    && (|| InItsHour(s.runAtHour, name, now)
        || forall last | IsLatest(archives, now, name, last) :: Elapsed(name, last, now))
  }

  lemma LatestIsRecent(archives: seq<Archive>, now: DateTime, p: Period, t: DateTime)
    ensures IsLatest(archives, now, Name(p), t) <==> t == RecentAt(archives, now, p)
  {
    var listed := Listed(archives, now);
    ListedOrder(archives, now);
    RecentIsMostRecent(listed, p);
    if IsLatest(archives, now, Name(p), t) {
      LatestIsMostRecent(archives, now, p, t);
      MostRecentIsUnique(listed, p, t, RecentAt(archives, now, p));
    } else {
      LatestIsMostRecent(archives, now, p, t);
    }
  }

  lemma LatestIsMostRecent(archives: seq<Archive>, now: DateTime, p: Period, t: DateTime)
    ensures IsLatest(archives, now, Name(p), t) <==> IsMostRecent(Listed(archives, now), p, t)
  {
    ListedOrder(archives, now);
    assert forall a :: a in Listed(archives, now) && InPeriod(a, p) <==>
                       a in archives && Marked(a, Name(p)) && Instant(a.start) <= Instant(now);
  }

  lemma HourIs(now: DateTime, h: int)
    ensures Hour(now) == h <==> h * ONE_HOUR <= now.time < (h + 1) * ONE_HOUR
  {
  }

  lemma OverdueIsElapsed(p: Period, last: DateTime, now: DateTime)
    requires p.Monthly? ==> NextMonthly(last).Some?
    ensures Overdue(p, last, now) <==> Elapsed(Name(p), last, now)
  {
    if p.Monthly? {
      forall next: DateTime ensures IsMonthAfter(last, next) <==> next == NextMonthly(last).value {
        NextMonthlyIsMonthAfter(last, next);
      }
    }
  }

  lemma ScheduledIsInItsHour(runAtHour: int, p: Period, now: DateTime)
    ensures ScheduledNow(runAtHour, p, now) <==> InItsHour(runAtHour, Name(p), now)
  {
    HourIs(now, runAtHour);
  }

  lemma SelectedIsDue(s: Settings, archives: seq<Archive>, now: DateTime, p: Period)
    requires NextMonthly(RecentAt(archives, now, Monthly)).Some?
    ensures p in Selected(s, Listed(archives, now), now) <==> IsDue(s, archives, now, Name(p))
  {
    var last := RecentAt(archives, now, p);
    LatestIsRecent(archives, now, p, last);
    forall t | IsLatest(archives, now, Name(p), t) ensures t == last {
      LatestIsRecent(archives, now, p, t);
    }
    OverdueIsElapsed(p, last, now);
    ScheduledIsInItsHour(s.runAtHour, p, now);
    LimitsByName(s.limits, p);
  }

  lemma LimitsByName(limits: Limits, p: Period)
    ensures LimitOf(limits, Name(p)) == Limit(limits, p) && Name(p) in NAMES
  {
    assert NAMES[0] == "daily" && NAMES[1] == "weekly" && NAMES[2] == "monthly";
  }

  lemma NamesOnly(name: string)
    ensures name in NAMES <==> exists p :: name == Name(p)
  {
    assert NAMES[0] == Name(Daily) && NAMES[1] == Name(Weekly) && NAMES[2] == Name(Monthly);
  }

  // ---------- What a tick does ----------

  /** A backup is taken exactly if the schedule is enabled, the latest backups of all names are at
      least two hours old, some name is due, and creating the archive succeeds. */
  lemma TakenExactly(s: Settings, archives: seq<Archive>, tick: Tick)
    requires tick.now.year < MAX_YEAR
    ensures OutcomeOf(s, archives, tick) == Taken <==>
              && s.enabled && tick.ok
              && (forall name, last | name in NAMES && IsLatest(archives, tick.now, name, last) ::
                    Instant(tick.now) - Instant(last) >= 2 * ONE_HOUR)
              && exists name :: name in NAMES && IsDue(s, archives, tick.now, name)
    ensures !s.enabled ==> OutcomeOf(s, archives, tick) == NotTaken
  {
    DueExists(archives, tick.now, Monthly);
    SoonExactly(archives, tick.now);
    SomeSelected(s, archives, tick.now);
  }

  lemma SoonExactly(archives: seq<Archive>, now: DateTime)
    ensures TooSoon(Listed(archives, now), now) <==>
              exists name, last :: name in NAMES && IsLatest(archives, now, name, last)
                                   && Instant(now) - Instant(last) < 2 * ONE_HOUR
  {
    var listed := Listed(archives, now);
    if TooSoon(listed, now) {
      var p :| Instant(now) - Instant(Recent(listed, p)) < MIN_GAP;
      LatestIsRecent(archives, now, p, Recent(listed, p));
      LimitsByName(Limits(0, 0, 0), p);
    }
    if name, last :| name in NAMES && IsLatest(archives, now, name, last)
                     && Instant(now) - Instant(last) < 2 * ONE_HOUR {
      NamesOnly(name);
      var p :| name == Name(p);
      LatestIsRecent(archives, now, p, last);
      assert last == Recent(listed, p);
    }
  }

  lemma SomeSelected(s: Settings, archives: seq<Archive>, now: DateTime)
    requires NextMonthly(RecentAt(archives, now, Monthly)).Some?
    ensures Selected(s, Listed(archives, now), now) != {} <==>
              exists name :: name in NAMES && IsDue(s, archives, now, name)
  {
    var selected := Selected(s, Listed(archives, now), now);
    if selected != {} {
      var p :| p in selected;
      SelectedIsDue(s, archives, now, p);
      LimitsByName(s.limits, p);
    }
    if name :| name in NAMES && IsDue(s, archives, now, name) {
      NamesOnly(name);
      var p :| name == Name(p);
      SelectedIsDue(s, archives, now, p);
    }
  }

  /** The names differ in their first letters. */
  predicate InAlphabeticalOrder(names: seq<string>) {
    && (forall i | 0 <= i < |names| :: names[i] != "")
    && (forall i, j | 0 <= i < j < |names| :: names[i][0] < names[j][0])
  }

  lemma SortedInOrder(periods: set<Period>)
    ensures InAlphabeticalOrder(SortedNames(periods))
  {
  }

  /** The archive of a backup is marked with exactly the names that are due, in alphabetical order. */
  lemma MarkedExactly(s: Settings, archives: seq<Archive>, tick: Tick, name: string)
    requires OutcomeOf(s, archives, tick) == Taken
    ensures var a := NewArchive(s, archives, tick);
            && a.name == tick.name && a.start == tick.now && a.comment.Scheduled?
            && (Marked(a, name) <==> name in NAMES && IsDue(s, archives, tick.now, name))
            && InAlphabeticalOrder(a.comment.periods)
  {
    var selected := Selected(s, Listed(archives, tick.now), tick.now);
    NamesOnly(name);
    if p :| name == Name(p) {
      SelectedIsDue(s, archives, tick.now, p);
    }
    SortedNamesOnly(selected, name);
    SortedInOrder(selected);
  }

  lemma SortedNamesOnly(periods: set<Period>, name: string)
    ensures name in SortedNames(periods) <==> exists p :: p in periods && name == Name(p)
  {
  }

  /** The new archive survives the cleanup that follows, and nothing else is new. */
  lemma TakenArchiveStays(s: Settings, archives: seq<Archive>, tick: Tick)
    requires DistinctNames(archives) && NameFree(archives, tick.name) && OutcomeOf(s, archives, tick) == Taken
    ensures NewArchive(s, archives, tick) in AfterTick(s, archives, tick)
    ensures forall a | a in AfterTick(s, archives, tick) :: a in archives || a == NewArchive(s, archives, tick)
  {
    var now, added, after := tick.now, archives + [NewArchive(s, archives, tick)], AfterTick(s, archives, tick);
    var p :| p in Selected(s, Listed(archives, now), now);
    FilterMembers(Sparing(Doomed(s.limits, Listed(added, now))), added);
    TakenUpdatesRecent(s, archives, tick, p);
    NewestIsNew(s, archives, tick, p);
  }

  lemma NewestIsNew(s: Settings, archives: seq<Archive>, tick: Tick, p: Period)
    requires OutcomeOf(s, archives, tick) == Taken && RecentAt(AfterTick(s, archives, tick), tick.now, p) == tick.now
    requires forall a | a in AfterTick(s, archives, tick) :: a in archives || a == NewArchive(s, archives, tick)
    ensures NewArchive(s, archives, tick) in AfterTick(s, archives, tick)
  {
    var now, after := tick.now, AfterTick(s, archives, tick);
    RecentIsMostRecent(Listed(after, now), p);
    RecentIsMostRecent(Listed(archives, now), p);
    ListedOrder(after, now);
    ListedOrder(archives, now);
    assert !(Instant(now) - Instant(Recent(Listed(archives, now), p)) < MIN_GAP);
    MinIsFirst(Recent(Listed(archives, now), p));
    var a :| a in Listed(after, now) && InPeriod(a, p) && a.start == now;
    assert a in archives ==> a in Listed(archives, now);
  }

  // ---------- Whole runs ----------

  /** The times at which a run took backups marked with the name. */
  function MarkedTimes(s: Settings, archives: seq<Archive>, ticks: seq<Tick>, name: string): seq<DateTime>
    decreases ticks
  {
    if ticks == [] then []
    else
      var rest := MarkedTimes(s, AfterTick(s, archives, ticks[0]), ticks[1..], name);
      if OutcomeOf(s, archives, ticks[0]) == Taken && Marked(NewArchive(s, archives, ticks[0]), name)
      then [ticks[0].now] + rest else rest
  }

  /** From one time to the next the period of the name has elapsed, unless the later one is in the
      hour for which the name is scheduled. */
  ghost predicate FarApart(runAtHour: int, name: string, latest: DateTime, times: seq<DateTime>)
    decreases times
  {
    times != [] ==>
      && (Elapsed(name, latest, times[0]) || InItsHour(runAtHour, name, times[0]))
      && FarApart(runAtHour, name, times[0], times[1..])
  }

  lemma {:induction false} NoneMarked(s: Settings, archives: seq<Archive>, ticks: seq<Tick>, name: string)
    requires LimitOf(s.limits, name) == 0
    ensures MarkedTimes(s, archives, ticks, name) == []
    decreases ticks
  {
    if ticks != [] {
      if OutcomeOf(s, archives, ticks[0]) == Taken {
        MarkedExactly(s, archives, ticks[0], name);
      }
      NoneMarked(s, AfterTick(s, archives, ticks[0]), ticks[1..], name);
    }
  }

  lemma LatestAfterTick(s: Settings, archives: seq<Archive>, clock: DateTime, tick: Tick, p: Period, latest: DateTime)
    requires Sound(archives, clock) && Follows(archives, clock, tick) && Limit(s.limits, p) >= 1
    requires IsLatest(archives, clock, Name(p), latest)
    ensures var marked := OutcomeOf(s, archives, tick) == Taken && Marked(NewArchive(s, archives, tick), Name(p));
            && (marked ==> Elapsed(Name(p), latest, tick.now) || InItsHour(s.runAtHour, Name(p), tick.now))
            && IsLatest(AfterTick(s, archives, tick), tick.now, Name(p), if marked then tick.now else latest)
  {
    var now, after := tick.now, AfterTick(s, archives, tick);
    ListedLater(archives, clock, now);
    LatestIsRecent(archives, clock, p, latest);
    LatestIsRecent(archives, now, p, latest);
    if OutcomeOf(s, archives, tick) == Taken {
      MarkedExactly(s, archives, tick, Name(p));
      LimitsByName(s.limits, p);
      SelectedIsDue(s, archives, now, p);
      TakenUpdatesRecent(s, archives, tick, p);
    }
    LatestIsRecent(after, now, p, RecentAt(after, now, p));
  }

  lemma {:induction false} MarkedFarApart(s: Settings, archives: seq<Archive>, clock: DateTime, ticks: seq<Tick>,
                                          p: Period, latest: DateTime)
    requires Sound(archives, clock) && IsRun(s, archives, clock, ticks) && Limit(s.limits, p) >= 1
    requires IsLatest(archives, clock, Name(p), latest)
    ensures FarApart(s.runAtHour, Name(p), latest, MarkedTimes(s, archives, ticks, Name(p)))
    decreases ticks
  {
    if ticks != [] {
      var tick := ticks[0];
      var marked := OutcomeOf(s, archives, tick) == Taken && Marked(NewArchive(s, archives, tick), Name(p));
      var rest := MarkedTimes(s, AfterTick(s, archives, tick), ticks[1..], Name(p));
      TickKeepsSound(s, archives, clock, tick);
      LatestAfterTick(s, archives, clock, tick, p, latest);
      MarkedFarApart(s, AfterTick(s, archives, tick), tick.now, ticks[1..], p, if marked then tick.now else latest);
      assert MarkedTimes(s, archives, ticks, Name(p)) == if marked then [tick.now] + rest else rest;
      if marked {
        assert ([tick.now] + rest)[1..] == rest;
      }
    }
  }

  /** Over every run, whether or not the backups succeed, no backup is marked for a period too early:
      since the one before it the period has elapsed, unless it is taken in the hour scheduled for
      the period. */
  lemma NeverTooEarly(s: Settings, archives: seq<Archive>, clock: DateTime, ticks: seq<Tick>, name: string,
                      latest: DateTime)
    requires Sound(archives, clock) && IsRun(s, archives, clock, ticks)
    requires name in NAMES && IsLatest(archives, clock, name, latest)
    ensures FarApart(s.runAtHour, name, latest, MarkedTimes(s, archives, ticks, name))
  {
    NamesOnly(name);
    var p :| name == Name(p);
    LimitsByName(s.limits, p);
    if Limit(s.limits, p) == 0 {
      NoneMarked(s, archives, ticks, name);
    } else {
      MarkedFarApart(s, archives, clock, ticks, p, latest);
    }
  }

  // ---------- What is kept ----------

  /** The archives from the newest down to the i-th that are marked with the name. */
  function MarkedUpTo(listed: seq<Archive>, i: int, name: string): (r: set<nat>)
    ensures forall k :: k in r ==> k < |listed|
  {
    set k: nat | k < |listed| && k <= i && Marked(listed[k], name)
  }

  lemma OneMoreMarked(listed: seq<Archive>, i: nat, name: string)
    requires i < |listed|
    ensures |MarkedUpTo(listed, i, name)| ==
            |MarkedUpTo(listed, i - 1, name)| + if Marked(listed[i], name) then 1 else 0
  {
    var before, all := MarkedUpTo(listed, i - 1, name), MarkedUpTo(listed, i, name);
    if Marked(listed[i], name) {
      Grows(before, all, i);
    } else {
      assert all == before;
    }
  }

  lemma Grows(before: set<nat>, all: set<nat>, i: nat)
    requires i !in before && forall k :: k in all <==> k in before || k == i
    ensures |all| == |before| + 1
  {
    assert all == before + {i};
  }

  lemma NoneMarkedYet(listed: seq<Archive>, name: string)
    ensures |MarkedUpTo(listed, -1, name)| == 0
  {
    assert MarkedUpTo(listed, -1, name) == {};
  }

  lemma {:induction false} CountIsMarked(listed: seq<Archive>, n: nat, p: Period)
    requires n <= |listed|
    ensures Count(listed[..n], p) == |MarkedUpTo(listed, n - 1, Name(p))|
  {
    if n == 0 {
      NoneMarkedYet(listed, Name(p));
    } else {
      CountIsMarked(listed, n - 1, p);
      OneMoreMarked(listed, n - 1, Name(p));
      assert listed[..n][..n - 1] == listed[..n - 1];
    }
  }

  /** A scheduled archive survives the cleanup exactly if for one of its names at most as many
      archives up to it, from the newest, are marked with that name as are to be kept. */
  lemma SurvivesByRank(limits: Limits, archives: seq<Archive>, now: DateTime, i: nat)
    requires DistinctNames(archives) && i < |Listed(archives, now)|
    ensures var listed := Listed(archives, now);
            listed[i] in Cleaned(limits, archives, now) <==>
              exists name :: name in NAMES && Marked(listed[i], name)
                             && |MarkedUpTo(listed, i, name)| <= LimitOf(limits, name)
  {
    var listed := Listed(archives, now);
    ListedOrder(archives, now);
    ListedDistinct(archives, now);
    assert listed[i] in listed;
    FilterMembers(Sparing(Doomed(limits, listed)), archives);
    DoomedExactly(limits, listed, i);
    KeptByName(limits, listed, i);
  }

  lemma KeptByName(limits: Limits, listed: seq<Archive>, i: nat)
    requires i < |listed|
    ensures Kept(limits, listed, i) <==>
              exists name :: name in NAMES && Marked(listed[i], name)
                             && |MarkedUpTo(listed, i, name)| <= LimitOf(limits, name)
  {
    if Kept(limits, listed, i) {
      var p :| InPeriod(listed[i], p) && Rank(listed, i, p) <= Limit(limits, p);
      CountIsMarked(listed, i + 1, p);
      LimitsByName(limits, p);
      assert Marked(listed[i], Name(p));
    }
    if name :| name in NAMES && Marked(listed[i], name) && |MarkedUpTo(listed, i, name)| <= LimitOf(limits, name) {
      NamesOnly(name);
      var p :| name == Name(p);
      CountIsMarked(listed, i + 1, p);
      LimitsByName(limits, p);
      assert InPeriod(listed[i], p) && Rank(listed, i, p) <= Limit(limits, p);
    }
  }

  function MarkedOnly(name: string): Archive -> bool {
    (a: Archive) => Marked(a, name) && forall other | other in NAMES && other != name :: !Marked(a, other)
  }

  lemma {:induction false} OnlyWithinLimit(limits: Limits, listed: seq<Archive>, p: Period, n: nat)
    requires n <= |listed|
    requires forall i | 0 <= i < n && MarkedOnly(Name(p))(listed[i]) :: Kept(limits, listed, i)
    ensures |Filter(MarkedOnly(Name(p)), listed[..n])| <= Min(Limit(limits, p), Count(listed[..n], p))
  {
    if n > 0 {
      var i := n - 1;
      OnlyWithinLimit(limits, listed, p, i);
      assert listed[..n] == listed[..i] + [listed[i]];
      FilterSnoc(MarkedOnly(Name(p)), listed[..i], listed[i]);
      CountSnoc(listed[..i], listed[i], p);
      if MarkedOnly(Name(p))(listed[i]) {
        OnlyRank(limits, listed, p, i);
      }
    }
  }

  lemma OnlyRank(limits: Limits, listed: seq<Archive>, p: Period, i: nat)
    requires i < |listed| && MarkedOnly(Name(p))(listed[i]) && Kept(limits, listed, i)
    ensures InPeriod(listed[i], p) && Count(listed[..i + 1], p) <= Limit(limits, p)
  {
    var q :| InPeriod(listed[i], q) && Rank(listed, i, q) <= Limit(limits, q);
    LimitsByName(limits, q);
    assert Marked(listed[i], Name(q));
  }

  /** After a cleanup at most as many archives carry only one name as are to be kept for it. */
  lemma OnlyNameWithinLimit(limits: Limits, archives: seq<Archive>, now: DateTime, name: string)
    requires DistinctNames(archives) && name in NAMES
    ensures |Filter(MarkedOnly(name), Listed(Cleaned(limits, archives, now), now))| <= LimitOf(limits, name)
  {
    NamesOnly(name);
    var p :| name == Name(p);
    var listed := Listed(archives, now);
    var rest := Filter(Sparing(Doomed(limits, listed)), listed);
    ListedCleaned(limits, archives, now, now);
    ListedDistinct(archives, now);
    forall k | 0 <= k < |rest| ensures Kept(limits, rest, k) {
      StillKept(limits, listed, k);
    }
    OnlyWithinLimit(limits, rest, p, |rest|);
    assert rest[..|rest|] == rest;
    LimitsByName(limits, p);
  }

  /** After a backup the archives are within the limits, in all and for each name alone. */
  lemma TakenKeepsWithinLimits(s: Settings, archives: seq<Archive>, tick: Tick, name: string)
    requires DistinctNames(archives) && NameFree(archives, tick.name) && OutcomeOf(s, archives, tick) == Taken
    requires name in NAMES
    ensures var listed := Listed(AfterTick(s, archives, tick), tick.now);
            && |listed| <= s.limits.daily + s.limits.weekly + s.limits.monthly
            && |Filter(MarkedOnly(name), listed)| <= LimitOf(s.limits, name)
  {
    var added := archives + [NewArchive(s, archives, tick)];
    SurvivorsWithinLimits(s.limits, added, tick.now);
    OnlyNameWithinLimit(s.limits, added, tick.now, name);
  }

  /** A tick deletes nothing unless it takes a backup, and never an archive that is not scheduled or
      dated in the future. */
  lemma TickSpares(s: Settings, archives: seq<Archive>, tick: Tick, a: Archive)
    requires DistinctNames(archives) && NameFree(archives, tick.name) && a in archives
    requires || OutcomeOf(s, archives, tick) != Taken
             || !a.comment.Scheduled?
             || Instant(a.start) > Instant(tick.now)
    ensures a in AfterTick(s, archives, tick)
  {
    if OutcomeOf(s, archives, tick) == Taken {
      SurvivesExactly(s.limits, archives + [NewArchive(s, archives, tick)], tick.now, a);
    }
  }
}
