/** One tick of the backup schedule and whole runs of ticks (plinth/modules/backups/schedule.py).

    A tick uses a single reading of the clock, which is also the start time of the archive it
    creates. */
module ScheduleRuns {
  import opened Wrappers
  import opened Calendar
  import opened Retention

  datatype Settings = Settings(enabled: bool, limits: Limits, runAtHour: int)

  // ---------- When a backup is due ----------

  const MIN_GAP := 2 * HOUR

  /** The instant after which it has been too long since the last backup of the period. */
  function Due(p: Period, last: DateTime): Option<int> {
    match p
    case Daily => Some(Instant(last) + DAY + HOUR)
    case Weekly => Some(Instant(last) + 7 * DAY + HOUR)
    case Monthly => if NextMonthly(last).Some? then Some(Instant(NextMonthly(last).value) + HOUR) else None
  }

  predicate Overdue(p: Period, last: DateTime, now: DateTime) {
    Due(p, last).Some? && Instant(now) > Due(p, last).value
  }

  predicate ScheduledNow(runAtHour: int, p: Period, now: DateTime) {
    && Hour(now) == runAtHour
    && match p
       case Daily => true
       case Weekly => IsSunday(now)
       case Monthly => now.day == 1
  }

  predicate TooSoon(listed: seq<Archive>, now: DateTime) {
    exists p :: Instant(now) - Instant(Recent(listed, p)) < MIN_GAP
  }

  /** The enabled periods that the next backup counts for. */
  function Selected(s: Settings, listed: seq<Archive>, now: DateTime): (r: set<Period>)
    ensures forall p :: p in r <==>
              Limit(s.limits, p) != 0 && (Overdue(p, Recent(listed, p), now) || ScheduledNow(s.runAtHour, p, now))
  {
    set p: Period | Limit(s.limits, p) != 0 && (Overdue(p, Recent(listed, p), now) || ScheduledNow(s.runAtHour, p, now))
  }

  /** The names of the periods, sorted. */
  function SortedNames(periods: set<Period>): (r: seq<string>)
    ensures forall p :: Name(p) in r <==> p in periods
  {
    (if Daily in periods then ["daily"] else [])
    + (if Monthly in periods then ["monthly"] else [])
    + (if Weekly in periods then ["weekly"] else [])
  }

  // ---------- One tick ----------

  datatype Outcome = NotTaken | Taken | Raised

  /** What may be different at each tick; `ok` says whether creating an archive would succeed. */
  datatype Tick = Tick(now: DateTime, name: string, ok: bool)

  function OutcomeOf(s: Settings, archives: seq<Archive>, tick: Tick): Outcome {
    var listed := Listed(archives, tick.now);
    if !s.enabled || TooSoon(listed, tick.now) then NotTaken
    else if NextMonthly(Recent(listed, Monthly)).None? then Raised
    else if Selected(s, listed, tick.now) == {} then NotTaken
    else if tick.ok then Taken
    else Raised
  }

  function NewArchive(s: Settings, archives: seq<Archive>, tick: Tick): Archive {
    Archive(tick.name, tick.now, Scheduled(SortedNames(Selected(s, Listed(archives, tick.now), tick.now))))
  }

  function AfterTick(s: Settings, archives: seq<Archive>, tick: Tick): seq<Archive> {
    if OutcomeOf(s, archives, tick) == Taken
    then Cleaned(s.limits, archives + [NewArchive(s, archives, tick)], tick.now)
    else archives
  }

  // ---------- What a tick keeps while the clock runs forward ----------

  /** Names are unique and nothing scheduled is dated in the future. */
  ghost predicate Sound(archives: seq<Archive>, clock: DateTime) {
    && DistinctNames(archives)
    && forall a | a in archives && a.comment.Scheduled? :: Counts(a, clock)
  }

  ghost predicate Follows(archives: seq<Archive>, clock: DateTime, tick: Tick) {
    Instant(clock) <= Instant(tick.now) && NameFree(archives, tick.name)
  }

  function RecentAt(archives: seq<Archive>, now: DateTime, p: Period): DateTime {
    Recent(Listed(archives, now), p)
  }

  lemma {:induction false} FilterSame(f: Archive -> bool, g: Archive -> bool, s: seq<Archive>)
    requires forall a | a in s :: f(a) == g(a)
    ensures Filter(f, s) == Filter(g, s)
  {
    if s != [] {
      FilterSame(f, g, s[1..]);
    }
  }

  lemma ListedLater(archives: seq<Archive>, clock: DateTime, now: DateTime)
    requires Sound(archives, clock) && Instant(clock) <= Instant(now)
    ensures Listed(archives, now) == Listed(archives, clock)
  {
    NewestFirstSorts(archives);
    FilterSame(a => Counts(a, now), a => Counts(a, clock), NewestFirst(archives));
  }

  lemma RecentBounded(archives: seq<Archive>, now: DateTime, p: Period)
    ensures Instant(MIN) <= Instant(RecentAt(archives, now, p))
    ensures RecentAt(archives, now, p) != MIN ==> Instant(RecentAt(archives, now, p)) <= Instant(now)
    ensures Instant(RecentAt(archives, now, p)) <= Instant(now)
  {
    MinIsFirst(now);
    MinIsFirst(RecentAt(archives, now, p));
    RecentIsMostRecent(Listed(archives, now), p);
    ListedOrder(archives, now);
  }

  lemma AddKeepsSound(archives: seq<Archive>, clock: DateTime, a: Archive)
    requires Sound(archives, clock) && Instant(clock) <= Instant(a.start) && NameFree(archives, a.name)
    ensures Sound(archives + [a], a.start)
  {
  }

  lemma CleanedKeepsSound(limits: Limits, archives: seq<Archive>, now: DateTime)
    requires Sound(archives, now)
    ensures Sound(Cleaned(limits, archives, now), now)
  {
    var sparing := Sparing(Doomed(limits, Listed(archives, now)));
    FilterDistinct(sparing, archives);
    FilterMembers(sparing, archives);
  }

  lemma TickKeepsSound(s: Settings, archives: seq<Archive>, clock: DateTime, tick: Tick)
    requires Sound(archives, clock) && Follows(archives, clock, tick)
    ensures Sound(AfterTick(s, archives, tick), tick.now)
  {
    if OutcomeOf(s, archives, tick) == Taken {
      AddKeepsSound(archives, clock, NewArchive(s, archives, tick));
      CleanedKeepsSound(s.limits, archives + [NewArchive(s, archives, tick)], tick.now);
    }
  }

  /** A backup that is taken becomes the most recent one of each of its periods and leaves the
      others alone. */
  lemma TakenUpdatesRecent(s: Settings, archives: seq<Archive>, tick: Tick, p: Period)
    requires DistinctNames(archives) && NameFree(archives, tick.name)
    requires OutcomeOf(s, archives, tick) == Taken && Limit(s.limits, p) >= 1
    ensures RecentAt(AfterTick(s, archives, tick), tick.now, p) ==
            if p in Selected(s, Listed(archives, tick.now), tick.now) then tick.now else RecentAt(archives, tick.now, p)
  {
    var now, a := tick.now, NewArchive(s, archives, tick);
    var added := archives + [a];
    CleanupKeepsRecent(s.limits, added, now, now, p);
    AddedRecent(archives, a, now, p);
  }

  lemma AddedRecent(archives: seq<Archive>, a: Archive, now: DateTime, p: Period)
    requires a.start == now && a.comment.Scheduled?
    ensures RecentAt(archives + [a], now, p) == if InPeriod(a, p) then now else RecentAt(archives, now, p)
  {
    var before, after := Listed(archives, now), Listed(archives + [a], now);
    ListedOrder(archives, now);
    ListedOrder(archives + [a], now);
    RecentIsMostRecent(before, p);
    RecentIsMostRecent(after, p);
    var t := if InPeriod(a, p) then now else Recent(before, p);
    assert a in archives + [a];
    assert forall x :: x in archives + [a] <==> x in archives || x == a;
    assert IsMostRecent(after, p, t);
    MostRecentIsUnique(after, p, t, Recent(after, p));
  }

  // ---------- Two scheduled backups are two hours apart ----------

  /** The latest backup so far is not later than some known most recent time. */
  ghost predicate Known(archives: seq<Archive>, clock: DateTime, latest: int) {
    exists p :: latest <= Instant(RecentAt(archives, clock, p))
  }

  lemma TickKeepsGap(s: Settings, archives: seq<Archive>, clock: DateTime, tick: Tick, latest: int)
    requires Sound(archives, clock) && Follows(archives, clock, tick) && Known(archives, clock, latest)
    ensures var taken := OutcomeOf(s, archives, tick) == Taken;
            && (taken ==> Instant(tick.now) - latest >= MIN_GAP)
            && Known(AfterTick(s, archives, tick), tick.now, if taken then Instant(tick.now) else latest)
  {
    ListedLater(archives, clock, tick.now);
    var q :| latest <= Instant(RecentAt(archives, clock, q));
    if OutcomeOf(s, archives, tick) == Taken {
      var p :| p in Selected(s, Listed(archives, tick.now), tick.now);
      TakenUpdatesRecent(s, archives, tick, p);
      assert !(Instant(tick.now) - Instant(Recent(Listed(archives, tick.now), q)) < MIN_GAP);
    } else {
      assert latest <= Instant(RecentAt(archives, tick.now, q));
    }
  }

  ghost predicate IsRun(s: Settings, archives: seq<Archive>, clock: DateTime, ticks: seq<Tick>)
    decreases ticks
  {
    ticks != [] ==>
      && Follows(archives, clock, ticks[0])
      && IsRun(s, AfterTick(s, archives, ticks[0]), ticks[0].now, ticks[1..])
  }

  function AfterTicks(s: Settings, archives: seq<Archive>, ticks: seq<Tick>): seq<Archive>
    decreases ticks
  {
    if ticks == [] then archives else AfterTicks(s, AfterTick(s, archives, ticks[0]), ticks[1..])
  }

  /** The instants at which a run took backups. */
  function BackupInstants(s: Settings, archives: seq<Archive>, ticks: seq<Tick>): seq<int>
    decreases ticks
  {
    if ticks == [] then []
    else
      var rest := BackupInstants(s, AfterTick(s, archives, ticks[0]), ticks[1..]);
      if OutcomeOf(s, archives, ticks[0]) == Taken then [Instant(ticks[0].now)] + rest else rest
  }

  ghost predicate Spaced(latest: int, instants: seq<int>)
    decreases instants
  {
    instants != [] ==> instants[0] - latest >= 2 * HOUR && Spaced(instants[0], instants[1..])
  }

  /** Over every run with a forward clock, whether or not the backups succeed, two successive
      backups are at least two hours apart. */
  lemma {:induction false} BackupsAreSpaced(s: Settings, archives: seq<Archive>, clock: DateTime, ticks: seq<Tick>,
                                            latest: int)
    requires Sound(archives, clock) && IsRun(s, archives, clock, ticks) && Known(archives, clock, latest)
    ensures Spaced(latest, BackupInstants(s, archives, ticks))
    decreases ticks
  {
    if ticks != [] {
      TickKeepsSound(s, archives, clock, ticks[0]);
      TickKeepsGap(s, archives, clock, ticks[0], latest);
      var taken := OutcomeOf(s, archives, ticks[0]) == Taken;
      BackupsAreSpaced(s, AfterTick(s, archives, ticks[0]), ticks[0].now, ticks[1..],
                       if taken then Instant(ticks[0].now) else latest);
    }
  }

  // ---------- No period is left without a backup for long ----------

  /** No backup at all was taken while this period was overdue. */
  ghost predicate InStep(archives: seq<Archive>, clock: DateTime, p: Period) {
    var due := Due(p, RecentAt(archives, clock, p));
    due.Some? ==> forall q :: Instant(RecentAt(archives, clock, q)) <= due.value
  }

  /** The period is in step and its due time has not been missed by two hours. */
  ghost predicate OnTime(archives: seq<Archive>, now: DateTime, p: Period) {
    var due := Due(p, RecentAt(archives, now, p));
    InStep(archives, now, p) && due.Some? && Instant(now) < due.value + MIN_GAP
  }

  lemma DueIsAhead(p: Period, last: DateTime)
    ensures Due(p, last).Some? ==> Instant(last) < Due(p, last).value
  {
    if p.Monthly? && NextMonthly(last).Some? {
      NextMonthlyInstant(last, NextMonthly(last).value);
    }
  }

  lemma DueExists(archives: seq<Archive>, now: DateTime, p: Period)
    requires now.year < MAX_YEAR
    ensures Due(p, RecentAt(archives, now, p)).Some?
    ensures NextMonthly(RecentAt(archives, now, Monthly)).Some?
  {
    RecentBounded(archives, now, p);
    RecentBounded(archives, now, Monthly);
    FieldOrderIsInstantOrder(now, RecentAt(archives, now, p));
    FieldOrderIsInstantOrder(now, RecentAt(archives, now, Monthly));
    NextMonthlyExists(RecentAt(archives, now, p));
    NextMonthlyExists(RecentAt(archives, now, Monthly));
  }

  /** Whatever the archives were, after a backup no later backup time than the due time of an
      enabled period is known. */
  lemma TakenIsInStep(s: Settings, archives: seq<Archive>, tick: Tick, p: Period)
    requires DistinctNames(archives) && NameFree(archives, tick.name)
    requires OutcomeOf(s, archives, tick) == Taken && Limit(s.limits, p) >= 1
    ensures var after := AfterTick(s, archives, tick);
            && InStep(after, tick.now, p)
            && (Due(p, RecentAt(after, tick.now, p)).Some? ==>
                  Instant(tick.now) <= Due(p, RecentAt(after, tick.now, p)).value)
  {
    var after, now := AfterTick(s, archives, tick), tick.now;
    TakenUpdatesRecent(s, archives, tick, p);
    DueIsAhead(p, now);
    forall q ensures Instant(RecentAt(after, now, q)) <= Instant(now) {
      RecentBounded(after, now, q);
    }
  }

  /** A tick brings an overdue period up to date unless a backup is less than two hours old, so
      that the due time is never missed by two hours. */
  lemma TickKeepsInStep(s: Settings, archives: seq<Archive>, clock: DateTime, tick: Tick, p: Period)
    requires Sound(archives, clock) && Follows(archives, clock, tick)
    requires s.enabled && Limit(s.limits, p) >= 1 && tick.ok && tick.now.year < MAX_YEAR
    requires InStep(archives, clock, p)
    ensures OnTime(AfterTick(s, archives, tick), tick.now, p)
  {
    DueExists(AfterTick(s, archives, tick), tick.now, p);
    if OutcomeOf(s, archives, tick) == Taken {
      TakenIsInStep(s, archives, tick, p);
    } else {
      assert AfterTick(s, archives, tick) == archives;
      InStepLater(archives, clock, tick.now, p);
      DueExists(archives, tick.now, p);
      NotTakenIsInTime(s, archives, tick, p);
    }
  }

  lemma InStepLater(archives: seq<Archive>, clock: DateTime, now: DateTime, p: Period)
    requires Sound(archives, clock) && Instant(clock) <= Instant(now) && InStep(archives, clock, p)
    ensures InStep(archives, now, p)
  {
    ListedLater(archives, clock, now);
    assert forall q :: RecentAt(archives, now, q) == RecentAt(archives, clock, q);
    var due := Due(p, RecentAt(archives, now, p));
    if due.Some? {
      forall q ensures Instant(RecentAt(archives, now, q)) <= due.value {
        assert Instant(RecentAt(archives, clock, q)) <= due.value;
      }
    }
  }

  lemma NotTakenIsInTime(s: Settings, archives: seq<Archive>, tick: Tick, p: Period)
    requires s.enabled && Limit(s.limits, p) >= 1 && tick.ok
    requires Due(p, RecentAt(archives, tick.now, p)).Some? && NextMonthly(RecentAt(archives, tick.now, Monthly)).Some?
    requires InStep(archives, tick.now, p) && OutcomeOf(s, archives, tick) != Taken
    ensures Instant(tick.now) < Due(p, RecentAt(archives, tick.now, p)).value + MIN_GAP
  {
    var listed, now := Listed(archives, tick.now), tick.now;
    if TooSoon(listed, now) {
      var q :| Instant(now) - Instant(Recent(listed, q)) < MIN_GAP;
      assert Instant(RecentAt(archives, now, q)) <= Due(p, RecentAt(archives, now, p)).value;
    } else {
      NotSoonIsNotOverdue(s, archives, tick, p);
    }
  }

  /** The longest time from a backup until the next of the period is due, and two hours. */
  function AgeBound(p: Period): int {
    match p
    case Daily => 27 * HOUR
    case Weekly => 7 * DAY + 3 * HOUR
    case Monthly => 366 * DAY + 3 * HOUR
  }

  lemma DueWithinBound(p: Period, last: DateTime)
    ensures Due(p, last).Some? ==> Due(p, last).value + MIN_GAP <= Instant(last) + AgeBound(p)
  {
    if p.Monthly? && NextMonthly(last).Some? {
      NextMonthlyInstant(last, NextMonthly(last).value);
    }
  }

  ghost predicate AllSucceed(ticks: seq<Tick>)
    decreases ticks
  {
    ticks != [] ==> ticks[0].ok && ticks[0].now.year < MAX_YEAR && AllSucceed(ticks[1..])
  }

  ghost predicate YoungEnough(archives: seq<Archive>, now: DateTime, p: Period) {
    Instant(now) - Instant(RecentAt(archives, now, p)) < AgeBound(p)
  }

  /** No backup is known to be later than this. */
  ghost predicate NoneAfter(archives: seq<Archive>, clock: DateTime, latest: int) {
    forall q :: Instant(RecentAt(archives, clock, q)) <= latest
  }

  /** Once no backup is less than two hours old, a tick puts every enabled period in step, whatever
      the archives were. */
  lemma TickReachesOnTime(s: Settings, archives: seq<Archive>, clock: DateTime, tick: Tick, p: Period, latest: int)
    requires Sound(archives, clock) && Follows(archives, clock, tick) && NoneAfter(archives, clock, latest)
    requires s.enabled && Limit(s.limits, p) >= 1 && tick.ok && tick.now.year < MAX_YEAR
    ensures var after := AfterTick(s, archives, tick);
            || OnTime(after, tick.now, p)
            || (Instant(tick.now) < latest + MIN_GAP && NoneAfter(after, tick.now, latest))
  {
    var after, now := AfterTick(s, archives, tick), tick.now;
    DueExists(after, now, p);
    if OutcomeOf(s, archives, tick) == Taken {
      TakenIsInStep(s, archives, tick, p);
    } else {
      ListedLater(archives, clock, now);
      forall q ensures Instant(RecentAt(after, now, q)) <= latest {
        assert RecentAt(after, now, q) == RecentAt(archives, clock, q);
      }
      if Instant(now) >= latest + MIN_GAP {
        assert forall q :: Recent(Listed(archives, now), q) == RecentAt(after, now, q);
        NotSoonIsOnTime(s, archives, tick, p);
      }
    }
  }

  lemma NotSoonIsNotOverdue(s: Settings, archives: seq<Archive>, tick: Tick, p: Period)
    requires s.enabled && Limit(s.limits, p) >= 1 && tick.ok
    requires OutcomeOf(s, archives, tick) != Taken && !TooSoon(Listed(archives, tick.now), tick.now)
    requires Due(p, RecentAt(archives, tick.now, p)).Some? && NextMonthly(RecentAt(archives, tick.now, Monthly)).Some?
    ensures Instant(tick.now) <= Due(p, RecentAt(archives, tick.now, p)).value
  {
    assert p !in Selected(s, Listed(archives, tick.now), tick.now);
  }

  /** A tick that takes no backup although none is recent shows that no period is overdue. */
  lemma NotSoonIsOnTime(s: Settings, archives: seq<Archive>, tick: Tick, p: Period)
    requires s.enabled && Limit(s.limits, p) >= 1 && tick.ok && tick.now.year < MAX_YEAR
    requires OutcomeOf(s, archives, tick) != Taken && !TooSoon(Listed(archives, tick.now), tick.now)
    ensures OnTime(archives, tick.now, p)
  {
    var now := tick.now;
    DueExists(archives, now, p);
    NotSoonIsNotOverdue(s, archives, tick, p);
    forall q ensures Instant(RecentAt(archives, now, q)) <= Due(p, RecentAt(archives, now, p)).value {
      RecentBounded(archives, now, q);
    }
  }

  lemma OnTimeIsYoung(archives: seq<Archive>, now: DateTime, p: Period)
    requires OnTime(archives, now, p)
    ensures YoungEnough(archives, now, p)
  {
    DueWithinBound(p, RecentAt(archives, now, p));
  }

  /** After every tick from the given instant on, the latest backup of the period is young enough. */
  ghost predicate AllYoungFrom(s: Settings, archives: seq<Archive>, ticks: seq<Tick>, p: Period, from: int)
    decreases ticks
  {
    ticks != [] ==>
      && (Instant(ticks[0].now) >= from ==> YoungEnough(AfterTick(s, archives, ticks[0]), ticks[0].now, p))
      && AllYoungFrom(s, AfterTick(s, archives, ticks[0]), ticks[1..], p, from)
  }

  lemma OnTimeTick(s: Settings, archives: seq<Archive>, clock: DateTime, tick: Tick, p: Period)
    requires Sound(archives, clock) && Follows(archives, clock, tick) && InStep(archives, clock, p)
    requires s.enabled && Limit(s.limits, p) >= 1 && tick.ok && tick.now.year < MAX_YEAR
    ensures var after := AfterTick(s, archives, tick);
            Sound(after, tick.now) && InStep(after, tick.now, p) && YoungEnough(after, tick.now, p)
  {
    TickKeepsSound(s, archives, clock, tick);
    TickKeepsInStep(s, archives, clock, tick, p);
    OnTimeIsYoung(AfterTick(s, archives, tick), tick.now, p);
  }

  lemma LateTick(s: Settings, archives: seq<Archive>, clock: DateTime, tick: Tick, p: Period, from: int)
    returns (inStep: bool)
    requires Sound(archives, clock) && Follows(archives, clock, tick) && NoneAfter(archives, clock, from - MIN_GAP)
    requires s.enabled && Limit(s.limits, p) >= 1 && tick.ok && tick.now.year < MAX_YEAR
    ensures Sound(AfterTick(s, archives, tick), tick.now)
    ensures Instant(tick.now) >= from ==> YoungEnough(AfterTick(s, archives, tick), tick.now, p)
    ensures inStep ==> InStep(AfterTick(s, archives, tick), tick.now, p)
    ensures !inStep ==> NoneAfter(AfterTick(s, archives, tick), tick.now, from - MIN_GAP)
  {
    TickKeepsSound(s, archives, clock, tick);
    TickReachesOnTime(s, archives, clock, tick, p, from - MIN_GAP);
    inStep := OnTime(AfterTick(s, archives, tick), tick.now, p);
    if inStep {
      OnTimeIsYoung(AfterTick(s, archives, tick), tick.now, p);
    }
  }

  /** Over a run that starts in step, that is so from the first tick of all. */
  lemma {:induction false} YoungInStep(s: Settings, archives: seq<Archive>, clock: DateTime, ticks: seq<Tick>,
                                       p: Period, from: int)
    requires Sound(archives, clock) && IsRun(s, archives, clock, ticks) && InStep(archives, clock, p)
    requires s.enabled && Limit(s.limits, p) >= 1 && AllSucceed(ticks)
    ensures AllYoungFrom(s, archives, ticks, p, from)
    decreases ticks
  {
    if ticks != [] {
      OnTimeTick(s, archives, clock, ticks[0], p);
      YoungInStep(s, AfterTick(s, archives, ticks[0]), ticks[0].now, ticks[1..], p, from);
    }
  }

  /** Over any other run, from two hours after the latest backup known at its start. */
  lemma {:induction false} YoungFromLatest(s: Settings, archives: seq<Archive>, clock: DateTime, ticks: seq<Tick>,
                                           p: Period, from: int)
    requires Sound(archives, clock) && IsRun(s, archives, clock, ticks) && NoneAfter(archives, clock, from - MIN_GAP)
    requires s.enabled && Limit(s.limits, p) >= 1 && AllSucceed(ticks)
    ensures AllYoungFrom(s, archives, ticks, p, from)
    decreases ticks
  {
    if ticks != [] {
      var inStep := LateTick(s, archives, clock, ticks[0], p, from);
      if inStep {
        YoungInStep(s, AfterTick(s, archives, ticks[0]), ticks[0].now, ticks[1..], p, from);
      } else {
        YoungFromLatest(s, AfterTick(s, archives, ticks[0]), ticks[0].now, ticks[1..], p, from);
      }
    }
  }

  lemma {:induction false} YoungAfter(s: Settings, archives: seq<Archive>, ticks: seq<Tick>, p: Period, from: int,
                                      n: nat)
    requires AllYoungFrom(s, archives, ticks, p, from)
    requires 0 < n <= |ticks| && Instant(ticks[n - 1].now) >= from
    ensures YoungEnough(AfterTicks(s, archives, ticks[..n]), ticks[n - 1].now, p)
    decreases ticks
  {
    var next, rest := AfterTick(s, archives, ticks[0]), ticks[1..];
    assert ticks[..n][1..] == rest[..n - 1];
    assert AfterTicks(s, archives, ticks[..n]) == AfterTicks(s, next, rest[..n - 1]);
    if n > 1 {
      YoungAfter(s, next, rest, p, from, n - 1);
    }
  }

  lemma {:induction false} TicksGoForward(s: Settings, archives: seq<Archive>, clock: DateTime, ticks: seq<Tick>,
                                          i: nat, j: nat)
    requires IsRun(s, archives, clock, ticks) && i <= j < |ticks|
    ensures Instant(clock) <= Instant(ticks[i].now) <= Instant(ticks[j].now)
    decreases ticks
  {
    var next, rest := AfterTick(s, archives, ticks[0]), ticks[1..];
    if i > 0 {
      TicksGoForward(s, next, ticks[0].now, rest, i - 1, j - 1);
    } else if j > 0 {
      TicksGoForward(s, next, ticks[0].now, rest, 0, j - 1);
    }
  }

  lemma {:induction false} RunPrefix(s: Settings, archives: seq<Archive>, clock: DateTime, ticks: seq<Tick>, n: nat)
    requires IsRun(s, archives, clock, ticks) && n <= |ticks|
    ensures IsRun(s, archives, clock, ticks[..n])
    decreases n
  {
    if n > 0 {
      RunPrefix(s, AfterTick(s, archives, ticks[0]), ticks[0].now, ticks[1..], n - 1);
      assert ticks[..n][1..] == ticks[1..][..n - 1];
    }
  }

  /** The number of ticks that have happened at the given instant. */
  function TicksUntil(ticks: seq<Tick>, moment: int): (n: nat)
    ensures n <= |ticks|
    ensures n < |ticks| ==> moment < Instant(ticks[n].now)
    ensures forall i | 0 <= i < n :: Instant(ticks[i].now) <= moment
  {
    if ticks == [] || moment < Instant(ticks[0].now) then 0 else 1 + TicksUntil(ticks[1..], moment)
  }

  ghost predicate AtMostApart(ticks: seq<Tick>, d: int)
    decreases ticks
  {
    |ticks| > 1 ==> Instant(ticks[1].now) - Instant(ticks[0].now) <= d && AtMostApart(ticks[1..], d)
  }

  lemma {:induction false} LastTickIsClose(ticks: seq<Tick>, d: int, moment: int)
    requires AtMostApart(ticks, d) && ticks != []
    requires Instant(ticks[0].now) <= moment <= Instant(ticks[|ticks| - 1].now) + d
    ensures var n := TicksUntil(ticks, moment);
            n > 0 && Instant(ticks[n - 1].now) <= moment <= Instant(ticks[n - 1].now) + d
    decreases ticks
  {
    var rest := ticks[1..];
    if rest != [] && Instant(rest[0].now) <= moment {
      assert rest[|rest| - 1] == ticks[|ticks| - 1];
      LastTickIsClose(rest, d, moment);
    }
  }

  /** Over every run of ticks at most `d` apart, with a forward clock and successful backups, from
      any repository: at every moment from the first tick two hours after the start until `d`
      after the last, the latest backup of an enabled period is younger than `AgeBound` and `d`,
      which is 25 hours and 2 hours and `d` for a daily one, and so on.  Where the period is in step
      at the start, that is so from the first tick of all. */
  lemma NeverOlderThan(s: Settings, archives: seq<Archive>, clock: DateTime, ticks: seq<Tick>, p: Period, d: int,
                       k: nat, moment: DateTime)
    requires Sound(archives, clock) && IsRun(s, archives, clock, ticks)
    requires s.enabled && Limit(s.limits, p) >= 1 && AllSucceed(ticks)
    requires k < |ticks| && (InStep(archives, clock, p) || Instant(ticks[k].now) >= Instant(clock) + MIN_GAP)
    requires Instant(ticks[k].now) <= Instant(moment) <= Instant(ticks[|ticks| - 1].now) + d
    requires AtMostApart(ticks, d)
    ensures var done := ticks[..TicksUntil(ticks, Instant(moment))];
            Instant(moment) - Instant(RecentAt(AfterTicks(s, archives, done), moment, p)) < AgeBound(p) + d
  {
    YoungFrom(s, archives, clock, ticks, p, k);
    YoungAtMoment(s, archives, clock, ticks, p, d, k, moment);
  }

  lemma YoungAtMoment(s: Settings, archives: seq<Archive>, clock: DateTime, ticks: seq<Tick>, p: Period, d: int,
                      k: nat, moment: DateTime)
    requires Sound(archives, clock) && IsRun(s, archives, clock, ticks) && AtMostApart(ticks, d) && k < |ticks|
    requires AllYoungFrom(s, archives, ticks, p, Instant(ticks[k].now))
    requires Instant(ticks[k].now) <= Instant(moment) <= Instant(ticks[|ticks| - 1].now) + d
    ensures var done := ticks[..TicksUntil(ticks, Instant(moment))];
            Instant(moment) - Instant(RecentAt(AfterTicks(s, archives, done), moment, p)) < AgeBound(p) + d
  {
    var n := LastTick(s, archives, clock, ticks, d, k, moment);
    YoungAfter(s, archives, ticks, p, Instant(ticks[k].now), n);
    SoundAt(s, archives, clock, ticks, n);
    AgeAt(AfterTicks(s, archives, ticks[..n]), ticks[n - 1].now, moment, p, d);
  }

  lemma LastTick(s: Settings, archives: seq<Archive>, clock: DateTime, ticks: seq<Tick>, d: int, k: nat,
                 moment: DateTime)
    returns (n: nat)
    requires IsRun(s, archives, clock, ticks) && AtMostApart(ticks, d) && k < |ticks|
    requires Instant(ticks[k].now) <= Instant(moment) <= Instant(ticks[|ticks| - 1].now) + d
    ensures n == TicksUntil(ticks, Instant(moment)) && k < n <= |ticks|
    ensures Instant(ticks[k].now) <= Instant(ticks[n - 1].now) <= Instant(moment) <= Instant(ticks[n - 1].now) + d
  {
    n := TicksUntil(ticks, Instant(moment));
    TicksGoForward(s, archives, clock, ticks, 0, k);
    LastTickIsClose(ticks, d, Instant(moment));
    if n <= k {
      TicksGoForward(s, archives, clock, ticks, n, k);
    }
    TicksGoForward(s, archives, clock, ticks, k, n - 1);
  }

  lemma SoundAt(s: Settings, archives: seq<Archive>, clock: DateTime, ticks: seq<Tick>, n: nat)
    requires Sound(archives, clock) && IsRun(s, archives, clock, ticks) && 0 < n <= |ticks|
    ensures Sound(AfterTicks(s, archives, ticks[..n]), ticks[n - 1].now)
  {
    RunPrefix(s, archives, clock, ticks, n);
    SoundAfterTicks(s, archives, clock, ticks[..n]);
  }

  lemma YoungFrom(s: Settings, archives: seq<Archive>, clock: DateTime, ticks: seq<Tick>, p: Period, k: nat)
    requires Sound(archives, clock) && IsRun(s, archives, clock, ticks)
    requires s.enabled && Limit(s.limits, p) >= 1 && AllSucceed(ticks)
    requires k < |ticks| && (InStep(archives, clock, p) || Instant(ticks[k].now) >= Instant(clock) + MIN_GAP)
    ensures AllYoungFrom(s, archives, ticks, p, Instant(ticks[k].now))
  {
    if InStep(archives, clock, p) {
      YoungInStep(s, archives, clock, ticks, p, Instant(ticks[k].now));
    } else {
      NoneAfterClock(archives, clock, Instant(ticks[k].now) - MIN_GAP);
      YoungFromLatest(s, archives, clock, ticks, p, Instant(ticks[k].now));
    }
  }

  lemma NoneAfterClock(archives: seq<Archive>, clock: DateTime, latest: int)
    requires Instant(clock) <= latest
    ensures NoneAfter(archives, clock, latest)
  {
    forall q ensures Instant(RecentAt(archives, clock, q)) <= latest {
      RecentBounded(archives, clock, q);
    }
  }

  lemma AgeAt(archives: seq<Archive>, last: DateTime, moment: DateTime, p: Period, d: int)
    requires Sound(archives, last) && YoungEnough(archives, last, p)
    requires Instant(last) <= Instant(moment) <= Instant(last) + d
    ensures Instant(moment) - Instant(RecentAt(archives, moment, p)) < AgeBound(p) + d
  {
    ListedLater(archives, last, moment);
  }

  lemma {:induction false} SoundAfterTicks(s: Settings, archives: seq<Archive>, clock: DateTime, ticks: seq<Tick>)
    requires Sound(archives, clock) && IsRun(s, archives, clock, ticks)
    ensures Sound(AfterTicks(s, archives, ticks), if ticks == [] then clock else ticks[|ticks| - 1].now)
    decreases ticks
  {
    if ticks != [] {
      TickKeepsSound(s, archives, clock, ticks[0]);
      SoundAfterTicks(s, AfterTick(s, archives, ticks[0]), ticks[0].now, ticks[1..]);
    }
  }

  /** A repository without scheduled archives meets the conditions to start a run. */
  lemma FreshRepositoryIsInStep(archives: seq<Archive>, clock: DateTime, p: Period)
    requires DistinctNames(archives) && forall a | a in archives :: !a.comment.Scheduled?
    ensures Sound(archives, clock) && InStep(archives, clock, p)
    ensures Known(archives, clock, Instant(MIN))
  {
    ListedOrder(archives, clock);
    forall q ensures RecentAt(archives, clock, q) == MIN {
      MinFirstForNone(Listed(archives, clock), q);
    }
    DueIsAhead(p, MIN);
    assert Instant(MIN) <= Instant(RecentAt(archives, clock, p));
  }

  // ---------- The scheduled hour ----------

  /** Instants within an hour of the clock have its date and hour. */
  lemma SameHour(now: DateTime, hour: DateTime, h: int)
    requires 0 <= h < 24 && hour.time == h * HOUR
    requires Instant(hour) <= Instant(now) < Instant(hour) + HOUR
    ensures now == hour.(time := now.time) && Hour(now) == h && Hour(hour) == h
  {
    var end: DateTime := hour.(time := hour.time + HOUR - 1);
    FieldOrderIsInstantOrder(now, hour);
    FieldOrderIsInstantOrder(end, now);
  }

  lemma ScheduledWithinHour(now: DateTime, hour: DateTime, runAtHour: int, p: Period)
    requires 0 <= runAtHour < 24 && hour.time == runAtHour * HOUR && ScheduledNow(runAtHour, p, hour)
    requires Instant(hour) <= Instant(now) < Instant(hour) + HOUR
    ensures ScheduledNow(runAtHour, p, now)
  {
    SameHour(now, hour, runAtHour);
  }

  /** The period was backed up just now, or some backup was taken in the two hours before. */
  ghost predicate IsUsed(before: seq<Archive>, after: seq<Archive>, now: DateTime, p: Period) {
    || RecentAt(after, now, p) == now
    || exists q :: Instant(now) - Instant(RecentAt(before, now, q)) < MIN_GAP
  }

  lemma ScheduledTickIsUsed(s: Settings, archives: seq<Archive>, clock: DateTime, tick: Tick, p: Period)
    requires Sound(archives, clock) && Follows(archives, clock, tick)
    requires s.enabled && Limit(s.limits, p) >= 1 && tick.ok && tick.now.year < MAX_YEAR
    requires ScheduledNow(s.runAtHour, p, tick.now)
    ensures IsUsed(archives, AfterTick(s, archives, tick), tick.now, p)
  {
    var listed := Listed(archives, tick.now);
    DueExists(archives, tick.now, p);
    if TooSoon(listed, tick.now) {
      var q :| Instant(tick.now) - Instant(Recent(listed, q)) < MIN_GAP;
      assert Recent(listed, q) == RecentAt(archives, tick.now, q);
    } else {
      assert p in Selected(s, listed, tick.now);
      TakenUpdatesRecent(s, archives, tick, p);
    }
  }

  /** Over every run with ticks at most an hour apart, the hour for which a backup of the period is
      scheduled has a tick that takes it, unless some backup was taken in the two hours before that
      tick.  For monthly backups that is an hour on the first day of every month. */
  lemma {:induction false} ScheduledHourIsUsed(s: Settings, archives: seq<Archive>, clock: DateTime, ticks: seq<Tick>,
                                               p: Period, hour: DateTime) returns (n: nat)
    requires Sound(archives, clock) && IsRun(s, archives, clock, ticks) && ticks != [] && AtMostApart(ticks, HOUR)
    requires s.enabled && Limit(s.limits, p) >= 1 && AllSucceed(ticks)
    requires 0 <= s.runAtHour < 24 && hour.time == s.runAtHour * HOUR && ScheduledNow(s.runAtHour, p, hour)
    requires Instant(ticks[0].now) < Instant(hour) + HOUR && Instant(hour) <= Instant(ticks[|ticks| - 1].now)
    ensures n < |ticks| && Instant(hour) <= Instant(ticks[n].now) < Instant(hour) + HOUR
    ensures IsUsed(AfterTicks(s, archives, ticks[..n]), AfterTicks(s, archives, ticks[..n + 1]), ticks[n].now, p)
    decreases ticks
  {
    var next, rest := AfterTick(s, archives, ticks[0]), ticks[1..];
    if Instant(hour) <= Instant(ticks[0].now) {
      n := 0;
      ScheduledWithinHour(ticks[0].now, hour, s.runAtHour, p);
      ScheduledTickIsUsed(s, archives, clock, ticks[0], p);
      FirstTick(s, archives, ticks);
    } else {
      TickKeepsSound(s, archives, clock, ticks[0]);
      assert rest != [] && rest[|rest| - 1] == ticks[|ticks| - 1];
      var k := ScheduledHourIsUsed(s, next, ticks[0].now, rest, p, hour);
      LaterTicks(s, archives, ticks, k);
      LaterTicks(s, archives, ticks, k + 1);
      n := k + 1;
    }
  }

  lemma FirstTick(s: Settings, archives: seq<Archive>, ticks: seq<Tick>)
    requires ticks != []
    ensures AfterTicks(s, archives, ticks[..0]) == archives
    ensures AfterTicks(s, archives, ticks[..1]) == AfterTick(s, archives, ticks[0])
  {
    assert ticks[..1][1..] == [];
  }

  lemma LaterTicks(s: Settings, archives: seq<Archive>, ticks: seq<Tick>, n: nat)
    requires n < |ticks|
    ensures AfterTicks(s, archives, ticks[..n + 1]) == AfterTicks(s, AfterTick(s, archives, ticks[0]), ticks[1..][..n])
  {
    assert ticks[..n + 1][1..] == ticks[1..][..n];
  }
}
