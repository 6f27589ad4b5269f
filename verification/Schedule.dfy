/** The schedule and the repository as objects (plinth/modules/backups/schedule.py): the loops over
    archives and periods, proved to take the ticks of ScheduleRuns. */
module Schedule {
  import opened Wrappers
  import opened Calendar
  import opened Retention
  import opened ScheduleRuns

  const PERIODS := [Daily, Weekly, Monthly]

  function IndexOf(p: Period): (k: nat)
    ensures k < 3 && PERIODS[k] == p
  {
    match p case Daily => 0 case Weekly => 1 case Monthly => 2
  }

  class Repository {
    var archives: seq<Archive>

    constructor (archives: seq<Archive>)
      ensures this.archives == archives
    {
      this.archives := archives;
    }

    method ListArchives() returns (r: seq<Archive>)
      ensures IsStablySorted(r, archives)
    {
      NewestFirstIsStable(archives);
      r := NewestFirst(archives);
    }

    /** False stands for the exception of a failed backup. */
    method CreateArchive(a: Archive, succeeds: bool) returns (ok: bool)
      modifies this
      ensures ok == succeeds
      ensures archives == if succeeds then old(archives) + [a] else old(archives)
    {
      ok := succeeds;
      if succeeds {
        archives := archives + [a];
      }
    }

    method DeleteArchive(name: string)
      modifies this
      ensures archives == Filter(Sparing({name}), old(archives))
    {
      archives := Filter(Sparing({name}), archives);
    }
  }

  lemma {:induction false} SpareOneMore(names: set<string>, name: string, s: seq<Archive>)
    ensures Filter(Sparing({name}), Filter(Sparing(names), s)) == Filter(Sparing(names + {name}), s)
  {
    if s != [] {
      SpareOneMore(names, name, s[1..]);
      FilterCons(Sparing({name}), s[0], Filter(Sparing(names), s[1..]));
    }
  }

  /** The names of the archives that the cleanup has deleted before it comes to the n-th. */
  ghost function DoomedBefore(limits: Limits, listed: seq<Archive>, n: nat): set<string>
    requires n <= |listed|
  {
    if n == 0 then {}
    else if Kept(limits, listed, n - 1) then DoomedBefore(limits, listed, n - 1)
    else DoomedBefore(limits, listed, n - 1) + {listed[n - 1].name}
  }

  lemma {:induction false} DoomedBeforeExactly(limits: Limits, listed: seq<Archive>, n: nat, name: string)
    requires n <= |listed|
    ensures name in DoomedBefore(limits, listed, n) <==>
              exists k :: 0 <= k < n && listed[k].name == name && !Kept(limits, listed, k)
  {
    if n > 0 {
      DoomedBeforeExactly(limits, listed, n - 1, name);
    }
  }

  /** What is left of the archives when the cleanup comes to the n-th of those listed. */
  function CleanedBefore(limits: Limits, archives: seq<Archive>, listed: seq<Archive>, n: nat): seq<Archive>
    requires n <= |listed|
  {
    if n == 0 then archives
    else
      var before := CleanedBefore(limits, archives, listed, n - 1);
      if Kept(limits, listed, n - 1) then before else Filter(Sparing({listed[n - 1].name}), before)
  }

  /** Deleting one after the other is deleting all those names. */
  lemma {:induction false} CleanedBeforeSpares(limits: Limits, archives: seq<Archive>, listed: seq<Archive>, n: nat)
    requires n <= |listed|
    ensures CleanedBefore(limits, archives, listed, n) == Filter(Sparing(DoomedBefore(limits, listed, n)), archives)
  {
    if n == 0 {
      FilterAll(Sparing({}), archives);
    } else {
      var names := DoomedBefore(limits, listed, n - 1);
      CleanedBeforeSpares(limits, archives, listed, n - 1);
      SpareOneMore(names, listed[n - 1].name, archives);
    }
  }

  lemma CleanedAtEnd(limits: Limits, archives: seq<Archive>, now: DateTime)
    ensures var listed := Listed(archives, now);
            CleanedBefore(limits, archives, listed, |listed|) == Cleaned(limits, archives, now)
  {
    var listed := Listed(archives, now);
    CleanedBeforeSpares(limits, archives, listed, |listed|);
    forall name ensures name in DoomedBefore(limits, listed, |listed|) <==> name in Doomed(limits, listed) {
      DoomedBeforeExactly(limits, listed, |listed|, name);
    }
    assert DoomedBefore(limits, listed, |listed|) == Doomed(limits, listed);
  }

  lemma TooSoonByTimes(archives: seq<Archive>, times: map<Period, DateTime>, now: DateTime)
    requires forall p :: p in times && times[p] == RecentAt(archives, now, p)
    ensures TooSoon(Listed(archives, now), now) <==> exists p :: Instant(now) - Instant(times[p]) < MIN_GAP
  {
    var listed := Listed(archives, now);
    if p :| Instant(now) - Instant(times[p]) < MIN_GAP {
      assert times[p] == RecentAt(archives, now, p) == Recent(listed, p);
    }
    if TooSoon(listed, now) {
      var p :| Instant(now) - Instant(Recent(listed, p)) < MIN_GAP;
      assert times[p] == RecentAt(archives, now, p) == Recent(listed, p);
    }
  }

  class BackupSchedule {
    const settings: Settings

    constructor (settings: Settings)
      ensures this.settings == settings
    {
      this.settings := settings;
    }

    method ListScheduledArchives(repository: Repository, now: DateTime) returns (scheduled: seq<Archive>)
      ensures scheduled == Listed(repository.archives, now)
    {
      var archives := repository.ListArchives();
      StableOrderIsUnique(archives, repository.archives);
      scheduled := [];
      for i := 0 to |archives|
        invariant scheduled == Filter(a => Counts(a, now), archives[..i])
      {
        assert archives[..i + 1] == archives[..i] + [archives[i]];
        FilterSnoc(a => Counts(a, now), archives[..i], archives[i]);
        if !archives[i].comment.Scheduled? {
          continue;
        }
        if Instant(archives[i].start) > Instant(now) {
          continue;
        }
        scheduled := scheduled + [archives[i]];
      }
      assert archives[..|archives|] == archives;
    }

    method GetRecentBackupTimes(repository: Repository, now: DateTime) returns (times: map<Period, DateTime>)
      ensures forall p :: p in times && times[p] == RecentAt(repository.archives, now, p)
    {
      times := map[Daily := MIN, Weekly := MIN, Monthly := MIN];
      var archives := ListScheduledArchives(repository, now);
      forall p: Period ensures p in times && times[p] == Recent([], p) {
        match p case Daily => case Weekly => case Monthly =>
      }
      for i := 0 to |archives|
        invariant forall p :: p in times && times[p] == Recent(archives[..i], p)
      {
        times := UpdateTimes(times, archives[i], archives, i);
      }
      assert archives[..|archives|] == archives;
    }

    /** The loop over the periods of one archive in the lookup of the most recent times. */
    static method UpdateTimes(before: map<Period, DateTime>, archive: Archive, ghost archives: seq<Archive>,
                              ghost i: nat)
      returns (times: map<Period, DateTime>)
      requires i < |archives| && archive == archives[i]
      requires forall p :: p in before && before[p] == Recent(archives[..i], p)
      ensures forall p :: p in times && times[p] == Recent(archives[..i + 1], p)
    {
      assert archives[..i + 1][..i] == archives[..i];
      times := before;
      for k := 0 to 3
        invariant forall p :: p in times
        invariant forall l | 0 <= l < k :: times[PERIODS[l]] == Recent(archives[..i + 1], PERIODS[l])
        invariant forall l | k <= l < 3 :: times[PERIODS[l]] == before[PERIODS[l]]
      {
        var p := PERIODS[k];
        if InPeriod(archive, p) && Instant(times[p]) < Instant(archive.start) {
          times := times[p := archive.start];
        }
      }
      forall p: Period ensures times[p] == Recent(archives[..i + 1], p) {
        assert p == PERIODS[IndexOf(p)];
      }
    }

    static method IsBackupTooSoon(times: map<Period, DateTime>, now: DateTime) returns (r: bool)
      requires forall p: Period :: p in times
      ensures r <==> exists p :: Instant(now) - Instant(times[p]) < MIN_GAP
    {
      if Instant(now) - Instant(times[Daily]) < MIN_GAP {
        return true;
      }
      if Instant(now) - Instant(times[Weekly]) < MIN_GAP {
        return true;
      }
      if Instant(now) - Instant(times[Monthly]) < MIN_GAP {
        return true;
      }
      forall p: Period ensures !(Instant(now) - Instant(times[p]) < MIN_GAP) {
        match p case Daily => case Weekly => case Monthly =>
      }
      return false;
    }

    /** None stands for the ValueError of a next monthly date that does not exist. */
    static method TooLongSinceLastBackup(times: map<Period, DateTime>, now: DateTime)
      returns (periods: Option<seq<Period>>)
      requires forall p: Period :: p in times
      ensures periods.None? <==> NextMonthly(times[Monthly]).None?
      ensures periods.Some? ==> forall p :: p in periods.value <==> Overdue(p, times[p], now)
    {
      var r: seq<Period> := [];
      if Instant(now) - Instant(times[Daily]) > DAY + HOUR {
        r := r + [Daily];
      }
      if Instant(now) - Instant(times[Weekly]) > 7 * DAY + HOUR {
        r := r + [Weekly];
      }
      assert Daily in r <==> Overdue(Daily, times[Daily], now);
      assert Weekly in r <==> Overdue(Weekly, times[Weekly], now);
      var next := NextMonthly(times[Monthly]);
      if next.None? {
        return None;
      }
      if Instant(now) > Instant(next.value) + HOUR {
        r := r + [Monthly];
      }
      return Some(r);
    }

    method TimeForPeriods(now: DateTime) returns (periods: seq<Period>)
      ensures forall p :: p in periods <==> ScheduledNow(settings.runAtHour, p, now)
    {
      periods := [];
      if Hour(now) == settings.runAtHour {
        periods := periods + [Daily];
      }
      if Hour(now) == settings.runAtHour && IsSunday(now) {
        periods := periods + [Weekly];
      }
      if Hour(now) == settings.runAtHour && now.day == 1 {
        periods := periods + [Monthly];
      }
    }

    method GetDisabledPeriods() returns (periods: seq<Period>)
      ensures forall p :: p in periods <==> Limit(settings.limits, p) == 0
    {
      periods := [];
      if settings.limits.daily == 0 {
        periods := periods + [Daily];
      }
      if settings.limits.weekly == 0 {
        periods := periods + [Weekly];
      }
      if settings.limits.monthly == 0 {
        periods := periods + [Monthly];
      }
    }

    /** Delete the archives that no limit keeps. */
    method RunCleanup(repository: Repository, now: DateTime)
      modifies repository
      ensures repository.archives == Cleaned(settings.limits, old(repository.archives), now)
    {
      var archives := ListScheduledArchives(repository, now);
      var counts := map[Daily := 0, Weekly := 0, Monthly := 0];
      forall p: Period ensures p in counts && counts[p] == Count([], p) {
        match p case Daily => case Weekly => case Monthly =>
      }
      for i := 0 to |archives|
        invariant forall p :: p in counts && counts[p] == Count(archives[..i], p)
        invariant repository.archives == CleanedBefore(settings.limits, old(repository.archives), archives, i)
      {
        var keep;
        counts, keep := CountArchive(counts, archives[i], archives, i);
        if !keep {
          repository.DeleteArchive(archives[i].name);
        }
      }
      CleanedAtEnd(settings.limits, old(repository.archives), now);
    }

    /** The loop over the periods of one archive. */
    method CountArchive(before: map<Period, int>, archive: Archive, ghost archives: seq<Archive>, ghost i: nat)
      returns (counts: map<Period, int>, keep: bool)
      requires i < |archives| && archive == archives[i]
      requires forall p :: p in before && before[p] == Count(archives[..i], p)
      ensures forall p :: p in counts && counts[p] == Count(archives[..i + 1], p)
      ensures keep <==> Kept(settings.limits, archives, i)
    {
      assert archives[..i + 1][..i] == archives[..i];
      counts, keep := before, false;
      for k := 0 to 3
        invariant forall p :: p in counts
        invariant forall l | 0 <= l < k :: counts[PERIODS[l]] == Rank(archives, i, PERIODS[l])
        invariant forall l | k <= l < 3 :: counts[PERIODS[l]] == before[PERIODS[l]]
        invariant keep <==> exists l | 0 <= l < k ::
                    InPeriod(archive, PERIODS[l]) && Rank(archives, i, PERIODS[l]) <= Limit(settings.limits, PERIODS[l])
      {
        var p := PERIODS[k];
        if InPeriod(archive, p) {
          counts := counts[p := counts[p] + 1];
          if counts[p] <= Limit(settings.limits, p) {
            keep := true;
          }
        }
      }
      forall p: Period ensures counts[p] == Rank(archives, i, p) {
        assert p == PERIODS[IndexOf(p)];
      }
      if Kept(settings.limits, archives, i) {
        var p :| InPeriod(archive, p) && Rank(archives, i, p) <= Limit(settings.limits, p);
        assert p == PERIODS[IndexOf(p)];
      }
    }

    /** The periods that are overdue or scheduled now, without the disabled ones. */
    method DuePeriods(times: map<Period, DateTime>, now: DateTime) returns (periods: Option<set<Period>>)
      requires forall p: Period :: p in times
      ensures periods.None? <==> NextMonthly(times[Monthly]).None?
      ensures periods.Some? ==> forall p :: p in periods.value <==>
                && Limit(settings.limits, p) != 0
                && (Overdue(p, times[p], now) || ScheduledNow(settings.runAtHour, p, now))
    {
      var tooLong := TooLongSinceLastBackup(times, now);
      if tooLong.None? {
        return None;
      }
      var timeFor := TimeForPeriods(now);
      var disabled := GetDisabledPeriods();
      return Some((set p | p in tooLong.value || p in timeFor) - (set p | p in disabled));
    }

    /** Take a backup if one is due, and clean up. */
    method RunSchedule(repository: Repository, tick: Tick) returns (outcome: Outcome)
      modifies repository
      ensures outcome == OutcomeOf(settings, old(repository.archives), tick)
      ensures repository.archives == AfterTick(settings, old(repository.archives), tick)
    {
      if !settings.enabled {
        return NotTaken;
      }
      var times := GetRecentBackupTimes(repository, tick.now);
      var tooSoon := IsBackupTooSoon(times, tick.now);
      TooSoonByTimes(repository.archives, times, tick.now);
      if tooSoon {
        return NotTaken;
      }
      var periods := DuePeriods(times, tick.now);
      if periods.None? {
        return Raised;
      }
      assert periods.value == Selected(settings, Listed(repository.archives, tick.now), tick.now);
      if periods.value == {} {
        return NotTaken;
      }
      var ok := repository.CreateArchive(Archive(tick.name, tick.now, Scheduled(SortedNames(periods.value))), tick.ok);
      if !ok {
        return Raised;
      }
      RunCleanup(repository, tick.now);
      return Taken;
    }
  }
}
