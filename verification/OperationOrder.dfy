/** The order in which the operations manager starts its operations (plinth/operation.py): when it
    is the order of creation, and when it is not. */
module OperationOrder {
  import opened Wrappers
  import opened OperationRuns
  import opened OperationQueue

  // ---------- The order of the table ----------

  /** What waits in the table is in creation order. */
  ghost predicate WaitingIncreases(ops: seq<Op>, table: seq<nat>) {
    forall i, j | 0 <= i < j < |table| && IsWaiting(ops, table[i]) && IsWaiting(ops, table[j]) :: table[i] < table[j]
  }

  /** No operation newer than this one has started. */
  predicate NoneNewerStarted(ops: seq<Op>, t: nat) {
    forall u | t < u < |ops| :: IsWaiting(ops, u)
  }

  ghost predicate OldestFirst(ops: seq<Op>, table: seq<nat>) {
    forall t | t in table && IsWaiting(ops, t) :: NoneNewerStarted(ops, t)
  }

  /** What waits in the table is in creation order and newer than every started operation. */
  ghost predicate InCreationOrder(m: Manager) {
    WaitingIncreases(m.ops, m.table) && OldestFirst(m.ops, m.table)
  }

  lemma ScheduleNextKeepsOrder(m: Manager)
    requires InCreationOrder(m) && forall t | t in m.table :: t < |m.ops|
    ensures InCreationOrder(ScheduleNext(m))
  {
    var p, m' := FirstWaiting(m.ops, m.table), ScheduleNext(m);
    if m' != m {
      forall t | t in m.table && IsWaiting(m'.ops, t) ensures NoneNewerStarted(m'.ops, t) {
        var i :| 0 <= i < |m.table| && m.table[i] == t;
        assert IsWaiting(m.ops, t) && p <= i;
        assert NoneNewerStarted(m.ops, t);
        forall u | t < u < |m'.ops| ensures IsWaiting(m'.ops, u) {
          assert IsWaiting(m.ops, u);
        }
      }
      forall i, j | 0 <= i < j < |m.table| && IsWaiting(m'.ops, m.table[i]) && IsWaiting(m'.ops, m.table[j])
        ensures m.table[i] < m.table[j]
      {
        assert IsWaiting(m.ops, m.table[i]) && IsWaiting(m.ops, m.table[j]);
      }
    }
  }

  lemma SameOrder(ops: seq<Op>, ops': seq<Op>, table: seq<nat>)
    requires WaitingIncreases(ops, table) && OldestFirst(ops, table) && |ops'| == |ops|
    requires forall u | 0 <= u < |ops| :: IsWaiting(ops', u) == IsWaiting(ops, u)
    ensures WaitingIncreases(ops', table) && OldestFirst(ops', table)
  {
    forall t | t in table && IsWaiting(ops', t) ensures NoneNewerStarted(ops', t) {
      assert NoneNewerStarted(ops, t);
    }
    forall i, j | 0 <= i < j < |table| && IsWaiting(ops', table[i]) && IsWaiting(ops', table[j])
      ensures table[i] < table[j]
    {
      assert IsWaiting(ops, table[i]) && IsWaiting(ops, table[j]);
    }
  }

  lemma WithoutIncreases(ops: seq<Op>, table: seq<nat>, p: nat)
    requires WaitingIncreases(ops, table) && p < |table|
    ensures WaitingIncreases(ops, Without(table, p))
  {
    var rest := Without(table, p);
    forall i, j | 0 <= i < j < |rest| && IsWaiting(ops, rest[i]) && IsWaiting(ops, rest[j]) ensures rest[i] < rest[j] {
      assert rest[i] == table[if i < p then i else i + 1] && rest[j] == table[if j < p then j else j + 1];
    }
  }

  lemma {:induction false} PickIncreases(ops: seq<Op>, table: seq<nat>, appId: string)
    requires WaitingIncreases(ops, table)
    ensures WaitingIncreases(ops, Pick(ops, table, appId, false))
  {
    if table != [] {
      var rest := Pick(ops, table[1..], appId, false);
      PickIncreases(ops, table[1..], appId);
      forall i | 0 <= i < |rest| && IsWaiting(ops, table[0]) && IsWaiting(ops, rest[i]) ensures table[0] < rest[i] {
        assert rest[i] in table[1..];
        var k :| 0 < k < |table| && table[k] == rest[i];
      }
    }
  }

  // ---------- A new operation ----------

  /** The new operation is put behind everything that waits. */
  lemma AddedIncreases(m: Manager, id: string, appId: string, showMessage: bool)
    requires Invariant(m) && WaitingIncreases(m.ops, m.table)
    requires Accepts(m, id) && OvertakesNone(m, NewStep(id, appId, showMessage))
    ensures var added := Added(m, id, appId, showMessage); WaitingIncreases(added.ops, added.table)
  {
    var added, p := Added(m, id, appId, showMessage), Position(m.ops, m.table, id);
    forall i | 0 <= i < |added.table| && i != p
      ensures added.table[i] == m.table[i] < |m.ops|
      ensures IsWaiting(added.ops, added.table[i]) == IsWaiting(m.ops, m.table[i])
    {
      assert m.table[i] in m.table;
    }
  }

  lemma NewKeepsOrder(m: Manager, id: string, appId: string, showMessage: bool)
    requires Invariant(m) && InCreationOrder(m) && Accepts(m, id) && OvertakesNone(m, NewStep(id, appId, showMessage))
    ensures InCreationOrder(New(m, id, appId, showMessage))
  {
    var added := Added(m, id, appId, showMessage);
    AddedIncreases(m, id, appId, showMessage);
    PutAt(m.table, Position(m.ops, m.table, id), |m.ops|);
    assert forall u | 0 <= u < |m.ops| :: IsWaiting(added.ops, u) == IsWaiting(m.ops, u);
    forall t | t in added.table && IsWaiting(added.ops, t) ensures NoneNewerStarted(added.ops, t) {
      assert t < |m.ops| ==> NoneNewerStarted(m.ops, t);
    }
    ScheduleNextKeepsOrder(added);
  }

  /** One that takes over an entry in front of a waiting operation overtakes it, either by starting
      at once or by waiting in front of it. */
  lemma OvertakingBreaksOrder(m: Manager, id: string, appId: string, showMessage: bool)
    requires Invariant(m) && !OvertakesNone(m, NewStep(id, appId, showMessage))
    ensures !InCreationOrder(New(m, id, appId, showMessage))
  {
    var added, p, n := Added(m, id, appId, showMessage), Position(m.ops, m.table, id), |m.ops|;
    var i :| p < i < |m.table| && IsWaiting(m.ops, m.table[i]);
    var t, next := m.table[i], New(m, id, appId, showMessage);
    assert t in m.table && added.table[p] == n && added.table[i] == t;
    assert IsWaiting(added.ops, t) && IsWaiting(added.ops, n);
    PutAt(m.table, p, n);
    assert IsWaiting(next.ops, t);
    if !IsWaiting(next.ops, n) {
      assert t in next.table && !NoneNewerStarted(next.ops, t);
    }
  }

  // ---------- Every step ----------

  lemma CallbackKeepsOrder(m: Manager, t: nat)
    requires Invariant(m) && InCreationOrder(m) && Enabled(m, CallbackStep(t))
    ensures InCreationOrder(Callback(m, t))
  {
    var freed := Freed(m, t);
    var p := Position(m.ops, m.table, m.ops[t].id);
    SameOrder(m.ops, freed.ops, m.table);
    if m.ops[t].showMessage {
      ScheduleNextKeepsOrder(freed);
    } else if p < |m.table| {
      DropAt(m.table, p);
      WithoutIncreases(freed.ops, m.table, p);
      ScheduleNextKeepsOrder(freed.(table := Without(m.table, p)));
    }
  }

  /** A step keeps the order of creation exactly when it overtakes nobody. */
  lemma StepKeepsOrderExactly(m: Manager, step: Step)
    requires Invariant(m) && InCreationOrder(m) && Enabled(m, step)
    ensures InCreationOrder(Apply(m, step)) <==> OvertakesNone(m, step)
  {
    match step
    case NewStep(id, appId, showMessage) =>
      if !OvertakesNone(m, step) {
        OvertakingBreaksOrder(m, id, appId, showMessage);
      } else if Accepts(m, id) {
        NewKeepsOrder(m, id, appId, showMessage);
      }
    case FinishStep(t) => SameOrder(m.ops, Finish(m, t).ops, m.table);
    case CallbackStep(t) => CallbackKeepsOrder(m, t);
    case CollectStep(appId) => PickIncreases(m.ops, m.table, appId);
  }

  // ---------- Runs ----------

  /** No new operation of the run overtakes a waiting one. */
  ghost predicate FairRun(m: Manager, steps: seq<Step>)
    decreases steps
  {
    steps != [] ==>
      && Enabled(m, steps[0]) && OvertakesNone(m, steps[0])
      && FairRun(Apply(m, steps[0]), steps[1..])
  }

  /** The order of creation holds at every moment of the run. */
  ghost predicate AlwaysInOrder(m: Manager, steps: seq<Step>)
    requires IsRun(m, steps)
    decreases steps
  {
    InCreationOrder(m) && (steps != [] ==> AlwaysInOrder(Apply(m, steps[0]), steps[1..]))
  }

  lemma {:induction false} AlwaysInOrderExactly(m: Manager, steps: seq<Step>)
    requires Invariant(m) && InCreationOrder(m) && IsRun(m, steps)
    ensures AlwaysInOrder(m, steps) <==> FairRun(m, steps)
    decreases steps
  {
    if steps != [] {
      var next := Apply(m, steps[0]);
      StepKeepsInvariant(m, steps[0]);
      StepKeepsOrderExactly(m, steps[0]);
      if InCreationOrder(next) {
        AlwaysInOrderExactly(next, steps[1..]);
      }
    }
  }

  lemma {:induction false} FairRunKeepsOrder(m: Manager, steps: seq<Step>)
    requires Invariant(m) && InCreationOrder(m) && FairRun(m, steps)
    ensures IsRun(m, steps) && InCreationOrder(After(m, steps))
    decreases steps
  {
    if steps != [] {
      StepKeepsInvariant(m, steps[0]);
      StepKeepsOrderExactly(m, steps[0]);
      FairRunKeepsOrder(Apply(m, steps[0]), steps[1..]);
    }
  }

  /** In every run in which nobody is overtaken, whatever comes between completion and callback,
      operations start in the order in which they were created: an older operation than a started
      one has started too, or its entry is gone, and then it never starts. */
  lemma StartsInCreationOrder(steps: seq<Step>, t: nat, u: nat, more: seq<Step>)
    requires FairRun(INITIAL, steps)
    ensures IsRun(INITIAL, steps)
    ensures var m := After(INITIAL, steps);
            t < u < |m.ops| && m.ops[u].status != Waiting && m.ops[t].status == Waiting && IsRun(m, more) ==>
              IsOrphan(m, t) && IsOrphan(After(m, more), t)
  {
    FairRunKeepsOrder(INITIAL, steps);
    var m := After(INITIAL, steps);
    if t < u < |m.ops| && m.ops[u].status != Waiting && m.ops[t].status == Waiting && IsRun(m, more) {
      RunKeepsInvariant(INITIAL, steps);
      assert !IsWaiting(m.ops, u) && !NoneNewerStarted(m.ops, t);
      OrphanNeverStarts(m, more, t);
    }
  }

  ghost predicate FreshRun(m: Manager, steps: seq<Step>)
    decreases steps
  {
    steps != [] ==>
      && Enabled(m, steps[0]) && FreshId(m, steps[0])
      && FreshRun(Apply(m, steps[0]), steps[1..])
  }

  /** Runs without reused ids are among these. */
  lemma {:induction false} FreshRunIsFair(m: Manager, steps: seq<Step>)
    requires FreshRun(m, steps)
    ensures FairRun(m, steps)
    decreases steps
  {
    if steps != [] {
      FreshOvertakesNone(m, steps[0]);
      FreshRunIsFair(Apply(m, steps[0]), steps[1..]);
    }
  }

  /** In any run, an operation that waits outside the table does so for good. */
  lemma {:induction false} OrphanNeverStarts(m: Manager, steps: seq<Step>, t: nat)
    requires Invariant(m) && IsRun(m, steps) && IsOrphan(m, t)
    ensures IsOrphan(After(m, steps), t)
    decreases steps
  {
    if steps != [] {
      StepKeepsInvariant(m, steps[0]);
      StepKeepsOrphan(m, steps[0], t);
      OrphanNeverStarts(Apply(m, steps[0]), steps[1..], t);
    }
  }

  ghost predicate IsOrphan(m: Manager, t: nat) {
    IsWaiting(m.ops, t) && t !in m.table
  }

  lemma ScheduleNextKeepsOrphan(m: Manager, t: nat)
    requires IsOrphan(m, t)
    ensures IsOrphan(ScheduleNext(m), t)
  {
  }

  lemma NewKeepsOrphan(m: Manager, id: string, appId: string, showMessage: bool, t: nat)
    requires Invariant(m) && IsOrphan(m, t)
    ensures IsOrphan(New(m, id, appId, showMessage), t)
  {
    if Accepts(m, id) {
      PutAt(m.table, Position(m.ops, m.table, id), |m.ops|);
      ScheduleNextKeepsOrphan(Added(m, id, appId, showMessage), t);
    }
  }

  lemma CallbackKeepsOrphan(m: Manager, c: nat, t: nat)
    requires Invariant(m) && Enabled(m, CallbackStep(c)) && IsOrphan(m, t)
    ensures IsOrphan(Callback(m, c), t)
  {
    var freed := Freed(m, c);
    var p := Position(m.ops, m.table, m.ops[c].id);
    if m.ops[c].showMessage {
      ScheduleNextKeepsOrphan(freed, t);
    } else if p < |m.table| {
      DropAt(m.table, p);
      ScheduleNextKeepsOrphan(freed.(table := Without(m.table, p)), t);
    }
  }

  lemma StepKeepsOrphan(m: Manager, step: Step, t: nat)
    requires Invariant(m) && Enabled(m, step) && IsOrphan(m, t)
    ensures IsOrphan(Apply(m, step), t)
  {
    match step
    case NewStep(id, appId, showMessage) => NewKeepsOrphan(m, id, appId, showMessage, t);
    case FinishStep(_) =>
    case CallbackStep(c) => CallbackKeepsOrphan(m, c, t);
    case CollectStep(_) =>
  }

  /** If moreover nothing is lost, every operation older than a started one has started. */
  lemma OrderlyRunStartsInOrder(steps: seq<Step>, t: nat, u: nat)
    requires OrderlyRun(INITIAL, steps)
    ensures IsRun(INITIAL, steps)
    ensures var m := After(INITIAL, steps);
            t < u < |m.ops| && m.ops[u].status != Waiting ==> m.ops[t].status != Waiting
  {
    OrderlyRunIsRun(INITIAL, steps);
    OrderlyRunIsFair(INITIAL, steps);
    FairRunKeepsOrder(INITIAL, steps);
    var m := After(INITIAL, steps);
    if t < u < |m.ops| && m.ops[u].status != Waiting {
      assert !IsWaiting(m.ops, u) && !NoneNewerStarted(m.ops, t);
    }
  }

  lemma {:induction false} OrderlyRunIsFair(m: Manager, steps: seq<Step>)
    requires OrderlyRun(m, steps)
    ensures FairRun(m, steps)
    decreases steps
  {
    if steps != [] {
      OrderlyRunIsFair(Apply(m, steps[0]), steps[1..]);
    }
  }

  // ---------- Overtaking ----------

  /** A successor of the first, finished operation takes over its place in front. */
  lemma SuccessorInFront(a: Op, b: Op)
    requires a.id != b.id && a.status == Completed && !a.notified && a.showMessage && b.status == Waiting
    ensures Enabled(Manager([a, b], [0, 1], Some(0)), NewStep(a.id, a.appId, true))
    ensures Apply(Manager([a, b], [0, 1], Some(0)), NewStep(a.id, a.appId, true)) ==
            Manager([a, b, Op(a.id, a.appId, true, Waiting, false)], [2, 1], Some(0))
  {
  }

  lemma SuccessorStarted(a: Op, b: Op, c: Op)
    requires a.status == Completed && !a.notified && a.showMessage && c.status == Waiting
    ensures Enabled(Manager([a, b, c], [2, 1], Some(0)), CallbackStep(0))
    ensures Apply(Manager([a, b, c], [2, 1], Some(0)), CallbackStep(0)) ==
            Manager([a.(notified := true), b, c.(status := Running)], [2, 1], Some(2))
  {
    assert [a, b, c][0 := a.(notified := true)] == [a.(notified := true), b, c];
    assert FirstWaiting([a.(notified := true), b, c], [2, 1]) == 0;
  }

  /** Reusing the id of a finished operation that is still listed overtakes older requests. */
  lemma OvertakingExample() returns (steps: seq<Step>, m: Manager)
    ensures IsRun(INITIAL, steps) && m == After(INITIAL, steps)
    ensures forall i | 0 <= i < |steps| :: steps[i].NewStep? ==> steps[i].showMessage
    ensures |m.ops| == 3 && m.ops[2].status == Running && IsWaiting(m.ops, 1)
  {
    var a, b := Op("a", "app", true, Running, false), Op("b", "app", true, Waiting, false);
    var done, again := a.(status := Completed), Op("a", "app", true, Waiting, false);
    var m4 := Manager([done, b, again], [2, 1], Some(0));
    m := Manager([done.(notified := true), b, again.(status := Running)], [2, 1], Some(2));
    SuccessorStarted(done, b, again);
    steps := OneMore(m4, CallbackStep(0), m, [], m);
    SuccessorInFront(done, b);
    steps := OneMore(Manager([done, b], [0, 1], Some(0)), NewStep("a", "app", true), m4, steps, m);
    steps := FirstFinished(a, b, steps, m);
  }
}
