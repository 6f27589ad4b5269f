/** The one-at-a-time scheduler of background operations (plinth/operation.py), as a state
    machine over the steps that any number of threads can interleave.

    Every method of the manager runs under its lock and so is one step.  The one change made
    outside the lock is the worker thread's move of its own operation from RUNNING to COMPLETED,
    some time before it asks for the lock to run the completion callback: two steps, and other
    threads can act between them.
 */
module OperationRuns {
  import opened Wrappers

  datatype Status = Waiting | Running | Completed

  /** `notified` says that the completion callback has run. */
  datatype Op = Op(id: string, appId: string, showMessage: bool, status: Status, notified: bool)

  /** `ops` are all operations ever accepted, oldest first; the position of one is its token.
      `table` lists the tokens in the order of the manager's ordered dictionary. */
  datatype Manager = Manager(ops: seq<Op>, table: seq<nat>, current: Option<nat>)

  const INITIAL := Manager([], [], None)

  predicate HasId(ops: seq<Op>, t: nat, id: string) {
    t < |ops| && ops[t].id == id
  }

  predicate IsWaiting(ops: seq<Op>, t: nat) {
    t < |ops| && ops[t].status == Waiting
  }

  // ---------- The steps ----------

  /** The position in the table of the operation with the given id, or the table's length. */
  function Position(ops: seq<Op>, table: seq<nat>, id: string): (p: nat)
    ensures p <= |table|
    ensures p < |table| ==> HasId(ops, table[p], id)
    ensures forall i | 0 <= i < p :: !HasId(ops, table[i], id)
  {
    if table == [] || HasId(ops, table[0], id) then 0 else 1 + Position(ops, table[1..], id)
  }

  function Lookup(m: Manager, id: string): (r: Option<nat>)
    ensures r.Some? ==> HasId(m.ops, r.value, id)
  {
    var p := Position(m.ops, m.table, id);
    if p < |m.table| then Some(m.table[p]) else None
  }

  function FirstWaiting(ops: seq<Op>, table: seq<nat>): (p: nat)
    ensures p <= |table|
    ensures p < |table| ==> IsWaiting(ops, table[p])
    ensures forall i | 0 <= i < p :: !IsWaiting(ops, table[i])
  {
    if table == [] || IsWaiting(ops, table[0]) then 0 else 1 + FirstWaiting(ops, table[1..])
  }

  /** With nothing current, start the first waiting operation of the table. */
  function ScheduleNext(m: Manager): Manager {
    var p := FirstWaiting(m.ops, m.table);
    if m.current.Some? || p == |m.table| then m else Started(m, m.table[p])
  }

  function Started(m: Manager, t: nat): Manager
    requires t < |m.ops|
  {
    m.(current := Some(t), ops := m.ops[t := m.ops[t].(status := Running)])
  }

  predicate Accepts(m: Manager, id: string) {
    Lookup(m, id).None? || m.ops[Lookup(m, id).value].status == Completed
  }

  /** A rejected request raises KeyError and leaves the manager as it was.  An accepted one keeps
      the position of the completed operation it replaces. */
  function New(m: Manager, id: string, appId: string, showMessage: bool): Manager {
    if Accepts(m, id) then ScheduleNext(Added(m, id, appId, showMessage)) else m
  }

  function Added(m: Manager, id: string, appId: string, showMessage: bool): Manager {
    m.(ops := m.ops + [Op(id, appId, showMessage, Waiting, false)],
       table := Put(m.table, Position(m.ops, m.table, id), |m.ops|))
  }

  /** Assignment to an ordered dictionary: an existing key keeps its position. */
  function Put(table: seq<nat>, p: nat, t: nat): seq<nat> {
    if p < |table| then table[p := t] else table + [t]
  }

  function Without(table: seq<nat>, p: nat): seq<nat>
    requires p < |table|
  {
    table[..p] + table[p + 1..]
  }

  /** The worker thread's target returns or raises. */
  function Finish(m: Manager, t: nat): Manager
    requires t < |m.ops|
  {
    m.(ops := m.ops[t := m.ops[t].(status := Completed)])
  }

  /** The worker thread's completion callback.  Without a table entry under the operation's id the
      deletion raises KeyError, and scheduling is not reached. */
  function Callback(m: Manager, t: nat): Manager
    requires t < |m.ops|
  {
    var freed := Freed(m, t);
    var p := Position(m.ops, m.table, m.ops[t].id);
    if m.ops[t].showMessage then ScheduleNext(freed)
    else if p == |m.table| then freed
    else ScheduleNext(freed.(table := Without(m.table, p)))
  }

  function Freed(m: Manager, t: nat): Manager
    requires t < |m.ops|
  {
    m.(current := None, ops := m.ops[t := m.ops[t].(notified := true)])
  }

  predicate Collectable(ops: seq<Op>, t: nat, appId: string) {
    t < |ops| && ops[t].appId == appId && ops[t].status == Completed
  }

  /** The tokens of the table whose operations are finished operations of the app, or the others. */
  function Pick(ops: seq<Op>, table: seq<nat>, appId: string, finished: bool): (r: seq<nat>)
    ensures forall t :: t in r <==> t in table && Collectable(ops, t, appId) == finished
  {
    if table == [] then []
    else (if Collectable(ops, table[0], appId) == finished then [table[0]] else [])
         + Pick(ops, table[1..], appId, finished)
  }

  function Collect(m: Manager, appId: string): Manager {
    m.(table := Pick(m.ops, m.table, appId, false))
  }

  datatype Step =
    | NewStep(id: string, appId: string, showMessage: bool)
    | FinishStep(t: nat)
    | CallbackStep(t: nat)
    | CollectStep(appId: string)

  /** A worker finishes once, after it was started, and calls back once, after it finished. */
  predicate Enabled(m: Manager, step: Step) {
    match step
    case NewStep(_, _, _) => true
    case FinishStep(t) => t < |m.ops| && m.ops[t].status == Running
    case CallbackStep(t) => t < |m.ops| && m.ops[t].status == Completed && !m.ops[t].notified
    case CollectStep(_) => true
  }

  function Apply(m: Manager, step: Step): Manager
    requires Enabled(m, step)
  {
    match step
    case NewStep(id, appId, showMessage) => New(m, id, appId, showMessage)
    case FinishStep(t) => Finish(m, t)
    case CallbackStep(t) => Callback(m, t)
    case CollectStep(appId) => Collect(m, appId)
  }

  // ---------- What every step keeps ----------

  ghost predicate NoDuplicates(s: seq<nat>) {
    forall i, j | 0 <= i < j < |s| :: s[i] != s[j]
  }

  /** Started, and its completion callback has not run. */
  predicate Active(op: Op) {
    op.status != Waiting && !op.notified
  }

  ghost predicate Invariant(m: Manager) {
    && (forall t | t in m.table :: t < |m.ops|)
    && (m.current.Some? ==> m.current.value < |m.ops|)
    && NoDuplicates(m.table)
    && (forall t, u | t in m.table && u in m.table && m.ops[t].id == m.ops[u].id :: t == u)
    && (forall t | 0 <= t < |m.ops| :: Active(m.ops[t]) <==> m.current == Some(t))
    && (forall t | 0 <= t < |m.ops| :: m.ops[t].notified ==> m.ops[t].status == Completed)
    && (forall t | 0 <= t < |m.ops| :: m.ops[t].status == Running ==> t in m.table)
    && (m.current.Some? ==> EntryOfCurrent(m, m.current.value))
  }

  /** Under the id of the current operation the table has that operation itself, a successor that
      waits, or nothing. */
  ghost predicate EntryOfCurrent(m: Manager, t: nat)
    requires t < |m.ops| && forall u | u in m.table :: u < |m.ops|
  {
    forall u | u in m.table && m.ops[u].id == m.ops[t].id :: u == t || m.ops[u].status == Waiting
  }

  lemma DropAt(table: seq<nat>, p: nat)
    requires NoDuplicates(table) && p < |table|
    ensures NoDuplicates(Without(table, p))
    ensures forall t :: t in Without(table, p) <==> t in table && t != table[p]
  {
    var rest := Without(table, p);
    forall t | t in table && t != table[p] ensures t in rest {
      var i :| 0 <= i < |table| && table[i] == t;
      assert rest[if i < p then i else i - 1] == t;
    }
    forall t | t in rest ensures t in table && t != table[p] {
      var i :| 0 <= i < |rest| && rest[i] == t;
      assert t == table[if i < p then i else i + 1];
    }
  }

  lemma PutAt(table: seq<nat>, p: nat, t: nat)
    requires NoDuplicates(table) && p <= |table| && t !in table
    ensures NoDuplicates(Put(table, p, t))
    ensures forall u :: u in Put(table, p, t) <==> u == t || (u in table && (p < |table| ==> u != table[p]))
  {
    var put := Put(table, p, t);
    assert put[p] == t;
    forall u | u in table && (p < |table| ==> u != table[p]) ensures u in put {
      var i :| 0 <= i < |table| && table[i] == u;
      assert put[i] == u;
    }
  }

  lemma {:induction false} PickNoDuplicates(ops: seq<Op>, table: seq<nat>, appId: string, finished: bool)
    requires NoDuplicates(table)
    ensures NoDuplicates(Pick(ops, table, appId, finished))
  {
    if table != [] {
      PickNoDuplicates(ops, table[1..], appId, finished);
    }
  }

  lemma ScheduleNextKeepsInvariant(m: Manager)
    requires Invariant(m)
    ensures Invariant(ScheduleNext(m))
  {
  }

  lemma NewKeepsInvariant(m: Manager, id: string, appId: string, showMessage: bool)
    requires Invariant(m)
    ensures Invariant(New(m, id, appId, showMessage))
  {
    if Accepts(m, id) {
      var p := Position(m.ops, m.table, id);
      PutAt(m.table, p, |m.ops|);
      var added := Added(m, id, appId, showMessage);
      assert p == |m.table| ==> forall u | u in m.table :: m.ops[u].id != id;
      ScheduleNextKeepsInvariant(added);
    }
  }

  lemma DropKeepsInvariant(m: Manager, p: nat)
    requires Invariant(m) && m.current.None? && p < |m.table|
    ensures Invariant(m.(table := Without(m.table, p)))
  {
    DropAt(m.table, p);
    var t := m.table[p];
    assert t in m.table;
    assert !Active(m.ops[t]);
  }

  lemma CallbackKeepsInvariant(m: Manager, t: nat)
    requires Invariant(m) && Enabled(m, CallbackStep(t))
    ensures Invariant(Callback(m, t))
  {
    var freed := Freed(m, t);
    assert Invariant(freed);
    ScheduleNextKeepsInvariant(freed);
    var p := Position(m.ops, m.table, m.ops[t].id);
    if p < |m.table| {
      DropKeepsInvariant(freed, p);
      ScheduleNextKeepsInvariant(freed.(table := Without(m.table, p)));
    }
  }

  lemma StepKeepsInvariant(m: Manager, step: Step)
    requires Invariant(m) && Enabled(m, step)
    ensures Invariant(Apply(m, step))
  {
    match step
    case NewStep(id, appId, showMessage) => NewKeepsInvariant(m, id, appId, showMessage);
    case FinishStep(t) =>
    case CallbackStep(t) => CallbackKeepsInvariant(m, t);
    case CollectStep(appId) => PickNoDuplicates(m.ops, m.table, appId, false);
  }

  // ---------- Runs ----------

  ghost predicate IsRun(m: Manager, steps: seq<Step>)
    decreases steps
  {
    steps != [] ==> Enabled(m, steps[0]) && IsRun(Apply(m, steps[0]), steps[1..])
  }

  ghost function After(m: Manager, steps: seq<Step>): Manager
    requires IsRun(m, steps)
    decreases steps
  {
    if steps == [] then m else After(Apply(m, steps[0]), steps[1..])
  }

  lemma {:induction false} RunKeepsInvariant(m: Manager, steps: seq<Step>)
    requires Invariant(m) && IsRun(m, steps)
    ensures Invariant(After(m, steps))
    decreases steps
  {
    if steps != [] {
      StepKeepsInvariant(m, steps[0]);
      RunKeepsInvariant(Apply(m, steps[0]), steps[1..]);
    }
  }

  /** In every interleaving: at most one operation is running, and a started operation whose
      callback has not run is the current one. */
  lemma OneAtATime(steps: seq<Step>, t: nat, u: nat)
    requires IsRun(INITIAL, steps)
    requires t < |After(INITIAL, steps).ops| && u < |After(INITIAL, steps).ops|
    ensures var m := After(INITIAL, steps);
            && (m.ops[t].status == Running && m.ops[u].status == Running ==> t == u)
            && (m.ops[t].status != Waiting && !m.ops[t].notified <==> m.current == Some(t))
  {
    RunKeepsInvariant(INITIAL, steps);
    assert Active(After(INITIAL, steps).ops[t]) <==> After(INITIAL, steps).current == Some(t);
  }

  // ---------- No wake-up is lost ----------

  /** Nothing waits while nothing is current, and everything that waits can still be found. */
  ghost predicate Settled(m: Manager) {
    && (m.current.None? ==> forall t | t in m.table :: !IsWaiting(m.ops, t))
    && (forall t | 0 <= t < |m.ops| && m.ops[t].status == Waiting :: t in m.table)
  }

  /** The guard on a completion callback: the operation is kept for collection, or the table entry
      about to be deleted is still its own, or there is no entry and nobody waits. */
  predicate Harmless(m: Manager, step: Step)
    requires Enabled(m, step)
  {
    step.CallbackStep? ==>
      || m.ops[step.t].showMessage
      || Lookup(m, m.ops[step.t].id) == Some(step.t)
      || (Lookup(m, m.ops[step.t].id).None? && forall i | 0 <= i < |m.table| :: !IsWaiting(m.ops, m.table[i]))
  }

  lemma ScheduleNextSettles(m: Manager)
    requires forall t | t in m.table :: t < |m.ops|
    requires forall t | 0 <= t < |m.ops| && m.ops[t].status == Waiting :: t in m.table
    ensures Settled(ScheduleNext(m))
  {
  }

  lemma LookupFinds(m: Manager, t: nat)
    requires Invariant(m) && t in m.table
    ensures Lookup(m, m.ops[t].id) == Some(t)
  {
    var i :| 0 <= i < |m.table| && m.table[i] == t;
    assert m.table[Position(m.ops, m.table, m.ops[t].id)] in m.table;
  }

  lemma NewKeepsSettled(m: Manager, id: string, appId: string, showMessage: bool)
    requires Invariant(m) && Settled(m)
    ensures Settled(New(m, id, appId, showMessage))
  {
    if Accepts(m, id) {
      PutAt(m.table, Position(m.ops, m.table, id), |m.ops|);
      ScheduleNextSettles(Added(m, id, appId, showMessage));
    }
  }

  lemma CallbackSettlesExactly(m: Manager, t: nat)
    requires Invariant(m) && Settled(m) && Enabled(m, CallbackStep(t))
    ensures Settled(Callback(m, t)) <==> Harmless(m, CallbackStep(t))
  {
    var freed := Freed(m, t);
    var p := Position(m.ops, m.table, m.ops[t].id);
    if m.ops[t].showMessage {
      ScheduleNextSettles(freed);
    } else if p == |m.table| {
      assert Callback(m, t) == freed;
    } else {
      var dropped := freed.(table := Without(m.table, p));
      var u := m.table[p];
      DropAt(m.table, p);
      assert m.current == Some(t) by { assert Active(m.ops[t]); }
      assert u in m.table;
      if u == t {
        ScheduleNextSettles(dropped);
      } else {
        assert m.ops[u].status == Waiting;
        assert u !in dropped.table && ScheduleNext(dropped).ops[u].status == Waiting;
      }
    }
  }

  /** A step loses a wake-up, or a waiting operation, exactly when it is a callback that is not
      harmless. */
  lemma StepSettlesExactly(m: Manager, step: Step)
    requires Invariant(m) && Settled(m) && Enabled(m, step)
    ensures Settled(Apply(m, step)) <==> Harmless(m, step)
  {
    match step
    case NewStep(id, appId, showMessage) => NewKeepsSettled(m, id, appId, showMessage);
    case FinishStep(t) =>
    case CallbackStep(t) => CallbackSettlesExactly(m, t);
    case CollectStep(appId) =>
  }

  ghost predicate HarmlessRun(m: Manager, steps: seq<Step>)
    decreases steps
  {
    steps != [] ==> Enabled(m, steps[0]) && Harmless(m, steps[0]) && HarmlessRun(Apply(m, steps[0]), steps[1..])
  }

  lemma {:induction false} HarmlessRunSettles(m: Manager, steps: seq<Step>)
    requires Invariant(m) && Settled(m) && HarmlessRun(m, steps)
    ensures IsRun(m, steps) && Invariant(After(m, steps)) && Settled(After(m, steps))
    decreases steps
  {
    if steps != [] {
      StepKeepsInvariant(m, steps[0]);
      StepSettlesExactly(m, steps[0]);
      HarmlessRunSettles(Apply(m, steps[0]), steps[1..]);
    }
  }

  /** Nothing is lost at any moment of the run. */
  ghost predicate AlwaysSettled(m: Manager, steps: seq<Step>)
    requires IsRun(m, steps)
    decreases steps
  {
    Settled(m) && (steps != [] ==> AlwaysSettled(Apply(m, steps[0]), steps[1..]))
  }

  lemma {:induction false} AlwaysSettledExactly(m: Manager, steps: seq<Step>)
    requires Invariant(m) && Settled(m) && IsRun(m, steps)
    ensures AlwaysSettled(m, steps) <==> HarmlessRun(m, steps)
    decreases steps
  {
    if steps != [] {
      var next := Apply(m, steps[0]);
      StepKeepsInvariant(m, steps[0]);
      StepSettlesExactly(m, steps[0]);
      if Settled(next) {
        AlwaysSettledExactly(next, steps[1..]);
      }
    }
  }

  // ---------- After a lost wake-up ----------

  /** Once nothing is current, only an accepted new operation makes anything current again. */
  lemma OnlyNewWakes(m: Manager, step: Step)
    requires Invariant(m) && m.current.None? && Enabled(m, step)
    ensures Apply(m, step).current.Some? <==> step.NewStep? && Accepts(m, step.id)
  {
    assert forall t | 0 <= t < |m.ops| :: !Active(m.ops[t]);
    if step.NewStep? && Accepts(m, step.id) {
      NewWakesFirst(m, step.id, step.appId, step.showMessage);
    }
  }

  /** It starts the first of all that wait in the table then, which may be itself or an operation
      whose wake-up was lost. */
  lemma NewWakesFirst(m: Manager, id: string, appId: string, showMessage: bool)
    requires Invariant(m) && m.current.None? && Accepts(m, id)
    ensures var added, m' := Added(m, id, appId, showMessage), New(m, id, appId, showMessage);
            var p := FirstWaiting(added.ops, added.table);
            && p < |added.table| && m'.current == Some(added.table[p]) && m'.ops[added.table[p]].status == Running
            && (p < |m.table| && IsWaiting(m.ops, m.table[p]) ==> added.table[p] == m.table[p])
  {
    var added, q := Added(m, id, appId, showMessage), Position(m.ops, m.table, id);
    assert added.table[q] == |m.ops| && IsWaiting(added.ops, added.table[q]);
    if q < |m.table| {
      assert !IsWaiting(m.ops, m.table[q]);
    }
  }

  /** Every new operation of the run is kept for collection. */
  predicate ShowsAll(steps: seq<Step>) {
    forall i | 0 <= i < |steps| :: steps[i].NewStep? ==> steps[i].showMessage
  }

  predicate AllShown(ops: seq<Op>) {
    forall t | 0 <= t < |ops| :: ops[t].showMessage
  }

  lemma StepKeepsShown(m: Manager, step: Step)
    requires Enabled(m, step) && AllShown(m.ops) && (step.NewStep? ==> step.showMessage)
    ensures AllShown(Apply(m, step).ops)
  {
  }

  /** Runs in which every operation is kept for collection lose no wake-up. */
  lemma {:induction false} ShownRunIsHarmless(m: Manager, steps: seq<Step>)
    requires IsRun(m, steps) && AllShown(m.ops)
    requires ShowsAll(steps)
    ensures HarmlessRun(m, steps)
    decreases steps
  {
    if steps != [] {
      StepKeepsShown(m, steps[0]);
      ShownRunIsHarmless(Apply(m, steps[0]), steps[1..]);
    }
  }

  /** Completion and callback are one step: nothing comes between them. */
  ghost predicate AtomicCompletions(previous: Option<Step>, steps: seq<Step>)
    decreases steps
  {
    steps != [] ==>
      && (steps[0].CallbackStep? ==> previous == Some(FinishStep(steps[0].t)))
      && AtomicCompletions(Some(steps[0]), steps[1..])
  }

  /** So do runs in which completion and callback are one step. */
  lemma {:induction false} AtomicRunIsHarmless(m: Manager, previous: Option<Step>, steps: seq<Step>)
    requires Invariant(m) && IsRun(m, steps) && AtomicCompletions(previous, steps)
    requires previous.Some? && previous.value.FinishStep? ==> previous.value.t in m.table
    ensures HarmlessRun(m, steps)
    decreases steps
  {
    if steps != [] {
      StepKeepsInvariant(m, steps[0]);
      if steps[0].CallbackStep? {
        LookupFinds(m, steps[0].t);
      }
      AtomicRunIsHarmless(Apply(m, steps[0]), Some(steps[0]), steps[1..]);
    }
  }

  /** No wake-up is lost in either kind of run: a waiting operation is in the table and some
      operation is current. */
  lemma NoLostWakeUp(steps: seq<Step>)
    requires IsRun(INITIAL, steps)
    requires ShowsAll(steps) || AtomicCompletions(None, steps)
    ensures var m := After(INITIAL, steps);
            forall t | 0 <= t < |m.ops| && m.ops[t].status == Waiting :: t in m.table && m.current.Some?
  {
    if AtomicCompletions(None, steps) {
      AtomicRunIsHarmless(INITIAL, None, steps);
    } else {
      ShownRunIsHarmless(INITIAL, steps);
    }
    HarmlessRunSettles(INITIAL, steps);
  }

  /** The first operation starts at once. */
  lemma FirstNew(id: string, appId: string, showMessage: bool)
    ensures Apply(INITIAL, NewStep(id, appId, showMessage)) ==
            Manager([Op(id, appId, showMessage, Running, false)], [0], Some(0))
  {
  }

  /** A second one waits behind it. */
  lemma SecondNew(a: Op, id: string, appId: string, showMessage: bool)
    requires a.id != id
    ensures Apply(Manager([a], [0], Some(0)), NewStep(id, appId, showMessage)) ==
            Manager([a, Op(id, appId, showMessage, Waiting, false)], [0, 1], Some(0))
  {
    assert Position([a], [0], id) == 1;
  }

  /** While the first one is finished but has not called back, its successor waits in its place. */
  lemma SuccessorNew(a: Op, id: string, appId: string, showMessage: bool)
    requires a.id == id && a.status == Completed
    ensures Apply(Manager([a], [0], Some(0)), NewStep(id, appId, showMessage)) ==
            Manager([a, Op(id, appId, showMessage, Waiting, false)], [1], Some(0))
  {
  }

  /** A run begins with two operations of which the first finishes. */
  lemma FirstFinished(a: Op, b: Op, steps: seq<Step>, last: Manager) returns (more: seq<Step>)
    requires a == Op(a.id, a.appId, a.showMessage, Running, false)
    requires b == Op(b.id, b.appId, b.showMessage, Waiting, false) && a.id != b.id
    requires var m := Manager([a.(status := Completed), b], [0, 1], Some(0)); IsRun(m, steps) && After(m, steps) == last
    ensures IsRun(INITIAL, more) && After(INITIAL, more) == last
    ensures more == [NewStep(a.id, a.appId, a.showMessage)]
                    + ([NewStep(b.id, b.appId, b.showMessage)] + ([FinishStep(0)] + steps))
  {
    var m1, m2 := Manager([a], [0], Some(0)), Manager([a, b], [0, 1], Some(0));
    more := OneMore(m2, FinishStep(0), Manager([a.(status := Completed), b], [0, 1], Some(0)), steps, last);
    SecondNew(a, b.id, b.appId, b.showMessage);
    more := OneMore(m1, NewStep(b.id, b.appId, b.showMessage), m2, more, last);
    FirstNew(a.id, a.appId, a.showMessage);
    more := OneMore(INITIAL, NewStep(a.id, a.appId, a.showMessage), m1, more, last);
  }

  lemma FirstCollected(a: Op, b: Op)
    requires a.status == Completed && b.status == Waiting
    ensures Apply(Manager([a, b], [0, 1], Some(0)), CollectStep(a.appId)) == Manager([a, b], [1], Some(0))
  {
    PickCons([a, b], 0, [1], a.appId);
    PickCons([a, b], 1, [], a.appId);
    assert [0] + [1] == [0, 1] && [1] + [] == [1];
  }

  /** The callback raises KeyError if its entry is gone, and deletes the entry of a successor. */
  lemma CallbackGoesWrong(a: Op, b: Op)
    requires a.status == Completed && !a.notified && !a.showMessage && b.status == Waiting
    ensures Enabled(Manager([a, b], [1], Some(0)), CallbackStep(0))
    ensures Apply(Manager([a, b], [1], Some(0)), CallbackStep(0)) ==
            Manager([a.(notified := true), b], if a.id == b.id then [] else [1], None)
  {
    assert [a, b][0 := a.(notified := true)] == [a.(notified := true), b];
    assert Position([a, b], [1], a.id) == if a.id == b.id then 0 else 1;
    assert Without([1], 0) == [];
  }

  /** Without those conditions: results collected between completion and callback leave a waiting
      operation with nothing to start it. */
  lemma LostWakeUpExample() returns (steps: seq<Step>, m: Manager)
    ensures IsRun(INITIAL, steps) && m == After(INITIAL, steps)
    ensures m.current.None? && m.table == [1] && IsWaiting(m.ops, 1)
  {
    var a, b := Op("a", "app", false, Running, false), Op("b", "app", true, Waiting, false);
    var done := a.(status := Completed);
    var m3 := Manager([done, b], [0, 1], Some(0));
    m := Manager([done.(notified := true), b], [1], None);
    CallbackGoesWrong(done, b);
    steps := OneMore(Manager([done, b], [1], Some(0)), CallbackStep(0), m, [], m);
    FirstCollected(done, b);
    steps := OneMore(m3, CollectStep("app"), Manager([done, b], [1], Some(0)), steps, m);
    steps := FirstFinished(a, b, steps, m);
  }

  /** Without those conditions: a successor that takes over the id between completion and callback
      is deleted in place of the finished operation and never runs. */
  lemma OrphanExample() returns (steps: seq<Step>, m: Manager)
    ensures IsRun(INITIAL, steps) && m == After(INITIAL, steps)
    ensures m.current.None? && m.table == [] && IsWaiting(m.ops, 1)
  {
    var a, b := Op("a", "app", false, Running, false), Op("a", "app", false, Waiting, false);
    var done := a.(status := Completed);
    m := Manager([done.(notified := true), b], [], None);
    CallbackGoesWrong(done, b);
    steps := OneMore(Manager([done, b], [1], Some(0)), CallbackStep(0), m, [], m);
    SuccessorNew(done, "a", "app", false);
    var m2 := Manager([done], [0], Some(0));
    steps := OneMore(m2, NewStep("a", "app", false), Manager([done, b], [1], Some(0)), steps, m);
    steps := OneMore(Manager([a], [0], Some(0)), FinishStep(0), m2, steps, m);
    FirstNew("a", "app", false);
    steps := OneMore(INITIAL, NewStep("a", "app", false), Manager([a], [0], Some(0)), steps, m);
  }

  lemma PickCons(ops: seq<Op>, t: nat, table: seq<nat>, appId: string)
    ensures Pick(ops, [t] + table, appId, false) ==
            (if Collectable(ops, t, appId) then [] else [t]) + Pick(ops, table, appId, false)
  {
    assert ([t] + table)[1..] == table;
  }

  lemma OneMore(m: Manager, step: Step, next: Manager, steps: seq<Step>, last: Manager) returns (more: seq<Step>)
    requires Enabled(m, step) && Apply(m, step) == next
    requires IsRun(next, steps) && After(next, steps) == last
    ensures more == [step] + steps && IsRun(m, more) && After(m, more) == last
  {
    more := [step] + steps;
    assert more[1..] == steps;
  }
}
