/** What a caller of the operations manager can rely on over a whole run: its turn in the queue and
    the fate of every accepted operation. */
module OperationQueue {
  import opened Wrappers
  import opened OperationRuns

  // ---------- The manager as a first-in first-out queue ----------

  /** The waiting operations of a table, in table order. */
  function WaitingIn(ops: seq<Op>, table: seq<nat>): seq<nat> {
    if table == [] then []
    else (if IsWaiting(ops, table[0]) then [table[0]] else []) + WaitingIn(ops, table[1..])
  }

  function Queue(m: Manager): seq<nat> {
    WaitingIn(m.ops, m.table)
  }

  lemma {:induction false} WaitingInMembers(ops: seq<Op>, table: seq<nat>, t: nat)
    ensures t in WaitingIn(ops, table) <==> t in table && IsWaiting(ops, t)
  {
    if table != [] {
      WaitingInMembers(ops, table[1..], t);
    }
  }

  lemma WaitingInCons(ops: seq<Op>, t: nat, table: seq<nat>)
    ensures WaitingIn(ops, [t] + table) == (if IsWaiting(ops, t) then [t] else []) + WaitingIn(ops, table)
  {
    assert ([t] + table)[1..] == table;
  }

  lemma {:induction false} WaitingInConcat(ops: seq<Op>, a: seq<nat>, b: seq<nat>)
    ensures WaitingIn(ops, a + b) == WaitingIn(ops, a) + WaitingIn(ops, b)
  {
    if a == [] {
      assert a + b == b;
    } else {
      var rest := a[1..];
      assert a + b == [a[0]] + (rest + b);
      WaitingInCons(ops, a[0], rest + b);
      WaitingInConcat(ops, rest, b);
      Regroup(if IsWaiting(ops, a[0]) then [a[0]] else [], WaitingIn(ops, rest), WaitingIn(ops, b));
    }
  }

  lemma {:induction false} WaitingInSame(ops: seq<Op>, ops': seq<Op>, table: seq<nat>)
    requires forall t | t in table :: IsWaiting(ops, t) <==> IsWaiting(ops', t)
    ensures WaitingIn(ops, table) == WaitingIn(ops', table)
  {
    if table != [] {
      WaitingInSame(ops, ops', table[1..]);
    }
  }

  lemma {:induction false} AllBusy(ops: seq<Op>, table: seq<nat>)
    requires forall t | t in table :: !IsWaiting(ops, t)
    ensures WaitingIn(ops, table) == []
  {
    if table != [] {
      AllBusy(ops, table[1..]);
    }
  }

  /** The queue around one table entry. */
  lemma WaitingInAround(ops: seq<Op>, table: seq<nat>, p: nat)
    requires p < |table|
    ensures WaitingIn(ops, table) ==
            WaitingIn(ops, table[..p])
            + (if IsWaiting(ops, table[p]) then [table[p]] else [])
            + WaitingIn(ops, table[p + 1..])
  {
    assert table == table[..p] + table[p..];
    assert table[p..][1..] == table[p + 1..];
    WaitingInConcat(ops, table[..p], table[p..]);
  }

  lemma WaitingInWithout(ops: seq<Op>, table: seq<nat>, p: nat)
    requires p < |table| && !IsWaiting(ops, table[p])
    ensures WaitingIn(ops, Without(table, p)) == WaitingIn(ops, table)
  {
    WaitingInAround(ops, table, p);
    WaitingInConcat(ops, table[..p], table[p + 1..]);
  }

  lemma {:induction false} WaitingInPicked(ops: seq<Op>, table: seq<nat>, appId: string)
    ensures WaitingIn(ops, Pick(ops, table, appId, false)) == WaitingIn(ops, table)
  {
    if table != [] {
      var t, rest := table[0], Pick(ops, table[1..], appId, false);
      WaitingInPicked(ops, table[1..], appId);
      if Collectable(ops, t, appId) {
        assert !IsWaiting(ops, t) && Pick(ops, table, appId, false) == rest;
      } else {
        WaitingInCons(ops, t, rest);
      }
    }
  }

  /** Scheduling with nothing current starts the head of the queue. */
  lemma ScheduleNextPops(m: Manager)
    requires NoDuplicates(m.table) && m.current.None?
    ensures var q, m' := Queue(m), ScheduleNext(m);
            if q == [] then m' == m
            else m'.current == Some(q[0]) && Queue(m') == q[1..]
  {
    var p := FirstWaiting(m.ops, m.table);
    if p < |m.table| {
      var m' := ScheduleNext(m);
      WaitingInAround(m.ops, m.table, p);
      WaitingInAround(m'.ops, m.table, p);
      AllBusy(m.ops, m.table[..p]);
      AllBusy(m'.ops, m.table[..p]);
      assert m.table[p] !in m.table[p + 1..];
      WaitingInSame(m.ops, m'.ops, m.table[p + 1..]);
    } else {
      AllBusy(m.ops, m.table);
    }
  }

  /** If the new operation takes over the table entry of a completed one, nobody waits behind that
      entry. */
  predicate OvertakesNone(m: Manager, step: Step) {
    step.NewStep? && Accepts(m, step.id) ==>
      forall i | Position(m.ops, m.table, step.id) < i < |m.table| :: !IsWaiting(m.ops, m.table[i])
  }

  /** The new operation does not take over the table entry of a completed one. */
  predicate FreshId(m: Manager, step: Step) {
    step.NewStep? && Accepts(m, step.id) ==> Lookup(m, step.id).None?
  }

  lemma FreshOvertakesNone(m: Manager, step: Step)
    requires FreshId(m, step)
    ensures OvertakesNone(m, step)
  {
  }

  function QueueAfter(m: Manager, step: Step): seq<nat>
  {
    var q := Queue(m);
    match step
    case NewStep(id, _, _) => if Accepts(m, id) && m.current.Some? then q + [|m.ops|] else q
    case CallbackStep(_) => if q == [] then q else q[1..]
    case _ => q
  }

  /** The table entries behind the one that a new operation gets. */
  function Behind(m: Manager, id: string): seq<nat> {
    var p := Position(m.ops, m.table, id);
    if p < |m.table| then m.table[p + 1..] else []
  }

  function InFront(m: Manager, id: string): seq<nat> {
    m.table[..Position(m.ops, m.table, id)]
  }

  /** The queue before the new operation is put in its place. */
  lemma QueueOfParts(m: Manager, id: string)
    requires Accepts(m, id)
    ensures Queue(m) == WaitingIn(m.ops, InFront(m, id)) + WaitingIn(m.ops, Behind(m, id))
  {
    var p := Position(m.ops, m.table, id);
    if p < |m.table| {
      WaitingInAround(m.ops, m.table, p);
    } else {
      assert m.table[..p] == m.table;
    }
  }

  /** And after. */
  lemma QueueOfAdded(m: Manager, id: string, appId: string, showMessage: bool)
    requires Invariant(m) && Accepts(m, id)
    ensures Queue(Added(m, id, appId, showMessage)) ==
            WaitingIn(m.ops, InFront(m, id)) + [|m.ops|] + WaitingIn(m.ops, Behind(m, id))
  {
    var added, p := Added(m, id, appId, showMessage), Position(m.ops, m.table, id);
    SameWaiting(m, added.ops, InFront(m, id));
    SameWaiting(m, added.ops, Behind(m, id));
    if p < |m.table| {
      WaitingInAround(added.ops, added.table, p);
      assert added.table[..p] == InFront(m, id) && added.table[p + 1..] == Behind(m, id);
    } else {
      assert m.table[..p] == m.table;
      WaitingInConcat(added.ops, m.table, [|m.ops|]);
    }
  }

  lemma SameWaiting(m: Manager, ops': seq<Op>, part: seq<nat>)
    requires Invariant(m) && m.ops <= ops' && forall t | t in part :: t in m.table
    ensures WaitingIn(m.ops, part) == WaitingIn(ops', part)
  {
    WaitingInSame(m.ops, ops', part);
  }

  lemma NoneWaitsBehind(m: Manager, id: string)
    ensures WaitingIn(m.ops, Behind(m, id)) == [] <==>
            forall i | Position(m.ops, m.table, id) < i < |m.table| :: !IsWaiting(m.ops, m.table[i])
  {
    var p := Position(m.ops, m.table, id);
    if forall i | p < i < |m.table| :: !IsWaiting(m.ops, m.table[i]) {
      AllBusy(m.ops, Behind(m, id));
    } else {
      var i :| p < i < |m.table| && IsWaiting(m.ops, m.table[i]);
      assert m.table[i] == Behind(m, id)[i - p - 1];
      WaitingInMembers(m.ops, Behind(m, id), m.table[i]);
    }
  }

  lemma NewEnqueues(m: Manager, id: string, appId: string, showMessage: bool)
    requires Invariant(m) && Settled(m) && Accepts(m, id) && OvertakesNone(m, NewStep(id, appId, showMessage))
    ensures var m' := New(m, id, appId, showMessage);
            && Queue(m') == QueueAfter(m, NewStep(id, appId, showMessage))
            && m'.current == if m.current.Some? then m.current else Some(|m.ops|)
  {
    var added := Added(m, id, appId, showMessage);
    QueueOfParts(m, id);
    QueueOfAdded(m, id, appId, showMessage);
    NoneWaitsBehind(m, id);
    assert Queue(added) == Queue(m) + [|m.ops|];
    if m.current.None? {
      AllBusy(m.ops, m.table);
      PutAt(m.table, Position(m.ops, m.table, id), |m.ops|);
      ScheduleNextPops(added);
    }
  }

  /** An operation that takes over an entry in front of a waiting one is not at the end of the
      queue. */
  lemma OvertakingBreaksQueue(m: Manager, id: string, appId: string, showMessage: bool)
    requires Invariant(m) && Settled(m) && !OvertakesNone(m, NewStep(id, appId, showMessage))
    ensures !ActsAsQueue(m, NewStep(id, appId, showMessage))
  {
    var front, back := WaitingIn(m.ops, InFront(m, id)), WaitingIn(m.ops, Behind(m, id));
    QueueOfParts(m, id);
    QueueOfAdded(m, id, appId, showMessage);
    NoneWaitsBehind(m, id);
    var last := back[|back| - 1];
    WaitingInMembers(m.ops, Behind(m, id), last);
    assert last in m.table && last < |m.ops| && m.current.Some?;
    NotAtEnd(front, back, |m.ops|);
  }

  lemma NotAtEnd(front: seq<nat>, back: seq<nat>, n: nat)
    requires back != [] && back[|back| - 1] != n
    ensures front + [n] + back != front + back + [n]
  {
    var x, y := front + [n] + back, front + back + [n];
    assert |x| == |y| && x[|x| - 1] == back[|back| - 1] && y[|y| - 1] == n;
  }

  lemma CallbackDequeues(m: Manager, t: nat)
    requires Invariant(m) && Settled(m) && Enabled(m, CallbackStep(t)) && Harmless(m, CallbackStep(t))
    ensures var m', q := Callback(m, t), Queue(m);
            && Queue(m') == QueueAfter(m, CallbackStep(t))
            && m'.current == if q == [] then None else Some(q[0])
  {
    var freed := Freed(m, t);
    WaitingInSame(m.ops, freed.ops, m.table);
    var p := Position(m.ops, m.table, m.ops[t].id);
    if m.ops[t].showMessage {
      ScheduleNextPops(freed);
    } else if p == |m.table| {
      AllBusy(m.ops, m.table);
    } else {
      WaitingInWithout(freed.ops, m.table, p);
      DropAt(m.table, p);
      ScheduleNextPops(freed.(table := Without(m.table, p)));
    }
  }

  ghost predicate ActsAsQueue(m: Manager, step: Step)
    requires Enabled(m, step)
  {
    && Queue(Apply(m, step)) == QueueAfter(m, step)
    && (step.CallbackStep? && Queue(m) != [] ==> Apply(m, step).current == Some(Queue(m)[0]))
  }

  /** As long as no wake-up is lost and nobody is overtaken, the manager behaves as a first-in
      first-out queue: `new` appends, a completed operation's callback takes from the front, and
      nothing else touches it. */
  lemma RefinesFifoQueue(m: Manager, step: Step)
    requires Invariant(m) && Settled(m) && Enabled(m, step) && Harmless(m, step) && OvertakesNone(m, step)
    ensures ActsAsQueue(m, step)
  {
    match step
    case NewStep(id, appId, showMessage) =>
      if Accepts(m, id) {
        NewEnqueues(m, id, appId, showMessage);
      }
    case FinishStep(t) => WaitingInSame(m.ops, Finish(m, t).ops, m.table);
    case CallbackStep(t) => CallbackDequeues(m, t);
    case CollectStep(appId) => WaitingInPicked(m.ops, m.table, appId);
  }

  /** A callback that fails while others wait leaves the queue as it is. */
  lemma FailingBreaksQueue(m: Manager, t: nat)
    requires Enabled(m, CallbackStep(t)) && !m.ops[t].showMessage && Lookup(m, m.ops[t].id).None? && Queue(m) != []
    ensures !ActsAsQueue(m, CallbackStep(t))
  {
    WaitingInSame(m.ops, Freed(m, t).ops, m.table);
  }

  /** One that deletes the entry of a waiting operation takes that one out of the queue. */
  lemma DeletingBreaksQueue(m: Manager, t: nat)
    requires Invariant(m) && Enabled(m, CallbackStep(t)) && !m.ops[t].showMessage
    requires Lookup(m, m.ops[t].id).Some? && Lookup(m, m.ops[t].id) != Some(t)
    ensures !ActsAsQueue(m, CallbackStep(t))
  {
    var u, next, q := Lookup(m, m.ops[t].id).value, Callback(m, t), Queue(m);
    OrphanAfterCallback(m, t);
    WaitingInMembers(m.ops, m.table, u);
    WaitingInMembers(next.ops, next.table, u);
    assert u in q && u !in Queue(next);
    assert q[0] != u ==> u in q[1..];
  }

  /** The successor whose entry is deleted waits outside the table. */
  lemma OrphanAfterCallback(m: Manager, t: nat)
    requires Invariant(m) && Enabled(m, CallbackStep(t)) && !m.ops[t].showMessage
    requires Lookup(m, m.ops[t].id).Some? && Lookup(m, m.ops[t].id) != Some(t)
    ensures var u, next := Lookup(m, m.ops[t].id).value, Callback(m, t);
            && u in m.table && IsWaiting(m.ops, u)
            && u !in next.table && IsWaiting(next.ops, u) && next.current != Some(u)
  {
    var p := Position(m.ops, m.table, m.ops[t].id);
    assert m.table[p] in m.table;
    assert m.current == Some(t) by { assert Active(m.ops[t]); }
    DropAt(m.table, p);
  }

  lemma HarmfulBreaksQueue(m: Manager, step: Step)
    requires Invariant(m) && Settled(m) && Enabled(m, step) && !Harmless(m, step)
    ensures !ActsAsQueue(m, step)
  {
    if Lookup(m, m.ops[step.t].id).Some? {
      DeletingBreaksQueue(m, step.t);
    } else {
      var i :| 0 <= i < |m.table| && IsWaiting(m.ops, m.table[i]);
      WaitingInMembers(m.ops, m.table, m.table[i]);
      FailingBreaksQueue(m, step.t);
    }
  }

  /** The steps that act as on a queue are exactly the harmless ones that overtake nobody. */
  lemma RefinesFifoQueueExactly(m: Manager, step: Step)
    requires Invariant(m) && Settled(m) && Enabled(m, step)
    ensures ActsAsQueue(m, step) <==> Harmless(m, step) && OvertakesNone(m, step)
  {
    if !Harmless(m, step) {
      HarmfulBreaksQueue(m, step);
    } else if !OvertakesNone(m, step) {
      OvertakingBreaksQueue(m, step.id, step.appId, step.showMessage);
    } else {
      RefinesFifoQueue(m, step);
    }
  }

  /** With fresh ids, exactly the harmless ones. */
  lemma FreshRefinesFifoQueueExactly(m: Manager, step: Step)
    requires Invariant(m) && Settled(m) && Enabled(m, step) && FreshId(m, step)
    ensures ActsAsQueue(m, step) <==> Harmless(m, step)
  {
    FreshOvertakesNone(m, step);
    RefinesFifoQueueExactly(m, step);
  }

  // ---------- Runs that lose nothing and overtake nobody ----------

  ghost predicate OrderlyRun(m: Manager, steps: seq<Step>)
    decreases steps
  {
    steps != [] ==>
      && Enabled(m, steps[0]) && Harmless(m, steps[0]) && OvertakesNone(m, steps[0])
      && OrderlyRun(Apply(m, steps[0]), steps[1..])
  }

  function Served(step: Step): nat {
    if step.CallbackStep? then 1 else 0
  }

  function Callbacks(steps: seq<Step>): nat {
    if steps == [] then 0 else Served(steps[0]) + Callbacks(steps[1..])
  }

  lemma {:induction false} OrderlyRunIsRun(m: Manager, steps: seq<Step>)
    requires Invariant(m) && Settled(m) && OrderlyRun(m, steps)
    ensures IsRun(m, steps) && Invariant(After(m, steps)) && Settled(After(m, steps))
    decreases steps
  {
    if steps != [] {
      StepKeepsInvariant(m, steps[0]);
      StepSettlesExactly(m, steps[0]);
      OrderlyRunIsRun(Apply(m, steps[0]), steps[1..]);
    }
  }

  /** The operation waits with `ahead` others in front of it; a negative number says that it has
      started. */
  ghost predicate Stands(m: Manager, t: nat, ahead: int) {
    if ahead >= 0 then ahead < |Queue(m)| && Queue(m)[ahead] == t
    else t < |m.ops| && m.ops[t].status != Waiting
  }

  lemma HeadStarts(m: Manager, step: Step)
    requires Invariant(m) && Settled(m) && Enabled(m, step) && Harmless(m, step) && OvertakesNone(m, step)
    requires step.CallbackStep? && Queue(m) != []
    ensures Stands(Apply(m, step), Queue(m)[0], -1)
  {
    RefinesFifoQueue(m, step);
    StepKeepsInvariant(m, step);
    assert Active(Apply(m, step).ops[Queue(m)[0]]);
  }

  lemma StaysStarted(m: Manager, step: Step, t: nat)
    requires Enabled(m, step) && Stands(m, t, -1)
    ensures Stands(Apply(m, step), t, -1)
  {
  }

  lemma StepMovesUp(m: Manager, step: Step, t: nat, ahead: int)
    requires Invariant(m) && Settled(m) && Enabled(m, step) && Harmless(m, step) && OvertakesNone(m, step)
    requires Stands(m, t, ahead)
    ensures Stands(Apply(m, step), t, ahead - Served(step))
  {
    if ahead < 0 {
      StaysStarted(m, step, t);
    } else {
      RefinesFifoQueue(m, step);
      if step.CallbackStep? {
        HeadStarts(m, step);
      }
    }
  }

  lemma OrderlyStep(m: Manager, step: Step, t: nat, ahead: int)
    requires Invariant(m) && Settled(m) && Enabled(m, step) && Harmless(m, step) && OvertakesNone(m, step)
    requires Stands(m, t, ahead)
    ensures var next := Apply(m, step); Invariant(next) && Settled(next) && Stands(next, t, ahead - Served(step))
  {
    StepKeepsInvariant(m, step);
    StepSettlesExactly(m, step);
    StepMovesUp(m, step, t, ahead);
  }

  lemma OneStepOn(m: Manager, steps: seq<Step>)
    requires steps != [] && IsRun(m, steps)
    ensures After(m, steps) == After(Apply(m, steps[0]), steps[1..])
    ensures Callbacks(steps) == Served(steps[0]) + Callbacks(steps[1..])
  {
  }

  /** The operation with `ahead` others waiting in front of it moves up by one at each completion's
      callback, and starts at the one after the last of them has started. */
  lemma {:induction false} WaitingAheadDrops(m: Manager, steps: seq<Step>, t: nat, ahead: int) returns (last: Manager)
    requires Invariant(m) && Settled(m) && OrderlyRun(m, steps) && Stands(m, t, ahead)
    ensures IsRun(m, steps) && last == After(m, steps)
    ensures Stands(last, t, ahead - Callbacks(steps))
    decreases steps
  {
    last := m;
    if steps != [] {
      var step := steps[0];
      OrderlyStep(m, step, t, ahead);
      last := WaitingAheadDrops(Apply(m, step), steps[1..], t, ahead - Served(step));
      OneStepOn(m, steps);
    }
  }

  // ---------- The fate of every operation ----------

  /** The manager with a record of the operations that left its table, and how. */
  datatype History = History(m: Manager, collected: seq<nat>, dropped: seq<nat>, replaced: seq<nat>)

  function Record(h: History, step: Step): (h': History)
    requires Enabled(h.m, step)
    ensures h'.m == Apply(h.m, step)
  {
    var m := h.m;
    var next := h.(m := Apply(m, step));
    match step
    case NewStep(id, _, _) =>
      if Accepts(m, id) && Lookup(m, id).Some?
      then next.(replaced := h.replaced + [Lookup(m, id).value]) else next
    case FinishStep(_) => next
    case CallbackStep(t) =>
      if !m.ops[t].showMessage && Lookup(m, m.ops[t].id).Some?
      then next.(dropped := h.dropped + [Lookup(m, m.ops[t].id).value]) else next
    case CollectStep(appId) => next.(collected := h.collected + Pick(m.ops, m.table, appId, true))
  }

  function RecordAll(h: History, steps: seq<Step>): (h': History)
    requires IsRun(h.m, steps)
    ensures h'.m == After(h.m, steps)
    decreases steps
  {
    if steps == [] then h else RecordAll(Record(h, steps[0]), steps[1..])
  }

  function Places(h: History): multiset<nat> {
    multiset(h.m.table) + multiset(h.collected) + multiset(h.dropped) + multiset(h.replaced)
  }

  /** Every token so far is in exactly one place, once. */
  ghost predicate Accounted(h: History) {
    EachOnce(Places(h), |h.m.ops|)
  }

  ghost predicate EachOnce(places: multiset<nat>, n: nat) {
    forall t: nat :: places[t] == if t < n then 1 else 0
  }

  lemma {:induction false} PickSplits(ops: seq<Op>, table: seq<nat>, appId: string)
    ensures multiset(Pick(ops, table, appId, true)) + multiset(Pick(ops, table, appId, false)) == multiset(table)
  {
    if table != [] {
      PickSplits(ops, table[1..], appId);
      assert table == [table[0]] + table[1..];
    }
  }

  lemma Regrouped(a: multiset<nat>, b: multiset<nat>, c: multiset<nat>, a': multiset<nat>, b': multiset<nat>,
                  x: multiset<nat>)
    requires a' + b' == a + b + x
    ensures a' + c + b' == a + c + b + x
  {
    assert a' + c + b' == (a' + b') + c;
  }

  lemma ReplacementAccounted(h: History, p: nat, n: nat)
    requires p < |h.m.table|
    ensures multiset(Put(h.m.table, p, n)) + multiset(h.replaced + [h.m.table[p]]) ==
            multiset(h.m.table) + multiset(h.replaced) + multiset{n}
  {
  }

  lemma DropAccounted(table: seq<nat>, dropped: seq<nat>, p: nat)
    requires p < |table|
    ensures multiset(Without(table, p)) + multiset(dropped + [table[p]]) == multiset(table) + multiset(dropped)
  {
    assert table == table[..p] + [table[p]] + table[p + 1..];
  }

  lemma NewTable(m: Manager, id: string, appId: string, showMessage: bool)
    requires Accepts(m, id)
    ensures var m' := New(m, id, appId, showMessage);
            && m'.table == Put(m.table, Position(m.ops, m.table, id), |m.ops|)
            && |m'.ops| == |m.ops| + 1
  {
  }

  lemma OneMorePlace(places: multiset<nat>, n: nat)
    requires EachOnce(places, n)
    ensures EachOnce(places + multiset{n}, n + 1)
  {
  }

  lemma PlacesAfterNew(h: History, id: string, appId: string, showMessage: bool)
    requires Accepts(h.m, id)
    ensures Places(Record(h, NewStep(id, appId, showMessage))) == Places(h) + multiset{|h.m.ops|}
  {
    var h' := Record(h, NewStep(id, appId, showMessage));
    NewTable(h.m, id, appId, showMessage);
    var p := Position(h.m.ops, h.m.table, id);
    if p < |h.m.table| {
      ReplacementAccounted(h, p, |h.m.ops|);
    }
    Regrouped(multiset(h.m.table), multiset(h.replaced), multiset(h.collected) + multiset(h.dropped),
              multiset(h'.m.table), multiset(h'.replaced), multiset{|h.m.ops|});
    PlacesRegrouped(h);
    PlacesRegrouped(h');
  }

  lemma PlacesRegrouped(h: History)
    ensures Places(h) == multiset(h.m.table) + (multiset(h.collected) + multiset(h.dropped)) + multiset(h.replaced)
  {
  }

  lemma NewAccounted(h: History, id: string, appId: string, showMessage: bool)
    requires Accounted(h)
    ensures Accounted(Record(h, NewStep(id, appId, showMessage)))
  {
    if Accepts(h.m, id) {
      NewTable(h.m, id, appId, showMessage);
      PlacesAfterNew(h, id, appId, showMessage);
      OneMorePlace(Places(h), |h.m.ops|);
    }
  }

  lemma CallbackTable(m: Manager, t: nat)
    requires Enabled(m, CallbackStep(t))
    ensures var p := Position(m.ops, m.table, m.ops[t].id);
            Callback(m, t).table == (if m.ops[t].showMessage || p == |m.table| then m.table else Without(m.table, p))
    ensures |Callback(m, t).ops| == |m.ops|
  {
  }

  lemma PlacesAfterCallback(h: History, t: nat)
    requires Enabled(h.m, CallbackStep(t))
    ensures Places(Record(h, CallbackStep(t))) == Places(h)
  {
    var p := Position(h.m.ops, h.m.table, h.m.ops[t].id);
    CallbackTable(h.m, t);
    if !h.m.ops[t].showMessage && p < |h.m.table| {
      SamePlaces(h, Record(h, CallbackStep(t)), p);
    }
  }

  lemma CallbackAccounted(h: History, t: nat)
    requires Enabled(h.m, CallbackStep(t)) && Accounted(h)
    ensures Accounted(Record(h, CallbackStep(t)))
  {
    PlacesAfterCallback(h, t);
    CallbackTable(h.m, t);
  }

  lemma SamePlaces(h: History, h': History, p: nat)
    requires p < |h.m.table|
    requires h'.m.table == Without(h.m.table, p) && h'.dropped == h.dropped + [h.m.table[p]]
    requires h'.collected == h.collected && h'.replaced == h.replaced
    ensures Places(h') == Places(h)
  {
    DropAccounted(h.m.table, h.dropped, p);
    var before, after := multiset(h.m.table) + multiset(h.dropped), multiset(h'.m.table) + multiset(h'.dropped);
    assert before == after;
    forall t ensures Places(h')[t] == Places(h)[t] {
      assert before[t] == after[t];
    }
  }

  lemma StepKeepsAccounted(h: History, step: Step)
    requires Enabled(h.m, step) && Accounted(h)
    ensures Accounted(Record(h, step))
  {
    match step
    case NewStep(id, appId, showMessage) => NewAccounted(h, id, appId, showMessage);
    case FinishStep(t) =>
      assert Places(Record(h, step)) == Places(h);
    case CallbackStep(t) => CallbackAccounted(h, t);
    case CollectStep(appId) =>
      PickSplits(h.m.ops, h.m.table, appId);
      assert Places(Record(h, step)) == Places(h);
  }

  predicate IsCompleted(ops: seq<Op>, t: nat) {
    t < |ops| && ops[t].status == Completed
  }

  ghost predicate Succeeded(ops: seq<Op>, t: nat) {
    IsCompleted(ops, t) && exists u :: t < u < |ops| && HasId(ops, u, ops[t].id)
  }

  /** Only finished operations leave the table; a callback drops its own operation, and only one
      that is not to be shown; a replaced operation has a successor under its id. */
  ghost predicate FatesDeserved(h: History) {
    && (forall t | t in h.collected :: IsCompleted(h.m.ops, t))
    && (forall t | t in h.dropped :: IsCompleted(h.m.ops, t) && !h.m.ops[t].showMessage)
    && (forall t | t in h.replaced :: Succeeded(h.m.ops, t))
  }

  /** Operations keep their description, and completed ones stay completed. */
  ghost predicate Grown(ops: seq<Op>, ops': seq<Op>) {
    && |ops| <= |ops'|
    && (forall t | 0 <= t < |ops| :: ops'[t].id == ops[t].id && ops'[t].showMessage == ops[t].showMessage)
    && (forall t | IsCompleted(ops, t) :: IsCompleted(ops', t))
  }

  lemma SucceededStays(ops: seq<Op>, ops': seq<Op>, t: nat)
    requires Grown(ops, ops') && Succeeded(ops, t)
    ensures Succeeded(ops', t)
  {
    var u :| t < u < |ops| && HasId(ops, u, ops[t].id);
    assert HasId(ops', u, ops'[t].id);
  }

  lemma StepGrows(m: Manager, step: Step)
    requires Enabled(m, step)
    ensures Grown(m.ops, Apply(m, step).ops)
  {
    match step
    case NewStep(id, appId, showMessage) => ScheduleNextGrows(Added(m, id, appId, showMessage));
    case FinishStep(t) =>
    case CallbackStep(t) => CallbackGrows(m, t);
    case CollectStep(appId) =>
  }

  lemma CallbackGrows(m: Manager, t: nat)
    requires t < |m.ops|
    ensures Grown(m.ops, Callback(m, t).ops)
  {
    var freed := Freed(m, t);
    var p := Position(m.ops, m.table, m.ops[t].id);
    var next := if m.ops[t].showMessage || p == |m.table| then freed else freed.(table := Without(m.table, p));
    assert Grown(m.ops, freed.ops) && next.ops == freed.ops;
    ScheduleNextGrows(next);
    assert Callback(m, t) == ScheduleNext(next) || Callback(m, t) == freed;
  }

  lemma ScheduleNextGrows(m: Manager)
    ensures Grown(m.ops, ScheduleNext(m).ops) && |ScheduleNext(m).ops| == |m.ops|
  {
  }

  /** If a callback deletes an entry, the entry is its own operation's. */
  predicate DropsOwn(m: Manager, step: Step)
    requires Enabled(m, step)
  {
    step.CallbackStep? && !m.ops[step.t].showMessage ==>
      Lookup(m, m.ops[step.t].id).None? || Lookup(m, m.ops[step.t].id) == Some(step.t)
  }

  lemma OwnDropKeepsFates(h: History, step: Step)
    requires Invariant(h.m) && Enabled(h.m, step) && DropsOwn(h.m, step) && FatesDeserved(h)
    ensures FatesDeserved(Record(h, step))
  {
    var ops, ops', h' := h.m.ops, Apply(h.m, step).ops, Record(h, step);
    StepGrows(h.m, step);
    forall t | t in h'.replaced ensures Succeeded(ops', t) {
      if t in h.replaced {
        SucceededStays(ops, ops', t);
      } else {
        assert HasId(ops, t, step.id) && HasId(ops', |ops|, step.id);
      }
    }
  }

  /** A step gives some operation a fate it does not deserve exactly when it is a callback that
      deletes the entry of another one. */
  lemma StepKeepsFatesExactly(h: History, step: Step)
    requires Invariant(h.m) && Enabled(h.m, step) && FatesDeserved(h)
    ensures FatesDeserved(Record(h, step)) <==> DropsOwn(h.m, step)
  {
    if DropsOwn(h.m, step) {
      OwnDropKeepsFates(h, step);
    } else {
      var u := Lookup(h.m, h.m.ops[step.t].id).value;
      OrphanAfterCallback(h.m, step.t);
      var dropped := Record(h, step).dropped;
      assert dropped[|dropped| - 1] == u;
      assert u in dropped;
    }
  }

  /** After any run every operation ever accepted is in exactly one place: in the table, returned
      once by `collect_results`, dropped by a callback, or replaced. */
  lemma {:induction false} EveryOperationAccounted(h: History, steps: seq<Step>)
    requires IsRun(h.m, steps) && Accounted(h)
    ensures Accounted(RecordAll(h, steps))
    decreases steps
  {
    if steps != [] {
      StepKeepsAccounted(h, steps[0]);
      EveryOperationAccounted(Record(h, steps[0]), steps[1..]);
    }
  }

  ghost predicate OwnDropsRun(m: Manager, steps: seq<Step>)
    decreases steps
  {
    steps != [] ==>
      && Enabled(m, steps[0]) && DropsOwn(m, steps[0])
      && OwnDropsRun(Apply(m, steps[0]), steps[1..])
  }

  /** If no callback of the run deletes the entry of another operation, it is there deservedly. */
  lemma {:induction false} EveryFateDeserved(h: History, steps: seq<Step>)
    requires Invariant(h.m) && OwnDropsRun(h.m, steps) && FatesDeserved(h)
    ensures IsRun(h.m, steps) && FatesDeserved(RecordAll(h, steps))
    decreases steps
  {
    if steps != [] {
      StepKeepsInvariant(h.m, steps[0]);
      OwnDropKeepsFates(h, steps[0]);
      EveryFateDeserved(Record(h, steps[0]), steps[1..]);
    }
  }

  lemma {:induction false} HarmlessRunDropsOwn(m: Manager, steps: seq<Step>)
    requires HarmlessRun(m, steps)
    ensures OwnDropsRun(m, steps)
    decreases steps
  {
    if steps != [] {
      HarmlessRunDropsOwn(Apply(m, steps[0]), steps[1..]);
    }
  }

  const NO_HISTORY := History(INITIAL, [], [], [])

  /** Over every run from the start each operation is in one place, and where every operation is
      shown, or completion and callback are one step, deservedly. */
  lemma EveryOperationAccountedFromStart(steps: seq<Step>)
    requires IsRun(INITIAL, steps)
    ensures Accounted(RecordAll(NO_HISTORY, steps))
    ensures ShowsAll(steps) || AtomicCompletions(None, steps) ==>
              FatesDeserved(RecordAll(NO_HISTORY, steps))
  {
    EveryOperationAccounted(NO_HISTORY, steps);
    if ShowsAll(steps) || AtomicCompletions(None, steps) {
      if AtomicCompletions(None, steps) {
        AtomicRunIsHarmless(INITIAL, None, steps);
      } else {
        ShownRunIsHarmless(INITIAL, steps);
      }
      HarmlessRunDropsOwn(INITIAL, steps);
      EveryFateDeserved(NO_HISTORY, steps);
    }
  }
}
