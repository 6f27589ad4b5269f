/** The database lock (plinth/db/__init__.py): a re-entrant lock whose `with` blocks go on without
    it when acquiring times out, and whose release errors are swallowed. */
module DbLock {
  import opened Wrappers

  type Thread = nat

  /** The re-entrant lock itself. */
  datatype Lock = Lock(owner: Option<Thread>, count: nat)

  const FREE := Lock(None, 0)

  /** A thread that finds the lock free or its own acquires it at once. */
  predicate AcquiresAtOnce(l: Lock, t: Thread) {
    l.owner.None? || l.owner == Some(t)
  }

  function Acquired(l: Lock, t: Thread): Lock {
    if AcquiresAtOnce(l, t) then Lock(Some(t), l.count + 1) else l
  }

  /** Releasing another thread's lock raises RuntimeError, which the block swallows. */
  function Released(l: Lock, t: Thread): Lock {
    if l.owner != Some(t) || l.count == 0 then l
    else if l.count == 1 then FREE
    else Lock(l.owner, l.count - 1)
  }

  /** How often the thread holds the lock. */
  function HoldsOf(l: Lock, t: Thread): nat {
    if l.owner == Some(t) then l.count else 0
  }

  // ---------- Any number of threads ----------

  /** The blocks of each thread, innermost last: whether the block acquired the lock. */
  datatype State = State(lock: Lock, blocks: map<Thread, seq<bool>>)

  const INITIAL := State(FREE, map[])

  function Blocks(s: State, t: Thread): seq<bool> {
    if t in s.blocks then s.blocks[t] else []
  }

  datatype Step = Enter(t: Thread) | Exit(t: Thread)

  predicate Enabled(s: State, step: Step) {
    step.Exit? ==> Blocks(s, step.t) != []
  }

  function Apply(s: State, step: Step): State
    requires Enabled(s, step)
  {
    var blocks := Blocks(s, step.t);
    match step
    case Enter(t) =>
      State(Acquired(s.lock, t), s.blocks[t := blocks + [AcquiresAtOnce(s.lock, t)]])
    case Exit(t) =>
      State(Released(s.lock, t), s.blocks[t := blocks[..|blocks| - 1]])
  }

  /** How many of the blocks acquired the lock. */
  function Holds(blocks: seq<bool>): nat {
    if blocks == [] then 0 else Holds(blocks[..|blocks| - 1]) + if blocks[|blocks| - 1] then 1 else 0
  }

  /** Blocks that timed out lie below the blocks that acquired. */
  predicate TimedOutBelow(blocks: seq<bool>) {
    forall i, j | 0 <= i < j < |blocks| && blocks[i] :: blocks[j]
  }

  ghost predicate Invariant(s: State) {
    && (forall t: Thread :: TimedOutBelow(Blocks(s, t)))
    && (forall t: Thread :: Holds(Blocks(s, t)) == if s.lock.owner == Some(t) then s.lock.count else 0)
    && (s.lock.owner.Some? <==> s.lock.count > 0)
  }

  lemma HoldsSnoc(blocks: seq<bool>, acquired: bool)
    ensures Holds(blocks + [acquired]) == Holds(blocks) + if acquired then 1 else 0
  {
    assert (blocks + [acquired])[..|blocks|] == blocks;
  }

  lemma {:induction false} SomeHeld(blocks: seq<bool>)
    ensures Holds(blocks) > 0 <==> true in blocks
  {
    if blocks != [] {
      SomeHeld(blocks[..|blocks| - 1]);
      assert blocks == blocks[..|blocks| - 1] + [blocks[|blocks| - 1]];
    }
  }

  lemma OtherThreads(s: State, step: Step, t: Thread)
    requires Enabled(s, step) && t != step.t
    ensures Blocks(Apply(s, step), t) == Blocks(s, t)
  {
  }

  lemma OwnBlocks(s: State, step: Step)
    requires Invariant(s) && Enabled(s, step)
    ensures var s', t := Apply(s, step), step.t;
            && TimedOutBelow(Blocks(s', t))
            && Holds(Blocks(s', t)) == if s'.lock.owner == Some(t) then s'.lock.count else 0
  {
    var blocks := Blocks(s, step.t);
    assert TimedOutBelow(blocks);
    assert Holds(blocks) == if s.lock.owner == Some(step.t) then s.lock.count else 0;
    SomeHeld(blocks);
    match step
    case Enter(t) =>
      HoldsSnoc(blocks, AcquiresAtOnce(s.lock, t));
    case Exit(t) =>
      var last := |blocks| - 1;
      assert blocks == blocks[..last] + [blocks[last]];
      HoldsSnoc(blocks[..last], blocks[last]);
      if !blocks[last] {
        assert true !in blocks;
      }
  }

  lemma StepKeepsInvariant(s: State, step: Step)
    requires Invariant(s) && Enabled(s, step)
    ensures Invariant(Apply(s, step))
  {
    var s' := Apply(s, step);
    OwnBlocks(s, step);
    forall t: Thread
      ensures TimedOutBelow(Blocks(s', t))
      ensures Holds(Blocks(s', t)) == if s'.lock.owner == Some(t) then s'.lock.count else 0
    {
      if t != step.t {
        OtherThreads(s, step, t);
        assert TimedOutBelow(Blocks(s, t));
        assert Holds(Blocks(s, t)) == if s.lock.owner == Some(t) then s.lock.count else 0;
      }
    }
  }

  ghost predicate IsRun(s: State, steps: seq<Step>)
    decreases steps
  {
    steps != [] ==> Enabled(s, steps[0]) && IsRun(Apply(s, steps[0]), steps[1..])
  }

  function After(s: State, steps: seq<Step>): State
    requires IsRun(s, steps)
    decreases steps
  {
    if steps == [] then s else After(Apply(s, steps[0]), steps[1..])
  }

  lemma {:induction false} RunKeepsInvariant(s: State, steps: seq<Step>)
    requires Invariant(s) && IsRun(s, steps)
    ensures Invariant(After(s, steps))
    decreases steps
  {
    if steps != [] {
      StepKeepsInvariant(s, steps[0]);
      RunKeepsInvariant(Apply(s, steps[0]), steps[1..]);
    }
  }

  /** At any time at most one thread is inside a block that acquired the lock, and the lock knows
      how often that thread holds it. */
  lemma AtMostOneHolder(steps: seq<Step>, t: Thread, u: Thread)
    requires IsRun(INITIAL, steps)
    ensures var s := After(INITIAL, steps);
            && (Holds(Blocks(s, t)) > 0 && Holds(Blocks(s, u)) > 0 ==> t == u)
            && (Holds(Blocks(s, t)) > 0 ==> s.lock == Lock(Some(t), Holds(Blocks(s, t))))
            && TimedOutBelow(Blocks(s, t))
  {
    RunKeepsInvariant(INITIAL, steps);
    var s := After(INITIAL, steps);
    assert Holds(Blocks(s, t)) == if s.lock.owner == Some(t) then s.lock.count else 0;
    assert Holds(Blocks(s, u)) == if s.lock.owner == Some(u) then s.lock.count else 0;
    assert TimedOutBelow(Blocks(s, t));
  }

  /** Leaving a block that timed out changes nothing about the lock; leaving one that acquired
      gives back one hold of the same thread. */
  lemma ExitFreesOwnHoldOnly(s: State, t: Thread)
    requires Invariant(s) && Blocks(s, t) != []
    ensures var lock, top := Apply(s, Exit(t)).lock, Blocks(s, t)[|Blocks(s, t)| - 1];
            if !top then lock == s.lock
            else s.lock.owner == Some(t) && lock == if s.lock.count == 1 then FREE else Lock(Some(t), s.lock.count - 1)
  {
    var blocks := Blocks(s, t);
    assert TimedOutBelow(blocks);
    assert Holds(blocks) == if s.lock.owner == Some(t) then s.lock.count else 0;
    SomeHeld(blocks);
    var last := |blocks| - 1;
    assert blocks[last] ==> true in blocks;
  }

  /** The thread stays inside its first `h` blocks. */
  ghost predicate StaysWithin(s: State, steps: seq<Step>, t: Thread, h: nat)
    requires IsRun(s, steps)
    decreases steps
  {
    && h <= |Blocks(s, t)|
    && (steps != [] ==> StaysWithin(Apply(s, steps[0]), steps[1..], t, h))
  }

  lemma {:induction false} OuterBlocksStay(s: State, steps: seq<Step>, t: Thread, h: nat)
    requires IsRun(s, steps) && StaysWithin(s, steps, t, h)
    ensures h <= |Blocks(After(s, steps), t)|
    ensures Blocks(After(s, steps), t)[..h] == Blocks(s, t)[..h]
    decreases steps
  {
    if steps != [] {
      var next := Apply(s, steps[0]);
      OuterBlocksStay(next, steps[1..], t, h);
      if steps[0].t != t {
        OtherThreads(s, steps[0], t);
      }
      assert h <= |Blocks(next, t)|;
      assert Blocks(next, t)[..h] == Blocks(s, t)[..h];
    }
  }

  lemma LeavingRestoresBlocks(blocks: seq<bool>, acquired: bool, later: seq<bool>)
    requires |later| == |blocks| + 1 && later[..|blocks| + 1] == (blocks + [acquired])[..|blocks| + 1]
    ensures later[..|later| - 1] == blocks
  {
    assert later == blocks + [acquired];
  }

  /** From before entering a block until after leaving it, whatever the thread does inside and
      whatever other threads do, the number of times the thread holds the lock is the same. */
  lemma BlockRestoresHolds(s: State, inside: seq<Step>, t: Thread)
    requires Invariant(s)
    requires IsRun(Apply(s, Enter(t)), inside)
    requires StaysWithin(Apply(s, Enter(t)), inside, t, |Blocks(s, t)| + 1)
    requires |Blocks(After(Apply(s, Enter(t)), inside), t)| == |Blocks(s, t)| + 1
    ensures var s' := Apply(After(Apply(s, Enter(t)), inside), Exit(t));
            && Blocks(s', t) == Blocks(s, t)
            && (s'.lock.owner == Some(t) <==> s.lock.owner == Some(t))
            && (s.lock.owner == Some(t) ==> s'.lock.count == s.lock.count)
  {
    var entered := Apply(s, Enter(t));
    var left := After(entered, inside);
    StepKeepsInvariant(s, Enter(t));
    RunKeepsInvariant(entered, inside);
    StepKeepsInvariant(left, Exit(t));
    OuterBlocksStay(entered, inside, t, |Blocks(s, t)| + 1);
    LeavingRestoresBlocks(Blocks(s, t), AcquiresAtOnce(s.lock, t), Blocks(left, t));
    SameBlocksSameHolds(s, Apply(left, Exit(t)), t);
  }

  lemma SameBlocksSameHolds(s: State, s': State, t: Thread)
    requires Invariant(s) && Invariant(s') && Blocks(s', t) == Blocks(s, t)
    ensures s'.lock.owner == Some(t) <==> s.lock.owner == Some(t)
    ensures s.lock.owner == Some(t) ==> s'.lock.count == s.lock.count
  {
    assert Holds(Blocks(s, t)) == if s.lock.owner == Some(t) then s.lock.count else 0;
    assert Holds(Blocks(s', t)) == if s'.lock.owner == Some(t) then s'.lock.count else 0;
  }

  // ---------- The lock as an object ----------

  /** The lock is free for a thread exactly when no block of another thread has acquired it. */
  lemma FreeForOthers(s: State, t: Thread)
    requires Invariant(s)
    ensures AcquiresAtOnce(s.lock, t) <==> forall u: Thread | u != t :: Holds(Blocks(s, u)) == 0
  {
    if !AcquiresAtOnce(s.lock, t) {
      var u := s.lock.owner.value;
      assert Holds(Blocks(s, u)) == s.lock.count;
    }
  }

  class DBLock {
    var lock: Lock
    ghost var blocks: map<Thread, seq<bool>>

    ghost function View(): State
      reads this
    {
      State(lock, blocks)
    }

    ghost predicate Valid()
      reads this
    {
      Invariant(View())
    }

    constructor ()
      ensures Valid() && View() == INITIAL
    {
      lock, blocks := FREE, map[];
    }

    /** Enter a block once acquiring has succeeded or, the lock being another thread's all the
        while, timed out. */
    method Enter(t: Thread) returns (acquired: bool)
      requires Valid()
      modifies this
      ensures Valid() && View() == Apply(old(View()), Step.Enter(t))
      ensures acquired <==> forall u: Thread | u != t :: Holds(Blocks(old(View()), u)) == 0
      ensures Blocks(View(), t) == Blocks(old(View()), t) + [acquired]
    {
      StepKeepsInvariant(View(), Step.Enter(t));
      FreeForOthers(View(), t);
      acquired := lock.owner.None? || lock.owner.value == t;
      blocks := blocks[t := Blocks(View(), t) + [acquired]];
      if acquired {
        lock := Lock(Some(t), lock.count + 1);
      }
    }

    /** Leave the innermost block of the thread, giving back what that block acquired and nothing
        else. */
    method Exit(t: Thread)
      requires Valid() && Blocks(View(), t) != []
      modifies this
      ensures Valid() && View() == Apply(old(View()), Step.Exit(t))
      ensures var own := Blocks(old(View()), t); own == Blocks(View(), t) + [own[|own| - 1]]
      ensures var own := Blocks(old(View()), t);
              forall u :: HoldsOf(lock, u) == HoldsOf(old(lock), u) - if u == t && own[|own| - 1] then 1 else 0
    {
      StepKeepsInvariant(View(), Step.Exit(t));
      ExitFreesOwnHoldOnly(View(), t);
      ghost var own := Blocks(View(), t);
      assert own == own[..|own| - 1] + [own[|own| - 1]];
      blocks := blocks[t := own[..|own| - 1]];
      if lock.owner != Some(t) || lock.count == 0 {
        return;
      }
      lock := if lock.count == 1 then FREE else Lock(lock.owner, lock.count - 1);
    }
  }
}
