/** The operation objects and their manager (plinth/operation.py), proved to take the steps of the
    state machine in OperationRuns. */
module Operations {
  import opened Wrappers
  import opened OR = OperationRuns

  class Operation {
    const opId: string
    const appId: string
    const showMessage: bool
    var status: Status
    ghost const token: nat
    ghost var notified: bool

    constructor (opId: string, appId: string, showMessage: bool, ghost token: nat)
      ensures this.opId == opId && this.appId == appId && this.showMessage == showMessage && this.token == token
      ensures status == Waiting && !notified
    {
      this.opId, this.appId, this.showMessage, this.token := opId, appId, showMessage, token;
      status, notified := Waiting, false;
    }

    ghost function View(): Op
      reads this
    {
      Op(opId, appId, showMessage, status, notified)
    }

    /** Start the worker thread. */
    method Run()
      modifies this`status
      ensures status == Running
    {
      status := Running;
    }
  }

  /** The values of the manager's dictionary, in order; the key of each is its `opId`. */
  type Table = seq<Operation>

  function IndexOf(table: Table, opId: string): (p: nat)
    ensures p <= |table|
  {
    if table == [] || table[0].opId == opId then 0 else 1 + IndexOf(table[1..], opId)
  }

  ghost function Tokens(table: Table): (r: seq<nat>)
    ensures |r| == |table| && forall i | 0 <= i < |table| :: r[i] == table[i].token
  {
    seq(|table|, i requires 0 <= i < |table| => table[i].token)
  }

  ghost function Views(all: Table): (r: seq<Op>)
    reads all
    ensures |r| == |all| && forall i | 0 <= i < |all| :: r[i] == all[i].View()
  {
    seq(|all|, i requires 0 <= i < |all| reads all => all[i].View())
  }

  lemma {:induction false} IndexOfIsPosition(all: Table, table: Table, opId: string)
    requires forall o | o in table :: Listed(all, o)
    ensures IndexOf(table, opId) == Position(Views(all), Tokens(table), opId)
  {
    if table != [] {
      assert Listed(all, table[0]);
      assert Tokens(table)[1..] == Tokens(table[1..]);
      IndexOfIsPosition(all, table[1..], opId);
    }
  }

  lemma TokensWithout(table: Table, p: nat)
    requires p < |table|
    ensures Tokens(table[..p] + table[p + 1..]) == Without(Tokens(table), p)
  {
  }

  ghost predicate Listed(all: Table, o: Operation) {
    o.token < |all| && all[o.token] == o
  }

  class OperationsManager {
    var operations: Table
    var currentOperation: Operation?
    ghost var all: Table  // every operation ever accepted, oldest first

    ghost predicate Valid()
      reads this
    {
      && (forall i | 0 <= i < |all| :: all[i].token == i)
      && (forall o | o in operations :: Listed(all, o))
      && (currentOperation != null ==> Listed(all, currentOperation))
    }

    ghost function View(): Manager
      reads this, all
      requires Valid()
    {
      Manager(Views(all), Tokens(operations), if currentOperation == null then None else Some(currentOperation.token))
    }

    constructor ()
      ensures Valid() && View() == INITIAL
    {
      operations, currentOperation, all := [], null, [];
    }

    /** Accept and perhaps start an operation; null stands for the KeyError of a rejected one. */
    method New(opId: string, appId: string, showMessage: bool) returns (operation: Operation?)
      requires Valid()
      modifies this, all
      ensures Valid()
      ensures View() == OR.New(old(View()), opId, appId, showMessage)
      ensures operation != null <==> Accepts(old(View()), opId)
      ensures operation != null ==> fresh(operation) && all == old(all) + [operation]
    {
      var p := IndexOf(operations, opId);
      IndexOfIsPosition(all, operations, opId);
      assert p < |operations| ==> Listed(all, operations[p]);
      if p < |operations| && operations[p].status != Completed {
        return null;
      }
      operation := new Operation(opId, appId, showMessage, |all|);
      Put(operation, p);
      ScheduleNext();
    }

    /** Store a new operation under its id. */
    method Put(added: Operation, p: nat)
      requires Valid()
      requires added.token == |all| && added.status == Waiting && !added.notified && p <= |operations|
      requires p == Position(View().ops, View().table, added.opId)
      modifies this`operations, this`all
      ensures Valid() && all == old(all) + [added]
      ensures View() == Added(old(View()), added.opId, added.appId, added.showMessage)
    {
      operations := if p < |operations| then operations[p := added] else operations + [added];
      all := all + [added];
      forall o | o in operations ensures Listed(all, o) {
        assert o == added || o in old(operations);
      }
    }

    /** Reassign the dictionary. */
    method SetOperations(table: Table)
      requires Valid() && forall o | o in table :: o in operations
      modifies this`operations
      ensures Valid() && operations == table
      ensures View() == old(View()).(table := Tokens(table))
    {
      operations := table;
    }

    /** Start the first waiting operation unless one is current. */
    method ScheduleNext()
      requires Valid()
      modifies this`currentOperation, all
      ensures Valid()
      ensures View() == OR.ScheduleNext(old(View()))
    {
      ghost var m := View();
      if currentOperation != null {
        return;
      }
      for i := 0 to |operations|
        invariant Valid() && View() == m && currentOperation == null
        invariant forall k | 0 <= k < i :: !IsWaiting(m.ops, m.table[k])
      {
        var operation := operations[i];
        assert Listed(all, operation);
        if operation.status == Waiting {
          assert FirstWaiting(m.ops, m.table) == i;
          currentOperation := operation;
          operation.Run();
          assert View() == Started(m, m.table[i]);
          return;
        }
      }
    }

    /** The worker of an operation has finished its target; the lock is not held. */
    method TargetFinished(operation: Operation)
      requires Valid() && Listed(all, operation)
      modifies operation`status
      ensures Valid()
      ensures View() == Finish(old(View()), operation.token)
    {
      operation.status := Completed;
      assert View() == Finish(old(View()), operation.token);
    }

    /** The completion callback; false stands for the KeyError of a missing table entry. */
    method OnOperationComplete(operation: Operation) returns (ok: bool)
      requires Valid() && Listed(all, operation)
      modifies this, all
      ensures Valid()
      ensures View() == Callback(old(View()), operation.token)
      ensures ok <==> operation.showMessage || Lookup(old(View()), operation.opId).Some?
    {
      ghost var m := View();
      operation.notified := true;
      currentOperation := null;
      assert View() == Freed(m, operation.token);
      if !operation.showMessage {
        var p := IndexOf(operations, operation.opId);
        IndexOfIsPosition(all, operations, operation.opId);
        PositionSame(m.ops, Views(all), m.table, operation.opId);
        if p == |operations| {
          return false;
        }
        TokensWithout(operations, p);
        SetOperations(operations[..p] + operations[p + 1..]);
      }
      ScheduleNext();
      ok := true;
    }

    /** Hand out the finished operations of an app and forget them. */
    method CollectResults(appId: string) returns (results: seq<Operation>)
      requires Valid()
      modifies this`operations
      ensures Valid()
      ensures View() == Collect(old(View()), appId)
      ensures Tokens(results) == Pick(old(View()).ops, old(View()).table, appId, true)
      ensures forall o :: o in results <==> o in old(operations) && o.appId == appId && o.status == Completed
      ensures forall o :: o in operations <==> o in old(operations) && !(o.appId == appId && o.status == Completed)
    {
      var remaining;
      results, remaining := Partition(operations, appId);
      SelectIsPick(all, operations, appId, true);
      SelectIsPick(all, operations, appId, false);
      SelectSplits(operations, appId);
      SelectMembers(operations, appId);
      if results != [] {
        SetOperations(remaining);
      }
    }
  }

  /** The loop of `CollectResults`. */
  method Partition(table: Table, appId: string) returns (results: Table, remaining: Table)
    ensures results == Select(table, appId, true)
    ensures remaining == Select(table, appId, false)
  {
    results, remaining := [], [];
    for i := 0 to |table|
      invariant results == Select(table[..i], appId, true)
      invariant remaining == Select(table[..i], appId, false)
    {
      var operation := table[i];
      assert table[..i + 1] == table[..i] + [operation];
      SelectSnoc(table[..i], operation, appId, true);
      SelectSnoc(table[..i], operation, appId, false);
      if operation.appId == appId && operation.status == Completed {
        results := results + [operation];
      } else {
        remaining := remaining + [operation];
      }
    }
    assert table[..|table|] == table;
  }

  /** The finished operations of the app in a table, or the others. */
  ghost function Select(table: Table, appId: string, finished: bool): Table
    reads table
  {
    if table == [] then []
    else (if (table[0].appId == appId && table[0].status == Completed) == finished then [table[0]] else [])
         + Select(table[1..], appId, finished)
  }

  lemma {:induction false} SelectSnoc(table: Table, o: Operation, appId: string, finished: bool)
    ensures Select(table + [o], appId, finished) ==
            Select(table, appId, finished) +
            if (o.appId == appId && o.status == Completed) == finished then [o] else []
  {
    if table == [] {
      assert table + [o] == [o];
    } else {
      assert (table + [o])[1..] == table[1..] + [o];
      SelectSnoc(table[1..], o, appId, finished);
    }
  }

  lemma {:induction false} SelectIsPick(all: Table, table: Table, appId: string, finished: bool)
    requires forall o | o in table :: Listed(all, o)
    ensures Tokens(Select(table, appId, finished)) == Pick(Views(all), Tokens(table), appId, finished)
  {
    if table != [] {
      var o, rest := table[0], Select(table[1..], appId, finished);
      SelectIsPick(all, table[1..], appId, finished);
      assert Tokens(table)[1..] == Tokens(table[1..]);
      FinishedIsCollectable(all, o, appId);
      TokensCons(o, rest);
    }
  }

  lemma FinishedIsCollectable(all: Table, o: Operation, appId: string)
    requires Listed(all, o)
    ensures Collectable(Views(all), o.token, appId) <==> o.appId == appId && o.status == Completed
  {
  }

  lemma TokensCons(o: Operation, table: Table)
    ensures Tokens([o] + table) == [o.token] + Tokens(table)
  {
  }

  lemma {:induction false} SelectSplits(table: Table, appId: string)
    ensures forall o | o in Select(table, appId, true) || o in Select(table, appId, false) :: o in table
    ensures Select(table, appId, true) == [] ==> Select(table, appId, false) == table
  {
    if table != [] {
      SelectSplits(table[1..], appId);
    }
  }

  lemma {:induction false} SelectMembers(table: Table, appId: string)
    ensures forall o :: o in Select(table, appId, true) <==> o in table && o.appId == appId && o.status == Completed
    ensures forall o :: o in Select(table, appId, false) <==> o in table && !(o.appId == appId && o.status == Completed)
  {
    if table != [] {
      SelectMembers(table[1..], appId);
      assert forall o :: o in table <==> o == table[0] || o in table[1..];
    }
  }

  lemma {:induction false} PositionSame(ops: seq<Op>, ops': seq<Op>, table: seq<nat>, id: string)
    requires |ops| == |ops'| && forall t | 0 <= t < |ops| :: ops[t].id == ops'[t].id
    ensures Position(ops, table, id) == Position(ops', table, id)
  {
    if table != [] {
      PositionSame(ops, ops', table[1..], id);
    }
  }
}
