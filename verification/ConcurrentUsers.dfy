/** User inserts in flight at once: each draws its offset through the ledger's critical sections and
    pushes its row in one of its own, later
    (topics/topic_private/topic_user/topic_private_user_definition.cpp). */
module ConcurrentUsers {
  import opened Numbers
  import opened SerialLedger
  import opened Interleaving
  import opened Linearizability
  import opened Overlaps
  import opened UserTables

  /** The ledger, and the inserts whose rows are in the user table, in the order of the rows. */
  datatype Tables = Tables(ledger: State, pushed: seq<nat>)

  datatype Turn = Draw(step: Step) | Push(task: nat)

  predicate IsInsert(task: Task) {
    task.op.Allocation? && task.op.topic == USER_TOPIC
  }

  /** An insert pushes once, after it has its offset. */
  function Take(s: Tables, nodeId: string, turn: Turn): Tables {
    match turn
    case Draw(step) => s.(ledger := Exec(s.ledger, nodeId, step))
    case Push(i) =>
      if i < |s.ledger.tasks| && IsInsert(s.ledger.tasks[i]) && s.ledger.tasks[i].phase.Finished? && i !in s.pushed
      then s.(pushed := s.pushed + [i])
      else s
  }

  function TakeAll(nodeId: string, turns: seq<Turn>): Tables {
    if turns == [] then Tables(IDLE, [])
    else Take(TakeAll(nodeId, turns[..|turns| - 1]), nodeId, turns[|turns| - 1])
  }

  /** The steps of the ledger among the turns. */
  function Draws(turns: seq<Turn>): seq<Step> {
    if turns == [] then []
    else
      var last := turns[|turns| - 1];
      Draws(turns[..|turns| - 1]) + if last.Draw? then [last.step] else []
  }

  ghost predicate PushedOnce(s: Tables) {
    && (forall p :: 0 <= p < |s.pushed| ==>
          s.pushed[p] < |s.ledger.tasks| && Numbered(s.ledger.tasks[s.pushed[p]], USER_TOPIC))
    && (forall p, q :: 0 <= p < q < |s.pushed| ==> s.pushed[p] != s.pushed[q])
  }

  lemma {:induction false} LedgerOfTurns(nodeId: string, turns: seq<Turn>)
    ensures TakeAll(nodeId, turns).ledger == ExecAll(IDLE, nodeId, Draws(turns))
    ensures Safe(TakeAll(nodeId, turns).ledger)
  {
    AlwaysSafe(nodeId, Draws(turns));
    if turns != [] {
      var front, last := turns[..|turns| - 1], turns[|turns| - 1];
      LedgerOfTurns(nodeId, front);
      if last.Draw? {
        ExecMore(nodeId, Draws(front), last.step);
      } else {
        assert Draws(front) + [] == Draws(front);
      }
    }
  }

  lemma {:induction false} TakeKeepsPushedOnce(s: Tables, nodeId: string, turn: Turn)
    requires Safe(s.ledger) && PushedOnce(s)
    ensures PushedOnce(Take(s, nodeId, turn))
  {
    if turn.Draw? {
      forall p | 0 <= p < |s.pushed|
        ensures var after := Exec(s.ledger, nodeId, turn.step);
                s.pushed[p] < |after.tasks| && Numbered(after.tasks[s.pushed[p]], USER_TOPIC)
      {
        StepSettles(s.ledger, nodeId, turn.step, s.pushed[p]);
      }
    }
  }

  lemma {:induction false} AlwaysPushedOnce(nodeId: string, turns: seq<Turn>)
    ensures PushedOnce(TakeAll(nodeId, turns))
  {
    if turns != [] {
      var front := turns[..|turns| - 1];
      AlwaysPushedOnce(nodeId, front);
      LedgerOfTurns(nodeId, front);
      TakeKeepsPushedOnce(TakeAll(nodeId, front), nodeId, turns[|turns| - 1]);
    }
  }

  /** The offsets of the user rows, in the order of the rows. */
  function Offsets(s: Tables): (offsets: seq<uint128>)
    requires forall p :: 0 <= p < |s.pushed| ==> s.pushed[p] < |s.ledger.tasks|
    ensures |offsets| == |s.pushed|
    ensures forall p :: 0 <= p < |s.pushed| ==> offsets[p] == NumberOf(s.ledger.tasks[s.pushed[p]])
  {
    seq(|s.pushed|, p requires 0 <= p < |s.pushed| => NumberOf(s.ledger.tasks[s.pushed[p]]))
  }

  /** Every insert called has pushed its row. */
  predicate AllPushed(s: Tables) {
    forall i :: 0 <= i < |s.ledger.tasks| && IsInsert(s.ledger.tasks[i]) ==> i in s.pushed
  }

  /** If the draws of user inserts do not overlap, rows may be pushed in any order and draws on other
      topics may do anything: no two users have the same offset, every offset is below the number
      of draws, and once all inserts are through the offsets are exactly 0 up to that number, each
      once, in some order. */
  lemma {:induction false} OffsetsArePermuted(nodeId: string, turns: seq<Turn>)
    requires Exclusive(nodeId, Draws(turns), USER_TOPIC)
    requires var tasks := TakeAll(nodeId, turns).ledger.tasks;
             OnlyAllocations(tasks, USER_TOPIC) && Begun(tasks, USER_TOPIC) <= TWO_TO_THE_128
    ensures var s := TakeAll(nodeId, turns);
            var n := Begun(s.ledger.tasks, USER_TOPIC);
            && PushedOnce(s)
            && (forall p, q :: 0 <= p < q < |s.pushed| ==> Offsets(s)[p] != Offsets(s)[q])
            && (forall p :: 0 <= p < |s.pushed| ==> Offsets(s)[p] < n)
            && (AllPushed(s) ==> forall o: uint128 :: o in Offsets(s) <==> o < n)
  {
    var s := TakeAll(nodeId, turns);
    LedgerOfTurns(nodeId, turns);
    AlwaysPushedOnce(nodeId, turns);
    DistinctIffExclusive(nodeId, Draws(turns), USER_TOPIC);
    PushedDiffer(s);
    forall p | 0 <= p < |s.pushed| ensures Offsets(s)[p] < Begun(s.ledger.tasks, USER_TOPIC) {
      NumberBelow(nodeId, Draws(turns), s.pushed[p]);
    }
    if AllPushed(s) {
      forall o: uint128 | o < Begun(s.ledger.tasks, USER_TOPIC) ensures o in Offsets(s) {
        var i := DrawerOf(nodeId, Draws(turns), o);
        IsPushed(s, i);
      }
    }
  }

  /** Once every insert is through, no two users have the same offset if and only if the draws did not
      overlap. */
  lemma {:induction false} OffsetsDistinctIff(nodeId: string, turns: seq<Turn>)
    requires var s := TakeAll(nodeId, turns);
             && AllPushed(s) && OnlyAllocations(s.ledger.tasks, USER_TOPIC)
             && Begun(s.ledger.tasks, USER_TOPIC) <= TWO_TO_THE_128
    ensures var s := TakeAll(nodeId, turns);
            && PushedOnce(s)
            && ((forall p, q :: 0 <= p < q < |s.pushed| ==> Offsets(s)[p] != Offsets(s)[q]) <==>
                Exclusive(nodeId, Draws(turns), USER_TOPIC))
  {
    var s := TakeAll(nodeId, turns);
    LedgerOfTurns(nodeId, turns);
    AlwaysPushedOnce(nodeId, turns);
    DistinctIffExclusive(nodeId, Draws(turns), USER_TOPIC);
    if forall p, q :: 0 <= p < q < |s.pushed| ==> Offsets(s)[p] != Offsets(s)[q] {
      DifferWhenAllPushed(s);
    }
    if DistinctNumbers(s.ledger.tasks, USER_TOPIC) {
      PushedDiffer(s);
    }
  }

  lemma {:induction false} DifferWhenAllPushed(s: Tables)
    requires PushedOnce(s) && AllPushed(s)
    requires forall p, q :: 0 <= p < q < |s.pushed| ==> Offsets(s)[p] != Offsets(s)[q]
    ensures DistinctNumbers(s.ledger.tasks, USER_TOPIC)
  {
    var tasks := s.ledger.tasks;
    forall i, j | 0 <= i < j < |tasks| && Numbered(tasks[i], USER_TOPIC) && Numbered(tasks[j], USER_TOPIC)
      ensures NumberOf(tasks[i]) != NumberOf(tasks[j])
    {
      assert IsInsert(tasks[i]) && IsInsert(tasks[j]);
      var p :| 0 <= p < |s.pushed| && s.pushed[p] == i;
      var q :| 0 <= q < |s.pushed| && s.pushed[q] == j;
      assert Offsets(s)[if p < q then p else q] != Offsets(s)[if p < q then q else p];
    }
  }

  lemma {:induction false} PushedDiffer(s: Tables)
    requires PushedOnce(s) && DistinctNumbers(s.ledger.tasks, USER_TOPIC)
    ensures forall p, q :: 0 <= p < q < |s.pushed| ==> Offsets(s)[p] != Offsets(s)[q]
  {
    forall p, q | 0 <= p < q < |s.pushed| ensures Offsets(s)[p] != Offsets(s)[q] {
      var i, j := s.pushed[p], s.pushed[q];
      assert NumberOf(s.ledger.tasks[if i < j then i else j]) != NumberOf(s.ledger.tasks[if i < j then j else i]);
    }
  }

  lemma {:induction false} IsPushed(s: Tables, i: nat)
    requires PushedOnce(s) && AllPushed(s) && i < |s.ledger.tasks| && IsInsert(s.ledger.tasks[i])
    ensures NumberOf(s.ledger.tasks[i]) in Offsets(s)
  {
    var p :| 0 <= p < |s.pushed| && s.pushed[p] == i;
    assert Offsets(s)[p] == NumberOf(s.ledger.tasks[i]);
  }

  lemma {:induction false} NumberBelow(nodeId: string, steps: seq<Step>, i: nat)
    requires var s, order := ExecAll(IDLE, nodeId, steps), FirstSteps(nodeId, steps);
             && Positions(s.tasks, order) && NumberedInScanOrder(s.tasks, order, USER_TOPIC)
             && i < |s.tasks| && Numbered(s.tasks[i], USER_TOPIC)
             && Begun(s.tasks, USER_TOPIC) <= TWO_TO_THE_128
    ensures var s := ExecAll(IDLE, nodeId, steps); NumberOf(s.tasks[i]) < Begun(s.tasks, USER_TOPIC)
  {
    var s, order := ExecAll(IDLE, nodeId, steps), FirstSteps(nodeId, steps);
    var ops := Taken(s.tasks, order);
    CountScans(nodeId, steps, USER_TOPIC);
    FirstStepsAreBegun(nodeId, steps, i);
    var k :| 0 <= k < |order| && order[k] == i;
    AllocationsGrow(ops, USER_TOPIC, k, |ops|);
    assert ops[..|ops|] == ops;
    SmallRemainder(Allocations(ops[..k], USER_TOPIC), TWO_TO_THE_128);
  }

  /** The insert that drew an offset. */
  lemma {:induction false} DrawerOf(nodeId: string, steps: seq<Step>, o: nat) returns (i: nat)
    requires var s, order := ExecAll(IDLE, nodeId, steps), FirstSteps(nodeId, steps);
             && Positions(s.tasks, order) && NumberedInScanOrder(s.tasks, order, USER_TOPIC)
             && o < Begun(s.tasks, USER_TOPIC) <= TWO_TO_THE_128
    ensures var tasks := ExecAll(IDLE, nodeId, steps).tasks;
            i < |tasks| && Numbered(tasks[i], USER_TOPIC) && NumberOf(tasks[i]) == o
  {
    var s, order := ExecAll(IDLE, nodeId, steps), FirstSteps(nodeId, steps);
    var ops := Taken(s.tasks, order);
    CountScans(nodeId, steps, USER_TOPIC);
    var k := NthAllocation(ops, USER_TOPIC, o);
    i := order[k];
    FirstStepsAreBegun(nodeId, steps, i);
    SmallRemainder(o, TWO_TO_THE_128);
  }
}
