/** Allocations of one topic in flight at once: exactly when their numbers are distinct. */
module Overlaps {
  import opened Numbers
  import opened Sequences
  import opened OffsetTables
  import opened TopicManagers
  import opened SerialLedger
  import opened LedgerLaws
  import opened Interleaving
  import opened TopicViews
  import opened Linearizability

  /** The number that an allocation past its scan has returned or will return. */
  function NumberOf(task: Task): uint128 {
    match task.phase
    case Locating(row) => row.offset
    case Storing(_, row) => row.offset
    case Finished(Some(number)) => number
    case _ => 0
  }

  predicate Numbered(task: Task, topic: string) {
    task.op.Allocation? && task.op.topic == topic && !Waiting(task)
  }

  predicate DistinctNumbers(tasks: seq<Task>, topic: string) {
    forall i, j :: 0 <= i < j < |tasks| && Numbered(tasks[i], topic) && Numbered(tasks[j], topic) ==>
      NumberOf(tasks[i]) != NumberOf(tasks[j])
  }

  predicate OnlyAllocations(tasks: seq<Task>, topic: string) {
    forall i :: 0 <= i < |tasks| && tasks[i].op.topic == topic ==> tasks[i].op.Allocation?
  }

  predicate NoBareCreation(tasks: seq<Task>, topic: string) {
    forall i :: 0 <= i < |tasks| && tasks[i].op.topic == topic ==> !tasks[i].op.Creation?
  }

  /** The numbers on the topic are 0, 1, 2, ... in the order of the scans. */
  ghost predicate NumberedInScanOrder(tasks: seq<Task>, order: seq<nat>, topic: string)
    requires Positions(tasks, order)
  {
    forall k :: 0 <= k < |order| && Numbered(tasks[order[k]], topic) ==>
      NumberOf(tasks[order[k]]) == Allocations(Taken(tasks, order)[..k], topic) % TWO_TO_THE_128
  }

  // ---------------------------------------------------------------------------------------
  // A number, once drawn, is settled
  // ---------------------------------------------------------------------------------------

  lemma {:induction false} StepSettles(s: State, nodeId: string, step: Step, i: nat)
    requires Safe(s) && i < |s.tasks|
    ensures var after := Exec(s, nodeId, step);
            && i < |after.tasks| && after.tasks[i].op == s.tasks[i].op
            && (s.tasks[i].op.Allocation? && !Waiting(s.tasks[i]) ==>
                  !Waiting(after.tasks[i]) && NumberOf(after.tasks[i]) == NumberOf(s.tasks[i]))
  {
    assert TaskSafe(s, s.tasks[i]);
  }

  /** However a run goes on, an allocation past its scan keeps the number it drew there. */
  lemma {:induction false} NumberIsSettled(nodeId: string, steps: seq<Step>, n: nat, i: nat)
    requires n <= |steps| && i < |ExecAll(IDLE, nodeId, steps[..n]).tasks|
    ensures var before, after := ExecAll(IDLE, nodeId, steps[..n]), ExecAll(IDLE, nodeId, steps);
            && i < |after.tasks| && after.tasks[i].op == before.tasks[i].op
            && (before.tasks[i].op.Allocation? && !Waiting(before.tasks[i]) ==>
                  !Waiting(after.tasks[i]) && NumberOf(after.tasks[i]) == NumberOf(before.tasks[i]))
    decreases |steps|
  {
    if n < |steps| {
      var front := steps[..|steps| - 1];
      assert front[..n] == steps[..n];
      NumberIsSettled(nodeId, front, n, i);
      AlwaysSafe(nodeId, front);
      StepSettles(ExecAll(IDLE, nodeId, front), nodeId, steps[|steps| - 1], i);
    } else {
      assert steps[..n] == steps;
    }
  }

  // ---------------------------------------------------------------------------------------
  // Overlapping scans draw the same number
  // ---------------------------------------------------------------------------------------

  /** While an operation is under way the scan still finds the end rows from before it. */
  lemma {:induction false} ScanWhileUnderWay(rows: seq<OffsetRow>, nodeId: string, view: seq<OffsetRow>, task: Task)
    requires OneNode(view, nodeId) && UnderWay(rows, nodeId, view, task)
    ensures ScanResult(rows, task.op.topic, nodeId, END) == Ends(view)
  {
    ScanInView(rows, nodeId, task.op.topic);
    if task.phase.AddingEnd? {
      assert |START| != |END|;
      FilterConcat(view, [StartRow(nodeId, task.op.topic, Fresh(task.op))], HasKind(END));
    } else {
      assert view + [] == view;
    }
  }

  /** What a busy allocation drew is what a scan now draws. */
  lemma {:induction false} OverlapDrawsSame(s: State, nodeId: string, view: seq<OffsetRow>, b: nat, i: nat)
    requires b < |s.tasks| && i < |s.tasks| && b != i
    requires s.tasks[b].op.Allocation? && !Waiting(s.tasks[b])
    requires s.tasks[i].op.Allocation? && Waiting(s.tasks[i]) && s.tasks[i].op.topic == s.tasks[b].op.topic
    requires OneNode(view, nodeId) && UnderWay(s.rows, nodeId, view, s.tasks[b])
    ensures var after := Exec(s, nodeId, Advance(i));
            && after.tasks[b] == s.tasks[b] && !Waiting(after.tasks[i])
            && NumberOf(after.tasks[i]) == NumberOf(s.tasks[b])
  {
    ScanWhileUnderWay(s.rows, nodeId, view, s.tasks[b]);
  }

  lemma {:induction false} FirstOverlap(nodeId: string, steps: seq<Step>, step: Step, topic: string) returns (b: nat)
    requires Exclusive(nodeId, steps, topic)
    requires var s := ExecAll(IDLE, nodeId, steps);
             && OnlyAllocations(s.tasks, topic) && !NoneBusy(s.tasks, topic)
             && Begins(s, step) && s.tasks[step.task].op.topic == topic
    ensures var after := Exec(ExecAll(IDLE, nodeId, steps), nodeId, step);
            && b < |after.tasks| && step.task < |after.tasks| && b != step.task
            && Numbered(after.tasks[b], topic) && Numbered(after.tasks[step.task], topic)
            && NumberOf(after.tasks[b]) == NumberOf(after.tasks[step.task])
  {
    var s, order := ExecAll(IDLE, nodeId, steps), FirstSteps(nodeId, steps);
    b :| b < |s.tasks| && s.tasks[b].op.topic == topic && !Waiting(s.tasks[b]) && !s.tasks[b].phase.Finished?;
    FirstStepsAreBegun(nodeId, steps, b);
    var k :| 0 <= k < |order| && order[k] == b;
    AlwaysLinearByFirstSteps(nodeId, steps, topic);
    assert PositionOk(s, nodeId, order, k);
    var ops := Taken(s.tasks, order);
    RunViewOneNode(nodeId, ops[..k], topic);
    OverlapDrawsSame(s, nodeId, SerialView(nodeId, ops[..k], topic), b, step.task);
  }

  /** When two allocations of a topic overlap, some two of them draw the same number. */
  lemma {:induction false} OverlapRepeats(nodeId: string, steps: seq<Step>, topic: string) returns (i: nat, j: nat)
    requires !Exclusive(nodeId, steps, topic)
    requires OnlyAllocations(ExecAll(IDLE, nodeId, steps).tasks, topic)
    ensures var s := ExecAll(IDLE, nodeId, steps);
            && i < |s.tasks| && j < |s.tasks| && i != j
            && Numbered(s.tasks[i], topic) && Numbered(s.tasks[j], topic)
            && NumberOf(s.tasks[i]) == NumberOf(s.tasks[j])
  {
    var front, last := steps[..|steps| - 1], steps[|steps| - 1];
    var s := ExecAll(IDLE, nodeId, front);
    AlwaysSafe(nodeId, front);
    forall k | 0 <= k < |s.tasks| && s.tasks[k].op.topic == topic ensures s.tasks[k].op.Allocation? {
      StepSettles(s, nodeId, last, k);
    }
    if Exclusive(nodeId, front, topic) {
      i := FirstOverlap(nodeId, front, last, topic);
      j := last.task;
    } else {
      i, j := OverlapRepeats(nodeId, front, topic);
      StepSettles(s, nodeId, last, i);
      StepSettles(s, nodeId, last, j);
    }
  }

  // ---------------------------------------------------------------------------------------
  // Without overlap the numbers are those of the serial run
  // ---------------------------------------------------------------------------------------

  lemma {:induction false} NumberUnderWay(rows: seq<OffsetRow>, nodeId: string, view: seq<OffsetRow>, task: Task)
    requires OneNode(view, nodeId) && View(view, task.op.topic) == view && UnderWay(rows, nodeId, view, task)
    requires task.op.Allocation? && !Waiting(task)
    ensures Apply(view, nodeId, task.op).1 == Some(NumberOf(task))
  {
    ScanInView(view, nodeId, task.op.topic);
  }

  /** Without overlap the allocation at place k of the scan order has the number of allocation k of
      a serial run, finished or not. Guarded creations of the topic may take part. */
  lemma {:induction false} ExclusiveNumbers(nodeId: string, steps: seq<Step>, topic: string, k: nat)
    requires Exclusive(nodeId, steps, topic) && k < |FirstSteps(nodeId, steps)|
    requires NoBareCreation(ExecAll(IDLE, nodeId, steps).tasks, topic)
    ensures var s, order := ExecAll(IDLE, nodeId, steps), FirstSteps(nodeId, steps);
            && Positions(s.tasks, order)
            && (Numbered(s.tasks[order[k]], topic) ==>
                  NumberOf(s.tasks[order[k]]) == NumberFor(Taken(s.tasks, order), k))
  {
    var s, order := ExecAll(IDLE, nodeId, steps), FirstSteps(nodeId, steps);
    AlwaysLinearByFirstSteps(nodeId, steps, topic);
    if Numbered(s.tasks[order[k]], topic) {
      PlaceNumber(s, nodeId, order, topic, k);
    }
  }

  lemma {:induction false} PlaceNumber(s: State, nodeId: string, order: seq<nat>, topic: string, k: nat)
    requires Linear(s, nodeId, order, topic) && NoBareCreation(s.tasks, topic)
    requires k < |order| && Numbered(s.tasks[order[k]], topic)
    ensures NumberOf(s.tasks[order[k]]) == NumberFor(Taken(s.tasks, order), k)
  {
    var ops := Taken(s.tasks, order);
    assert PositionOk(s, nodeId, order, k);
    NumberIsReturned(s, nodeId, order, k);
    NumberOfPlace(nodeId, ops, k, topic);
  }

  lemma {:induction false} NumberOfPlace(nodeId: string, ops: seq<Op>, k: nat, topic: string)
    requires k < |ops| && ops[k].Allocation? && ops[k].topic == topic
    requires forall l :: 0 <= l < |ops| && ops[l].topic == topic ==> !ops[l].Creation?
    ensures Returned(nodeId, ops, k) == Some(NumberFor(ops, k))
  {
    assert GuardedOn(ops[..k + 1], topic);
    KthAllocation(nodeId, ops, k, Allocations(ops[..k], topic));
  }

  lemma {:induction false} NumberIsReturned(s: State, nodeId: string, order: seq<nat>, k: nat)
    requires Positions(s.tasks, order) && k < |order| && PositionOk(s, nodeId, order, k)
    requires s.tasks[order[k]].op.Allocation? && !Waiting(s.tasks[order[k]])
    ensures Returned(nodeId, Taken(s.tasks, order), k) == Some(NumberOf(s.tasks[order[k]]))
  {
    var task, ops := s.tasks[order[k]], Taken(s.tasks, order);
    if !task.phase.Finished? {
      SerialStep(nodeId, ops, k);
      NumberUnderWay(s.rows, nodeId, SerialView(nodeId, ops[..k], task.op.topic), task);
    }
  }

  lemma {:induction false} NeverCreated(ops: seq<Op>, topic: string)
    requires forall k :: 0 <= k < |ops| && ops[k].topic == topic ==> ops[k].Allocation?
    ensures !CreatedExplicitly(ops, topic)
  {
    if ops != [] {
      assert forall k :: 0 <= k < |ops[1..]| ==> ops[1..][k] == ops[k + 1];
      NeverCreated(ops[1..], topic);
    }
  }

  lemma {:induction false} AllocationsSnoc(ops: seq<Op>, op: Op, topic: string)
    ensures Allocations(ops + [op], topic)
         == Allocations(ops, topic) + if op.Allocation? && op.topic == topic then 1 else 0
  {
    assert (ops + [op])[..|ops|] == ops;
  }

  /** The order of first steps holds as many allocations of a topic as have begun. */
  lemma {:induction false} CountScans(nodeId: string, steps: seq<Step>, topic: string)
    ensures var s, order := ExecAll(IDLE, nodeId, steps), FirstSteps(nodeId, steps);
            Positions(s.tasks, order) && Allocations(Taken(s.tasks, order), topic) == Begun(s.tasks, topic)
  {
    var s, order := ExecAll(IDLE, nodeId, steps), FirstSteps(nodeId, steps);
    forall k | 0 <= k < |order| ensures order[k] < |s.tasks| {
      FirstStepsAreBegun(nodeId, steps, order[k]);
    }
    if steps != [] {
      var front := steps[..|steps| - 1];
      CountScans(nodeId, front, topic);
      AlwaysSafe(nodeId, front);
      CountStep(ExecAll(IDLE, nodeId, front), nodeId, FirstSteps(nodeId, front), topic, steps[|steps| - 1]);
    }
  }

  lemma {:induction false} CountStep(s: State, nodeId: string, order: seq<nat>, topic: string, step: Step)
    requires Safe(s) && Positions(s.tasks, order)
    requires Allocations(Taken(s.tasks, order), topic) == Begun(s.tasks, topic)
    ensures var after, longer := Exec(s, nodeId, step), order + if Begins(s, step) then [step.task] else [];
            Positions(after.tasks, longer) ==>
              Allocations(Taken(after.tasks, longer), topic) == Begun(after.tasks, topic)
  {
    var after, longer := Exec(s, nodeId, step), order + if Begins(s, step) then [step.task] else [];
    if Positions(after.tasks, longer) {
      var ops := Taken(s.tasks, order);
      match step {
        case Start(op) =>
          assert longer == order && Taken(after.tasks, longer) == ops;
          FilterConcat(s.tasks, [Task(op, FirstPhase(op))], HasBegun(topic));
        case Advance(i) =>
          if i < |s.tasks| {
            assert TaskSafe(s, s.tasks[i]);
            BegunAfterMove(s.tasks, i, after.tasks[i].phase, topic);
            AllocationsSnoc(ops, s.tasks[i].op, topic);
            assert Taken(after.tasks, longer) == if Begins(s, step) then ops + [s.tasks[i].op] else ops;
          } else {
            assert longer == order;
          }
      }
    }
  }

  /** Numbers that follow a serial run are distinct below 2^128 allocations. */
  lemma {:induction false} SerialNumbersDiffer(nodeId: string, steps: seq<Step>, topic: string)
    requires var s, order := ExecAll(IDLE, nodeId, steps), FirstSteps(nodeId, steps);
             && Positions(s.tasks, order) && Begun(s.tasks, topic) <= TWO_TO_THE_128
             && forall k :: 0 <= k < |order| && Numbered(s.tasks[order[k]], topic) ==>
                  NumberOf(s.tasks[order[k]]) == NumberFor(Taken(s.tasks, order), k)
    ensures DistinctNumbers(ExecAll(IDLE, nodeId, steps).tasks, topic)
  {
    var s, order := ExecAll(IDLE, nodeId, steps), FirstSteps(nodeId, steps);
    var ops := Taken(s.tasks, order);
    CountScans(nodeId, steps, topic);
    forall i, j | 0 <= i < j < |s.tasks| && Numbered(s.tasks[i], topic) && Numbered(s.tasks[j], topic)
      ensures NumberOf(s.tasks[i]) != NumberOf(s.tasks[j])
    {
      FirstStepsAreBegun(nodeId, steps, i);
      FirstStepsAreBegun(nodeId, steps, j);
      var k :| 0 <= k < |order| && order[k] == i;
      var l :| 0 <= l < |order| && order[l] == j;
      var a, b := if k < l then k else l, if k < l then l else k;
      NumbersEqual(ops, a, b, Allocations(ops[..a], topic), Allocations(ops[..b], topic));
    }
  }

  /** Without overlap, and up to 2^128 allocations, all numbers on a topic are distinct; guarded
      creations of it, and anything on other topics, may take part. */
  lemma {:induction false} ExclusiveIsDistinct(nodeId: string, steps: seq<Step>, topic: string)
    requires Exclusive(nodeId, steps, topic)
    requires NoBareCreation(ExecAll(IDLE, nodeId, steps).tasks, topic)
    requires Begun(ExecAll(IDLE, nodeId, steps).tasks, topic) <= TWO_TO_THE_128
    ensures DistinctNumbers(ExecAll(IDLE, nodeId, steps).tasks, topic)
  {
    CountScans(nodeId, steps, topic);
    forall k | 0 <= k < |FirstSteps(nodeId, steps)|
      ensures var s, order := ExecAll(IDLE, nodeId, steps), FirstSteps(nodeId, steps);
              Numbered(s.tasks[order[k]], topic) ==>
                NumberOf(s.tasks[order[k]]) == NumberFor(Taken(s.tasks, order), k)
    {
      ExclusiveNumbers(nodeId, steps, topic, k);
    }
    SerialNumbersDiffer(nodeId, steps, topic);
  }

  // ---------------------------------------------------------------------------------------
  // The exact condition
  // ---------------------------------------------------------------------------------------

  /** On a topic that only allocations name, with at most 2^128 of them: the numbers drawn are
      distinct, and are 0, 1, 2, ... in the order of the scans, if and only if every scan happens
      while no other allocation of the topic is between its own scan and its end. Any number may
      be in flight, and anything may happen on other topics. */
  lemma {:induction false} DistinctIffExclusive(nodeId: string, steps: seq<Step>, topic: string)
    requires OnlyAllocations(ExecAll(IDLE, nodeId, steps).tasks, topic)
    requires Begun(ExecAll(IDLE, nodeId, steps).tasks, topic) <= TWO_TO_THE_128
    ensures var s, order := ExecAll(IDLE, nodeId, steps), FirstSteps(nodeId, steps);
            && (DistinctNumbers(s.tasks, topic) <==> Exclusive(nodeId, steps, topic))
            && Positions(s.tasks, order)
            && (NumberedInScanOrder(s.tasks, order, topic) <==> Exclusive(nodeId, steps, topic))
  {
    var s, order := ExecAll(IDLE, nodeId, steps), FirstSteps(nodeId, steps);
    CountScans(nodeId, steps, topic);
    var ops := Taken(s.tasks, order);
    NeverCreated(ops, topic);
    if Exclusive(nodeId, steps, topic) {
      forall k | 0 <= k < |order| && Numbered(s.tasks[order[k]], topic)
        ensures NumberOf(s.tasks[order[k]]) == Allocations(ops[..k], topic) % TWO_TO_THE_128
      {
        ExclusiveNumbers(nodeId, steps, topic, k);
      }
      ExclusiveIsDistinct(nodeId, steps, topic);
    } else {
      var i, j := OverlapRepeats(nodeId, steps, topic);
      if NumberedInScanOrder(s.tasks, order, topic) {
        SerialNumbersDiffer(nodeId, steps, topic);
      }
      assert !DistinctNumbers(s.tasks, topic);
    }
  }

  // ---------------------------------------------------------------------------------------
  // Overlaps are reached
  // ---------------------------------------------------------------------------------------

  /** Three critical sections of one operation in a row. */
  function Thrice(s: State, nodeId: string, i: nat): State {
    Exec(Twice(s, nodeId, i), nodeId, Advance(i))
  }

  function Twice(s: State, nodeId: string, i: nat): State {
    Exec(Exec(s, nodeId, Advance(i)), nodeId, Advance(i))
  }

  /** Past its scan an allocation needs two more critical sections. */
  lemma {:induction false} TwoMoreFinish(s: State, nodeId: string, i: nat)
    requires i < |s.tasks| && s.tasks[i].op.Allocation?
    requires s.tasks[i].phase.AddingStart? || s.tasks[i].phase.Locating?
    ensures Twice(s, nodeId, i).tasks == s.tasks[i := s.tasks[i].(phase := Finished(Some(NumberOf(s.tasks[i]))))]
  {
  }

  /** Two allocations of a topic that wait, on any table, can both finish with the same number: let
      both scan, then let each run to its end. Two calls on an empty ledger lead to such a state. */
  lemma {:induction false} OverlappingScansCollide(s: State, nodeId: string, i: nat, j: nat)
    requires i < |s.tasks| && j < |s.tasks| && i != j && Waiting(s.tasks[i]) && Waiting(s.tasks[j])
    requires s.tasks[i].op.Allocation? && s.tasks[j].op.Allocation? && s.tasks[i].op.topic == s.tasks[j].op.topic
    ensures var scanned := Exec(Exec(s, nodeId, Advance(i)), nodeId, Advance(j));
            var end := Twice(Twice(scanned, nodeId, i), nodeId, j);
            && |end.tasks| == |s.tasks|
            && end.tasks[i].phase.Finished? && end.tasks[i].phase == end.tasks[j].phase
            && end.tasks[i].phase.answer != None
  {
    var scanned := Exec(Exec(s, nodeId, Advance(i)), nodeId, Advance(j));
    assert NumberOf(scanned.tasks[i]) == NumberOf(scanned.tasks[j]);
    TwoMoreFinish(scanned, nodeId, i);
    TwoMoreFinish(Twice(scanned, nodeId, i), nodeId, j);
  }

  lemma {:induction false} ExecMore(nodeId: string, steps: seq<Step>, step: Step)
    ensures ExecAll(IDLE, nodeId, steps + [step]) == Exec(ExecAll(IDLE, nodeId, steps), nodeId, step)
  {
    assert (steps + [step])[..|steps|] == steps;
  }

  /** A run from the empty ledger in which two allocations both return 0. */
  lemma {:induction false} CollisionIsReached(nodeId: string, first: Op, second: Op) returns (steps: seq<Step>)
    requires first.Allocation? && second.Allocation? && first.topic == second.topic
    ensures var end := ExecAll(IDLE, nodeId, steps);
            && |end.tasks| == 2 && end.tasks[0].op == first && end.tasks[1].op == second
            && end.tasks[0].phase == end.tasks[1].phase == Finished(Some(0))
  {
    var called := [Start(first)] + [Start(second)];
    ExecMore(nodeId, [], Start(first));
    ExecMore(nodeId, [Start(first)], Start(second));
    assert [] + [Start(first)] == [Start(first)];
    var s := ExecAll(IDLE, nodeId, called);
    OverlappingScansCollide(s, nodeId, 0, 1);
    var a0, a1 := Advance(0), Advance(1);
    ExecMore(nodeId, called, a0);
    ExecMore(nodeId, called + [a0], a1);
    ExecMore(nodeId, called + [a0] + [a1], a0);
    ExecMore(nodeId, called + [a0] + [a1] + [a0], a0);
    ExecMore(nodeId, called + [a0] + [a1] + [a0] + [a0], a1);
    ExecMore(nodeId, called + [a0] + [a1] + [a0] + [a0] + [a1], a1);
    steps := called + [a0] + [a1] + [a0] + [a0] + [a1] + [a1];
  }

  /** An undisturbed allocation advances its topic's counter by one. */
  lemma {:induction false} WholeAllocation(s: State, nodeId: string, m: map<string, Counter>, i: nat)
    requires i < |s.tasks| && s.tasks[i].op.Allocation? && Waiting(s.tasks[i])
    requires var t := s.tasks[i].op.topic; t in m && View(s.rows, t) == RowsFor(nodeId, t, m)
    ensures var t, after := s.tasks[i].op.topic, Thrice(s, nodeId, i);
            && View(after.rows, t) == RowsFor(nodeId, t, m[t := m[t].(last := Next(m[t].last))])
            && |after.tasks| == |s.tasks|
            && forall k :: 0 <= k < |s.tasks| && k != i ==> after.tasks[k] == s.tasks[k]
  {
    ThreeStepsAreOneOperation(s, nodeId, i);
    StepRefines(s.rows, nodeId, m, s.tasks[i].op, s.tasks[i].op.topic);
  }

  /** A stale write lowers a counter. On a topic whose end row holds `last`, an allocation that
      scans, lets two others run to their end, and then writes, takes the row from two above
      `last` back to one above it. */
  lemma {:induction false} StaleWriteLowers(
    s: State, nodeId: string, m: map<string, Counter>, i: nat, j: nat, k: nat, topic: string)
    requires i < |s.tasks| && j < |s.tasks| && k < |s.tasks| && i != j && i != k && j != k
    requires Waiting(s.tasks[i]) && Waiting(s.tasks[j]) && Waiting(s.tasks[k])
    requires s.tasks[i].op.Allocation? && s.tasks[j].op.Allocation? && s.tasks[k].op.Allocation?
    requires s.tasks[i].op.topic == s.tasks[j].op.topic == s.tasks[k].op.topic == topic
    requires topic in m && View(s.rows, topic) == RowsFor(nodeId, topic, m)
    ensures var c := m[topic];
            var two := Thrice(Thrice(Exec(s, nodeId, Advance(i)), nodeId, j), nodeId, k);
            && View(two.rows, topic) == RowsFor(nodeId, topic, m[topic := c.(last := Next(Next(c.last)))])
            && View(Twice(two, nodeId, i).rows, topic) == RowsFor(nodeId, topic, m[topic := c.(last := Next(c.last))])
  {
    var c := m[topic];
    var once := m[topic := c.(last := Next(c.last))];
    var e := EndRow(nodeId, topic, c);
    ScanOfPair(s.rows, nodeId, topic, StartRow(nodeId, topic, c), e);
    var scanned := Exec(s, nodeId, Advance(i));
    WholeAllocation(scanned, nodeId, m, j);
    var one := Thrice(scanned, nodeId, j);
    WholeAllocation(one, nodeId, once, k);
    var two := Thrice(one, nodeId, k);
    assert once[topic := once[topic].(last := Next(once[topic].last))] == m[topic := c.(last := Next(Next(c.last)))];
    StaleStore(two, nodeId, i, m[topic := c.(last := Next(Next(c.last)))], Bumped(e), topic);
    assert RowsFor(nodeId, topic, once) == [StartRow(nodeId, topic, c), Bumped(e)];
  }

  lemma {:induction false} StaleStore(
    s: State, nodeId: string, i: nat, m: map<string, Counter>, row: OffsetRow, topic: string)
    requires i < |s.tasks| && s.tasks[i].phase == Locating(row)
    requires topic in m && View(s.rows, topic) == RowsFor(nodeId, topic, m)
    requires KeyOf(row) == KeyOf(EndRow(nodeId, topic, m[topic]))
    ensures View(Twice(s, nodeId, i).rows, topic) == [StartRow(nodeId, topic, m[topic]), row]
  {
    var first, e := StartRow(nodeId, topic, m[topic]), EndRow(nodeId, topic, m[topic]);
    assert |START| != |END|;
    OverwriteEnd(s.rows, topic, first, e, row);
  }
}
