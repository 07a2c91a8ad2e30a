/** Operations in flight at once against serial runs. The operations may be lined up in any order
    in which, topic by topic, each starts its first critical section after the earlier ones are
    done; the order of calling and the order of first critical sections are the two in use. */
module Linearizability {
  import opened Numbers
  import opened Sequences
  import opened OffsetTables
  import opened TopicManagers
  import opened SerialLedger
  import opened LedgerLaws
  import opened Interleaving
  import opened TopicViews

  // ---------------------------------------------------------------------------------------
  // One critical section against one serial operation
  // ---------------------------------------------------------------------------------------

  /** Whether the operation creates its topic when it finds these rows of it. */
  predicate Creates(op: Op, view: seq<OffsetRow>) {
    match op
    case Allocation(_, _, _) => Ends(view) == []
    case GuardedCreation(_, _, _) => view == []
    case Creation(_, _, _) => true
  }

  /** The rows of an unfinished operation's topic, given those before the operation. */
  function Partial(nodeId: string, view: seq<OffsetRow>, task: Task): seq<OffsetRow> {
    view + if task.phase.AddingEnd? then [StartRow(nodeId, task.op.topic, Fresh(task.op))] else []
  }

  /** The row that an allocation will write, given the rows of its topic before it. */
  predicate Holds(op: Op, view: seq<OffsetRow>, row: OffsetRow) {
    op.Allocation? && Ends(view) != [] && row == Bumped(Ends(view)[|Ends(view)| - 1])
  }

  /** What an unfinished operation knows, given the rows of its topic before it. */
  ghost predicate Knows(rows: seq<OffsetRow>, view: seq<OffsetRow>, task: Task) {
    match task.phase
    case Scanning => task.op.Allocation?
    case Checking => task.op.GuardedCreation?
    case AddingStart => Creates(task.op, view)
    case AddingEnd => Creates(task.op, view)
    case Locating(row) => Holds(task.op, view, row)
    case Storing(index, row) => Holds(task.op, view, row) && index == IndexOfKey(rows, KeyOf(row))
    case Finished(_) => false
  }

  /** The operation is under way from these rows of its topic. */
  ghost predicate UnderWay(rows: seq<OffsetRow>, nodeId: string, view: seq<OffsetRow>, task: Task) {
    && View(rows, task.op.topic) == Partial(nodeId, view, task)
    && Knows(rows, view, task)
  }

  /** The operation is done: it has the serial answer, and its topic the serial rows. */
  ghost predicate Done(rows: seq<OffsetRow>, nodeId: string, view: seq<OffsetRow>, task: Task) {
    && task.phase == Finished(Apply(view, nodeId, task.op).1)
    && View(rows, task.op.topic) == Apply(view, nodeId, task.op).0
  }

  /** One step of an operation leaves it under way, or done. */
  lemma {:induction false} MoveRefines(rows: seq<OffsetRow>, nodeId: string, view: seq<OffsetRow>, task: Task)
    requires OneNode(view, nodeId) && View(view, task.op.topic) == view
    requires UnderWay(rows, nodeId, view, task)
    ensures var (after, phase) := Move(rows, nodeId, task);
            var moved := task.(phase := phase);
            UnderWay(after, nodeId, view, moved) || Done(after, nodeId, view, moved)
  {
    match task.phase {
      case Scanning => ScanRefines(rows, nodeId, view, task);
      case Checking => CheckRefines(rows, nodeId, view, task);
      case AddingStart => AppendRefines(rows, nodeId, view, task);
      case AddingEnd => AppendRefines(rows, nodeId, view, task);
      case Locating(row) =>
      case Storing(index, row) => StoreRefines(rows, nodeId, view, task);
    }
  }

  lemma {:induction false} ScanRefines(rows: seq<OffsetRow>, nodeId: string, view: seq<OffsetRow>, task: Task)
    requires OneNode(view, nodeId) && UnderWay(rows, nodeId, view, task) && task.phase.Scanning?
    ensures var (after, phase) := Move(rows, nodeId, task); UnderWay(after, nodeId, view, task.(phase := phase))
  {
    assert view + [] == view;
    ScanInView(rows, nodeId, task.op.topic);
  }

  lemma {:induction false} CheckRefines(rows: seq<OffsetRow>, nodeId: string, view: seq<OffsetRow>, task: Task)
    requires UnderWay(rows, nodeId, view, task) && task.phase.Checking? && View(view, task.op.topic) == view
    ensures var (after, phase) := Move(rows, nodeId, task);
            var moved := task.(phase := phase);
            UnderWay(after, nodeId, view, moved) || Done(after, nodeId, view, moved)
  {
    assert view + [] == view;
  }

  lemma {:induction false} AppendRefines(rows: seq<OffsetRow>, nodeId: string, view: seq<OffsetRow>, task: Task)
    requires OneNode(view, nodeId) && View(view, task.op.topic) == view && UnderWay(rows, nodeId, view, task)
    requires task.phase.AddingStart? || task.phase.AddingEnd?
    ensures var (after, phase) := Move(rows, nodeId, task);
            var moved := task.(phase := phase);
            UnderWay(after, nodeId, view, moved) || Done(after, nodeId, view, moved)
  {
    var op := task.op;
    var first, second := StartRow(nodeId, op.topic, Fresh(op)), EndRow(nodeId, op.topic, Fresh(op));
    ScanInView(view, nodeId, op.topic);
    AppendedView(rows, if task.phase.AddingStart? then first else second);
    assert view + [] == view;
    assert (view + [first]) + [second] == view + CreationRows(nodeId, op.topic, op.partitionCount, op.now);
  }

  lemma {:induction false} StoreRefines(rows: seq<OffsetRow>, nodeId: string, view: seq<OffsetRow>, task: Task)
    requires OneNode(view, nodeId) && View(view, task.op.topic) == view
    requires UnderWay(rows, nodeId, view, task) && task.phase.Storing?
    ensures var (after, phase) := Move(rows, nodeId, task); Done(after, nodeId, view, task.(phase := phase))
  {
    var row := task.phase.row;
    assert view + [] == view;
    ScanInView(view, nodeId, task.op.topic);
    var k := LastEnd(view);
    FilterMembers(view, HasTopic(task.op.topic), k);
    assert row.topic == task.op.topic;
    OverwriteInView(rows, row);
  }

  lemma {:induction false} AppendedView(rows: seq<OffsetRow>, row: OffsetRow)
    ensures forall topic: string ::
              View(rows + [row], topic) == View(rows, topic) + if topic == row.topic then [row] else []
  {
    forall topic: string
      ensures View(rows + [row], topic) == View(rows, topic) + if topic == row.topic then [row] else []
    {
      FilterConcat(rows, [row], HasTopic(topic));
    }
  }

  /** A step of an operation never shows on another topic. */
  lemma {:induction false} MoveKeepsOthers(s: State, nodeId: string, i: nat, other: string)
    requires Safe(s) && i < |s.tasks| && s.tasks[i].op.topic != other
    ensures View(Exec(s, nodeId, Advance(i)).rows, other) == View(s.rows, other)
  {
    var task := s.tasks[i];
    assert TaskSafe(s, task);
    match task.phase {
      case AddingStart =>
        AppendedView(s.rows, StartRow(nodeId, task.op.topic, Fresh(task.op)));
      case AddingEnd =>
        AppendedView(s.rows, EndRow(nodeId, task.op.topic, Fresh(task.op)));
      case Storing(index, row) =>
        OverwriteInView(s.rows, row);
      case _ =>
    }
  }

  // ---------------------------------------------------------------------------------------
  // The invariant, for a topic and an order
  // ---------------------------------------------------------------------------------------

  ghost predicate Positions(tasks: seq<Task>, order: seq<nat>) {
    forall k :: 0 <= k < |order| ==> order[k] < |tasks|
  }

  /** The operations in the order. */
  ghost function Taken(tasks: seq<Task>, order: seq<nat>): (ops: seq<Op>)
    requires Positions(tasks, order)
    ensures |ops| == |order| && forall k :: 0 <= k < |order| ==> ops[k] == tasks[order[k]].op
  {
    seq(|order|, k requires 0 <= k < |order| => tasks[order[k]].op)
  }

  /** The rows of a topic in the serial run of the operations. */
  function SerialView(nodeId: string, ops: seq<Op>, topic: string): seq<OffsetRow> {
    View(Run(nodeId, ops), topic)
  }

  ghost predicate PositionOk(s: State, nodeId: string, order: seq<nat>, k: nat)
    requires Positions(s.tasks, order) && k < |order|
  {
    var task, ops := s.tasks[order[k]], Taken(s.tasks, order);
    if task.phase.Finished? then task.phase.answer == Returned(nodeId, ops, k)
    else
      && (forall l :: k < l < |order| ==> s.tasks[order[l]].op.topic != task.op.topic)
      && UnderWay(s.rows, nodeId, SerialView(nodeId, ops[..k], task.op.topic), task)
  }

  ghost predicate Quiet(tasks: seq<Task>, order: seq<nat>, topic: string)
    requires Positions(tasks, order)
  {
    forall k :: 0 <= k < |order| && tasks[order[k]].op.topic == topic ==> tasks[order[k]].phase.Finished?
  }

  ghost predicate Linear(s: State, nodeId: string, order: seq<nat>, topic: string) {
    && Safe(s)
    && Positions(s.tasks, order)
    && (forall k :: 0 <= k < |order| && s.tasks[order[k]].op.topic == topic ==> PositionOk(s, nodeId, order, k))
    && (Quiet(s.tasks, order, topic) ==> View(s.rows, topic) == SerialView(nodeId, Taken(s.tasks, order), topic))
  }

  /** Calling an operation, which takes no place in the order yet. */
  lemma {:induction false} CallKeeps(s: State, nodeId: string, order: seq<nat>, topic: string, op: Op)
    requires Linear(s, nodeId, order, topic)
    ensures Linear(Exec(s, nodeId, Start(op)), nodeId, order, topic)
  {
    var after := Exec(s, nodeId, Start(op));
    ExecKeepsSafe(s, nodeId, Start(op));
    assert Taken(after.tasks, order) == Taken(s.tasks, order);
    forall k | 0 <= k < |order| && after.tasks[order[k]].op.topic == topic ensures PositionOk(after, nodeId, order, k) {
      assert after.tasks[order[k]] == s.tasks[order[k]];
      assert PositionOk(s, nodeId, order, k);
    }
    if Quiet(after.tasks, order, topic) {
      assert forall k :: 0 <= k < |order| ==> after.tasks[order[k]] == s.tasks[order[k]];
    }
  }

  /** An operation that has not begun takes the next place; on the topic, only when the earlier ones
      are done. */
  lemma {:induction false} PlaceKeeps(s: State, nodeId: string, order: seq<nat>, topic: string, i: nat)
    requires Linear(s, nodeId, order, topic)
    requires i < |s.tasks| && s.tasks[i].phase == FirstPhase(s.tasks[i].op)
    requires s.tasks[i].op.topic == topic ==> Quiet(s.tasks, order, topic)
    ensures Linear(s, nodeId, order + [i], topic)
  {
    var n, longer := |order|, order + [i];
    var ops, ops' := Taken(s.tasks, order), Taken(s.tasks, order + [i]);
    assert ops' == ops + [s.tasks[i].op] && ops'[..n] == ops;
    assert forall k :: 0 <= k < n ==> longer[k] == order[k];
    forall k | 0 <= k < |longer| && s.tasks[longer[k]].op.topic == topic ensures PositionOk(s, nodeId, longer, k) {
      assert ops'[..k] == ops[..k];
      if k < n {
        assert PositionOk(s, nodeId, order, k);
      } else {
        FirstPhaseUnderWay(s.rows, nodeId, SerialView(nodeId, ops, topic), s.tasks[i]);
      }
    }
    if Quiet(s.tasks, longer, topic) {
      assert longer[n] == i;
      assert Quiet(s.tasks, order, topic);
      OtherTopicUntouched(Run(nodeId, ops), nodeId, s.tasks[i].op, topic);
    }
  }

  lemma {:induction false} FirstPhaseUnderWay(rows: seq<OffsetRow>, nodeId: string, view: seq<OffsetRow>, task: Task)
    requires task.phase == FirstPhase(task.op) && View(rows, task.op.topic) == view
    ensures UnderWay(rows, nodeId, view, task)
  {
    assert view + [] == view;
  }

  /** A step of an operation on another topic. */
  lemma {:induction false} OtherMoveKeeps(s: State, nodeId: string, order: seq<nat>, topic: string, i: nat)
    requires Linear(s, nodeId, order, topic) && i < |s.tasks| && s.tasks[i].op.topic != topic
    ensures Linear(Exec(s, nodeId, Advance(i)), nodeId, order, topic)
  {
    var after := Exec(s, nodeId, Advance(i));
    ExecKeepsSafe(s, nodeId, Advance(i));
    MoveKeepsOthers(s, nodeId, i, topic);
    assert Taken(after.tasks, order) == Taken(s.tasks, order);
    forall k | 0 <= k < |order| && after.tasks[order[k]].op.topic == topic ensures PositionOk(after, nodeId, order, k) {
      assert PositionOk(s, nodeId, order, k);
      StaysOk(s, nodeId, order, k, i);
    }
    if Quiet(after.tasks, order, topic) {
      forall k | 0 <= k < |order| && s.tasks[order[k]].op.topic == topic ensures s.tasks[order[k]].phase.Finished? {
        assert after.tasks[order[k]] == s.tasks[order[k]];
      }
    }
  }

  lemma {:induction false} StaysOk(s: State, nodeId: string, order: seq<nat>, k: nat, i: nat)
    requires Safe(s) && Positions(s.tasks, order) && k < |order| && i < |s.tasks| && order[k] != i
    requires PositionOk(s, nodeId, order, k)
    requires KeysStable(s.rows, Exec(s, nodeId, Advance(i)).rows)
    requires s.tasks[order[k]].phase.Finished? || s.tasks[i].op.topic != s.tasks[order[k]].op.topic
    ensures PositionOk(Exec(s, nodeId, Advance(i)), nodeId, order, k)
  {
    var after, task := Exec(s, nodeId, Advance(i)), s.tasks[order[k]];
    assert Taken(after.tasks, order) == Taken(s.tasks, order);
    assert forall l :: 0 <= l < |s.tasks| ==> after.tasks[l].op == s.tasks[l].op;
    if !task.phase.Finished? {
      MoveKeepsOthers(s, nodeId, i, task.op.topic);
      assert TaskSafe(s, task);
      if task.phase.Storing? {
        IndexStable(s.rows, after.rows, KeyOf(task.phase.row));
      }
    }
  }

  /** A step of the operation at place `k`. */
  lemma {:induction false} OwnMoveKeeps(s: State, nodeId: string, order: seq<nat>, topic: string, k: nat)
    requires Linear(s, nodeId, order, topic)
    requires k < |order| && s.tasks[order[k]].op.topic == topic && !s.tasks[order[k]].phase.Finished?
    ensures Linear(Exec(s, nodeId, Advance(order[k])), nodeId, order, topic)
  {
    var i := order[k];
    var after := Exec(s, nodeId, Advance(i));
    ExecKeepsSafe(s, nodeId, Advance(i));
    assert PositionOk(s, nodeId, order, k);
    MoverOk(s, nodeId, order, k);
    forall l | 0 <= l < |order| && after.tasks[order[l]].op.topic == topic ensures PositionOk(after, nodeId, order, l) {
      if l != k {
        assert PositionOk(s, nodeId, order, l);
        StaysOk(s, nodeId, order, l, i);
      }
    }
    if Quiet(after.tasks, order, topic) {
      assert after.tasks[order[k]].phase.Finished?;
    }
  }

  /** Operation `k` of a serial run seen from its topic. */
  lemma {:induction false} SerialStep(nodeId: string, ops: seq<Op>, k: nat)
    requires k < |ops|
    ensures var op := ops[k];
            var view := SerialView(nodeId, ops[..k], op.topic);
            && OneNode(view, nodeId)
            && View(view, op.topic) == view
            && Apply(view, nodeId, op).1 == Returned(nodeId, ops, k)
            && (Apply(view, nodeId, op).0 == SerialView(nodeId, ops[..k + 1], op.topic))
  {
    var rows, op := Run(nodeId, ops[..k]), ops[k];
    ViewOfView(rows, op.topic);
    RunViewOneNode(nodeId, ops[..k], op.topic);
    ApplyInView(rows, nodeId, op);
    assert ops[..k + 1][..k] == ops[..k] && ops[..k + 1][k] == op;
  }

  lemma {:induction false} MoverMoves(s: State, nodeId: string, i: nat, view: seq<OffsetRow>)
    requires i < |s.tasks| && OneNode(view, nodeId) && View(view, s.tasks[i].op.topic) == view
    requires UnderWay(s.rows, nodeId, view, s.tasks[i])
    ensures var after := Exec(s, nodeId, Advance(i));
            UnderWay(after.rows, nodeId, view, after.tasks[i]) || Done(after.rows, nodeId, view, after.tasks[i])
  {
    MoveRefines(s.rows, nodeId, view, s.tasks[i]);
  }

  lemma {:induction false} MoverOk(s: State, nodeId: string, order: seq<nat>, k: nat)
    requires Positions(s.tasks, order) && k < |order|
    requires PositionOk(s, nodeId, order, k) && !s.tasks[order[k]].phase.Finished?
    ensures var after, t := Exec(s, nodeId, Advance(order[k])), s.tasks[order[k]].op.topic;
            && PositionOk(after, nodeId, order, k)
            && (after.tasks[order[k]].phase.Finished? ==>
                  View(after.rows, t) == SerialView(nodeId, Taken(after.tasks, order), t))
  {
    var after, task := Exec(s, nodeId, Advance(order[k])), s.tasks[order[k]];
    var ops, t := Taken(s.tasks, order), task.op.topic;
    assert Taken(after.tasks, order) == ops;
    assert forall l :: 0 <= l < |s.tasks| ==> after.tasks[l].op == s.tasks[l].op;
    SerialStep(nodeId, ops, k);
    MoverMoves(s, nodeId, order[k], SerialView(nodeId, ops[..k], t));
    ViewSettled(nodeId, ops, k + 1, t);
  }

  // ---------------------------------------------------------------------------------------
  // The order of first critical sections
  // ---------------------------------------------------------------------------------------

  predicate Waiting(task: Task) {
    task.phase == FirstPhase(task.op)
  }

  predicate Begins(s: State, step: Step) {
    step.Advance? && step.task < |s.tasks| && Waiting(s.tasks[step.task])
  }

  /** The operations, by position in the order of calling, in the order of their first critical
      sections. */
  function FirstSteps(nodeId: string, steps: seq<Step>): seq<nat> {
    if steps == [] then []
    else
      var front, last := steps[..|steps| - 1], steps[|steps| - 1];
      FirstSteps(nodeId, front) + if Begins(ExecAll(IDLE, nodeId, front), last) then [last.task] else []
  }

  /** Every operation on the topic is waiting for its first critical section, or done. */
  predicate NoneBusy(tasks: seq<Task>, topic: string) {
    forall i :: 0 <= i < |tasks| && tasks[i].op.topic == topic ==> Waiting(tasks[i]) || tasks[i].phase.Finished?
  }

  /** No operation on the topic begins while another is between its first critical section and its
      last. Any number may have been called and wait. */
  ghost predicate Exclusive(nodeId: string, steps: seq<Step>, topic: string) {
    steps != [] ==>
      var front, last := steps[..|steps| - 1], steps[|steps| - 1];
      var s := ExecAll(IDLE, nodeId, front);
      && Exclusive(nodeId, front, topic)
      && (Begins(s, last) && s.tasks[last.task].op.topic == topic ==> NoneBusy(s.tasks, topic))
  }

  lemma {:induction false} NeverWaitsAgain(s: State, nodeId: string, i: nat)
    requires Safe(s) && i < |s.tasks|
    ensures !Waiting(Exec(s, nodeId, Advance(i)).tasks[i])
  {
    assert TaskSafe(s, s.tasks[i]);
  }

  /** The order holds exactly the operations that have begun. */
  lemma {:induction false} FirstStepsAreBegun(nodeId: string, steps: seq<Step>, i: nat)
    ensures i in FirstSteps(nodeId, steps) <==>
            i < |ExecAll(IDLE, nodeId, steps).tasks| && !Waiting(ExecAll(IDLE, nodeId, steps).tasks[i])
  {
    if steps != [] {
      var front, last := steps[..|steps| - 1], steps[|steps| - 1];
      FirstStepsAreBegun(nodeId, front, i);
      AlwaysSafe(nodeId, front);
      var s := ExecAll(IDLE, nodeId, front);
      if last.Advance? && last.task < |s.tasks| {
        NeverWaitsAgain(s, nodeId, last.task);
      }
    }
  }

  lemma {:induction false} StepOfBegun(
    s: State, nodeId: string, order: seq<nat>, topic: string, i: nat)
    requires Linear(s, nodeId, order, topic) && i < |s.tasks|
    requires s.tasks[i].op.topic == topic && !s.tasks[i].phase.Finished? ==> i in order
    ensures Linear(Exec(s, nodeId, Advance(i)), nodeId, order, topic)
  {
    if s.tasks[i].phase.Finished? {
      assert Exec(s, nodeId, Advance(i)) == s;
    } else if s.tasks[i].op.topic != topic {
      OtherMoveKeeps(s, nodeId, order, topic, i);
    } else {
      var k :| 0 <= k < |order| && order[k] == i;
      OwnMoveKeeps(s, nodeId, order, topic, k);
    }
  }

  lemma {:induction false} FirstStepKeeps(s: State, nodeId: string, order: seq<nat>, topic: string, step: Step)
    requires Linear(s, nodeId, order, topic)
    requires forall i: nat :: i in order <==> i < |s.tasks| && !Waiting(s.tasks[i])
    requires Begins(s, step) && s.tasks[step.task].op.topic == topic ==> NoneBusy(s.tasks, topic)
    ensures Linear(Exec(s, nodeId, step), nodeId, order + (if Begins(s, step) then [step.task] else []), topic)
  {
    if Begins(s, step) {
      var longer := order + [step.task];
      PlaceKeeps(s, nodeId, order, topic, step.task);
      assert longer[|order|] == step.task;
      StepOfBegun(s, nodeId, longer, topic, step.task);
    } else {
      assert order + [] == order;
      match step {
        case Start(op) => CallKeeps(s, nodeId, order, topic, op);
        case Advance(i) =>
          if i < |s.tasks| {
            StepOfBegun(s, nodeId, order, topic, i);
          }
      }
    }
  }

  lemma {:induction false} AlwaysLinearByFirstSteps(nodeId: string, steps: seq<Step>, topic: string)
    requires Exclusive(nodeId, steps, topic)
    ensures Linear(ExecAll(IDLE, nodeId, steps), nodeId, FirstSteps(nodeId, steps), topic)
  {
    if steps != [] {
      var front := steps[..|steps| - 1];
      var s, order := ExecAll(IDLE, nodeId, front), FirstSteps(nodeId, front);
      AlwaysLinearByFirstSteps(nodeId, front, topic);
      forall i: nat ensures i in order <==> i < |s.tasks| && !Waiting(s.tasks[i]) {
        FirstStepsAreBegun(nodeId, front, i);
      }
      FirstStepKeeps(s, nodeId, order, topic, steps[|steps| - 1]);
    }
  }

  /** Linearizability, topic by topic. If operations on a topic do not overlap between their first
      and last critical sections, then whatever happens on other topics, every finished operation
      on it returned what it returns in the serial run of all operations in the order of their
      first critical sections, and whenever none is busy its rows are those of that run. */
  lemma {:induction false} FirstStepsAreSerial(nodeId: string, steps: seq<Step>, topic: string)
    requires Exclusive(nodeId, steps, topic)
    ensures var s, order := ExecAll(IDLE, nodeId, steps), FirstSteps(nodeId, steps);
            && Positions(s.tasks, order)
            && (forall k :: 0 <= k < |order| && s.tasks[order[k]].op.topic == topic
                            && s.tasks[order[k]].phase.Finished? ==>
                  s.tasks[order[k]].phase.answer == Returned(nodeId, Taken(s.tasks, order), k))
            && (NoneBusy(s.tasks, topic) ==> View(s.rows, topic) == SerialView(nodeId, Taken(s.tasks, order), topic))
  {
    var s, order := ExecAll(IDLE, nodeId, steps), FirstSteps(nodeId, steps);
    AlwaysLinearByFirstSteps(nodeId, steps, topic);
    forall k | 0 <= k < |order| && s.tasks[order[k]].op.topic == topic && s.tasks[order[k]].phase.Finished?
      ensures s.tasks[order[k]].phase.answer == Returned(nodeId, Taken(s.tasks, order), k)
    {
      assert PositionOk(s, nodeId, order, k);
    }
    forall k | 0 <= k < |order| ensures !Waiting(s.tasks[order[k]]) {
      FirstStepsAreBegun(nodeId, steps, order[k]);
    }
  }

  // ---------------------------------------------------------------------------------------
  // The order of calling
  // ---------------------------------------------------------------------------------------

  /** The operations in the order in which they were called. */
  function Ops(tasks: seq<Task>): (ops: seq<Op>)
    ensures |ops| == |tasks| && forall i :: 0 <= i < |tasks| ==> ops[i] == tasks[i].op
  {
    seq(|tasks|, i requires 0 <= i < |tasks| => tasks[i].op)
  }

  predicate Idle(tasks: seq<Task>, topic: string) {
    forall i :: 0 <= i < |tasks| && tasks[i].op.topic == topic ==> tasks[i].phase.Finished?
  }

  /** Operations start only on idle topics. */
  ghost predicate OnePerTopic(nodeId: string, steps: seq<Step>) {
    steps != [] ==>
      var front, last := steps[..|steps| - 1], steps[|steps| - 1];
      && OnePerTopic(nodeId, front)
      && (last.Start? ==> Idle(ExecAll(IDLE, nodeId, front).tasks, last.op.topic))
  }

  function Calls(n: nat): (order: seq<nat>)
    ensures |order| == n && forall i :: 0 <= i < n ==> order[i] == i
  {
    seq(n, i => i)
  }

  lemma {:induction false} CallTakesPlace(s: State, nodeId: string, topic: string, op: Op)
    requires Linear(s, nodeId, Calls(|s.tasks|), topic) && Idle(s.tasks, op.topic)
    ensures Linear(Exec(s, nodeId, Start(op)), nodeId, Calls(|s.tasks| + 1), topic)
  {
    CallKeeps(s, nodeId, Calls(|s.tasks|), topic, op);
    LastTakesPlace(Exec(s, nodeId, Start(op)), nodeId, topic, s.tasks, op);
  }

  lemma {:induction false} LastTakesPlace(s: State, nodeId: string, topic: string, before: seq<Task>, op: Op)
    requires s.tasks == before + [Task(op, FirstPhase(op))] && Idle(before, op.topic)
    requires Linear(s, nodeId, Calls(|before|), topic)
    ensures Linear(s, nodeId, Calls(|before| + 1), topic)
  {
    QuietWhenIdle(before, s.tasks, Calls(|before|), op);
    PlaceKeeps(s, nodeId, Calls(|before|), topic, |before|);
    CallsSnoc(|before|);
  }

  lemma {:induction false} CallsSnoc(n: nat)
    ensures Calls(n + 1) == Calls(n) + [n]
  {
  }

  lemma {:induction false} QuietWhenIdle(before: seq<Task>, tasks: seq<Task>, order: seq<nat>, op: Op)
    requires Idle(before, op.topic) && tasks == before + [Task(op, FirstPhase(op))]
    requires forall k :: 0 <= k < |order| ==> order[k] < |before|
    ensures Quiet(tasks, order, op.topic)
  {
    assert forall k :: 0 <= k < |order| ==> tasks[order[k]] == before[order[k]];
  }

  lemma {:induction false} CallOrderKeeps(s: State, nodeId: string, topic: string, step: Step)
    requires Linear(s, nodeId, Calls(|s.tasks|), topic)
    requires step.Start? ==> Idle(s.tasks, step.op.topic)
    ensures var after := Exec(s, nodeId, step); Linear(after, nodeId, Calls(|after.tasks|), topic)
  {
    match step {
      case Start(op) => CallTakesPlace(s, nodeId, topic, op);
      case Advance(i) =>
        if i < |s.tasks| {
          assert Calls(|s.tasks|)[i] == i;
          StepOfBegun(s, nodeId, Calls(|s.tasks|), topic, i);
        }
    }
  }

  lemma {:induction false} AlwaysLinear(nodeId: string, steps: seq<Step>, topic: string)
    requires OnePerTopic(nodeId, steps)
    ensures var s := ExecAll(IDLE, nodeId, steps); Linear(s, nodeId, Calls(|s.tasks|), topic)
  {
    if steps != [] {
      var front := steps[..|steps| - 1];
      AlwaysLinear(nodeId, front, topic);
      CallOrderKeeps(ExecAll(IDLE, nodeId, front), nodeId, topic, steps[|steps| - 1]);
    }
  }

  /** Linearizability. However the steps of operations on different topics interleave, every
      finished operation returned what it returns in the serial run of the same operations in
      calling order, and every idle topic has exactly the rows it has in that serial run. */
  lemma {:induction false} InterleavingIsSerial(nodeId: string, steps: seq<Step>)
    requires OnePerTopic(nodeId, steps)
    ensures var s := ExecAll(IDLE, nodeId, steps);
            var ops := Ops(s.tasks);
            && (forall i :: 0 <= i < |s.tasks| && s.tasks[i].phase.Finished? ==>
                  s.tasks[i].phase.answer == Returned(nodeId, ops, i))
            && (forall topic: string :: Idle(s.tasks, topic) ==> View(s.rows, topic) == View(Run(nodeId, ops), topic))
  {
    var s := ExecAll(IDLE, nodeId, steps);
    var ops, order := Ops(s.tasks), Calls(|s.tasks|);
    assert Positions(s.tasks, order) && Taken(s.tasks, order) == ops;
    forall i | 0 <= i < |s.tasks| && s.tasks[i].phase.Finished?
      ensures s.tasks[i].phase.answer == Returned(nodeId, ops, i)
    {
      AlwaysLinear(nodeId, steps, s.tasks[i].op.topic);
      assert order[i] == i;
      assert PositionOk(s, nodeId, order, i);
    }
    forall topic: string | Idle(s.tasks, topic) ensures View(s.rows, topic) == View(Run(nodeId, ops), topic) {
      AlwaysLinear(nodeId, steps, topic);
    }
  }

  /** Left alone, an operation is done after at most three critical sections, with the table and
      the answer of the whole operation. */
  lemma {:induction false} ThreeStepsAreOneOperation(s: State, nodeId: string, i: nat)
    requires i < |s.tasks| && s.tasks[i].phase == FirstPhase(s.tasks[i].op)
    ensures var step := Advance(i);
            var after := Exec(Exec(Exec(s, nodeId, step), nodeId, step), nodeId, step);
            var (rows, answer) := Apply(s.rows, nodeId, s.tasks[i].op);
            after == State(rows, s.tasks[i := s.tasks[i].(phase := Finished(answer))])
  {
    var op := s.tasks[i].op;
    match op {
      case Allocation(_, _, _) =>
        if ScanResult(s.rows, op.topic, nodeId, END) == [] {
          TwoAppends(Exec(s, nodeId, Advance(i)), nodeId, i);
        } else {
          ScanThenStore(s, nodeId, i);
        }
      case GuardedCreation(_, _, _) =>
        if View(s.rows, op.topic) == [] {
          TwoAppends(Exec(s, nodeId, Advance(i)), nodeId, i);
        }
      case Creation(_, _, _) =>
        TwoAppends(s, nodeId, i);
    }
  }

  lemma {:induction false} ScanThenStore(s: State, nodeId: string, i: nat)
    requires i < |s.tasks| && s.tasks[i].op.Allocation? && s.tasks[i].phase.Scanning?
    requires ScanResult(s.rows, s.tasks[i].op.topic, nodeId, END) != []
    ensures var step := Advance(i);
            var after := Exec(Exec(Exec(s, nodeId, step), nodeId, step), nodeId, step);
            var (rows, answer) := Apply(s.rows, nodeId, s.tasks[i].op);
            after == State(rows, s.tasks[i := s.tasks[i].(phase := Finished(answer))])
  {
    var found := ScanResult(s.rows, s.tasks[i].op.topic, nodeId, END);
    var row := Bumped(found[|found| - 1]);
    var scanned := Exec(s, nodeId, Advance(i));
    assert scanned == State(s.rows, s.tasks[i := s.tasks[i].(phase := Locating(row))]);
  }

  lemma {:induction false} TwoAppends(s: State, nodeId: string, i: nat)
    requires i < |s.tasks| && s.tasks[i].phase == AddingStart
    ensures var op := s.tasks[i].op;
            var done := s.tasks[i].(phase := Finished(if op.Allocation? then Some(0) else None));
            var rows := s.rows + CreationRows(nodeId, op.topic, op.partitionCount, op.now);
            Exec(Exec(s, nodeId, Advance(i)), nodeId, Advance(i)) == State(rows, s.tasks[i := done])
  {
    var op := s.tasks[i].op;
    var two := CreationRows(nodeId, op.topic, op.partitionCount, op.now);
    assert two == [StartRow(nodeId, op.topic, Fresh(op))] + [EndRow(nodeId, op.topic, Fresh(op))];
    assert s.rows + two == (s.rows + [two[0]]) + [two[1]];
  }
}
