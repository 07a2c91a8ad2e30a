/** Many ledger operations in flight at once. Each critical section of the table's mutex is one
    atomic step, and the steps of different operations interleave in any order. */
module Interleaving {
  import opened Numbers
  import opened Sequences
  import opened OffsetTables
  import opened TopicManagers
  import opened SerialLedger

  /** Where an operation stands between two critical sections, with the local values it holds. */
  datatype Phase =
    | Scanning
    | Checking
    | AddingStart
    | AddingEnd
    | Locating(row: OffsetRow)
    | Storing(index: int, row: OffsetRow)
    | Finished(answer: Option<uint128>)

  datatype Task = Task(op: Op, phase: Phase)

  /** The shared table, and the operations in the order in which they were called. */
  datatype State = State(rows: seq<OffsetRow>, tasks: seq<Task>)

  datatype Step = Start(op: Op) | Advance(task: nat)

  function FirstPhase(op: Op): Phase {
    match op
    case Allocation(_, _, _) => Scanning
    case GuardedCreation(_, _, _) => Checking
    case Creation(_, _, _) => AddingStart
  }

  /** One critical section of one operation. */
  function Move(rows: seq<OffsetRow>, nodeId: string, task: Task): (seq<OffsetRow>, Phase) {
    var op := task.op;
    match task.phase
    case Scanning =>
      var found := ScanResult(rows, op.topic, nodeId, END);
      (rows, if found == [] then AddingStart else Locating(Bumped(found[|found| - 1])))
    case Checking =>
      (rows, if View(rows, op.topic) == [] then AddingStart else Finished(None))
    case AddingStart =>
      (rows + [StartRow(nodeId, op.topic, Fresh(op))], AddingEnd)
    case AddingEnd =>
      (rows + [EndRow(nodeId, op.topic, Fresh(op))], Finished(if op.Allocation? then Some(0) else None))
    case Locating(row) =>
      (rows, Storing(IndexOfKey(rows, KeyOf(row)), row))
    case Storing(index, row) =>
      (Overwrite(rows, index, row), Finished(Some(row.offset)))
    case Finished(_) =>
      (rows, task.phase)
  }

  function Exec(s: State, nodeId: string, step: Step): State {
    match step
    case Start(op) => s.(tasks := s.tasks + [Task(op, FirstPhase(op))])
    case Advance(i) =>
      if i < |s.tasks| then
        var (rows, phase) := Move(s.rows, nodeId, s.tasks[i]);
        State(rows, s.tasks[i := s.tasks[i].(phase := phase)])
      else s
  }

  function ExecAll(s: State, nodeId: string, steps: seq<Step>): State {
    if steps == [] then s
    else Exec(ExecAll(s, nodeId, steps[..|steps| - 1]), nodeId, steps[|steps| - 1])
  }

  const IDLE := State([], [])

  // ---------------------------------------------------------------------------------------
  // Safety under every interleaving
  // ---------------------------------------------------------------------------------------

  function HasBegun(topic: string): Task -> bool {
    (task: Task) => task.op.Allocation? && task.op.topic == topic && !task.phase.Scanning?
  }

  /** The number of allocations on the topic that have passed their scan. */
  function Begun(tasks: seq<Task>, topic: string): nat {
    |Filter(tasks, HasBegun(topic))|
  }

  /** A row held by an allocation belongs to its topic, is an end row, and its key is in the table. */
  ghost predicate Held(rows: seq<OffsetRow>, op: Op, row: OffsetRow) {
    op.Allocation? && row.topic == op.topic && row.kind == END && IndexOfKey(rows, KeyOf(row)) >= 0
  }

  ghost predicate TaskSafe(s: State, task: Task) {
    match task.phase
    case Scanning => task.op.Allocation?
    case Checking => task.op.GuardedCreation?
    case Locating(row) => Held(s.rows, task.op, row) && row.offset <= Begun(s.tasks, row.topic)
    case Storing(index, row) =>
      && Held(s.rows, task.op, row) && row.offset <= Begun(s.tasks, row.topic)
      && index == IndexOfKey(s.rows, KeyOf(row))
    case Finished(Some(number)) => task.op.Allocation? && number <= Begun(s.tasks, task.op.topic)
    case _ => true
  }

  ghost predicate RowSafe(s: State, row: OffsetRow) {
    (row.kind == START ==> row.offset == 0) && row.offset <= Begun(s.tasks, row.topic)
  }

  ghost predicate Safe(s: State) {
    && (forall i :: 0 <= i < |s.tasks| ==> TaskSafe(s, s.tasks[i]))
    && (forall k :: 0 <= k < |s.rows| ==> RowSafe(s, s.rows[k]))
  }

  /** No row is lost and no row changes its key. */
  ghost predicate KeysStable(before: seq<OffsetRow>, after: seq<OffsetRow>) {
    && |before| <= |after|
    && forall k :: 0 <= k < |before| ==> KeyOf(after[k]) == KeyOf(before[k])
  }

  lemma {:induction false} IndexStable(before: seq<OffsetRow>, after: seq<OffsetRow>, key: Key)
    requires KeysStable(before, after) && IndexOfKey(before, key) >= 0
    ensures IndexOfKey(after, key) == IndexOfKey(before, key)
  {
    var i := IndexOfKey(before, key);
    assert KeyOf(after[i]) == key;
    assert forall k :: 0 <= k < i ==> KeyOf(after[k]) != key;
  }

  /** What a task's number of begun allocations becomes when one task moves. */
  lemma {:induction false} BegunAfterMove(tasks: seq<Task>, i: nat, phase: Phase, topic: string)
    requires i < |tasks| && !phase.Scanning?
    ensures Begun(tasks[i := tasks[i].(phase := phase)], topic)
         == Begun(tasks, topic)
            + if tasks[i].op.Allocation? && tasks[i].op.topic == topic && tasks[i].phase.Scanning? then 1 else 0
  {
    var p := HasBegun(topic);
    FilterAround(tasks, p, i);
    FilterUpdated(tasks, p, i, tasks[i].(phase := phase));
  }

  /** A step overwrites at most one row, the one whose key the moving task looked up, and
      otherwise only appends. */
  lemma {:induction false} MoveTouchesOwnKey(s: State, nodeId: string, i: nat)
    requires Safe(s) && i < |s.tasks|
    ensures var after := Move(s.rows, nodeId, s.tasks[i]).0;
            && KeysStable(s.rows, after)
            && forall k :: 0 <= k < |s.rows| && after[k] != s.rows[k] ==>
                 s.tasks[i].phase.Storing? && k == s.tasks[i].phase.index && after[k] == s.tasks[i].phase.row
  {
    assert TaskSafe(s, s.tasks[i]);
  }

  /** The moving task keeps its own promise, and so does every row. */
  lemma {:induction false} MoverStaysSafe(s: State, nodeId: string, i: nat)
    requires Safe(s) && i < |s.tasks|
    ensures var after := Exec(s, nodeId, Advance(i));
            && TaskSafe(after, after.tasks[i])
            && forall k :: 0 <= k < |after.rows| ==> RowSafe(after, after.rows[k])
  {
    var task := s.tasks[i];
    var after := Exec(s, nodeId, Advance(i));
    var phase := after.tasks[i].phase;
    assert TaskSafe(s, task);
    MoveTouchesOwnKey(s, nodeId, i);
    assert !phase.Scanning?;
    assert |START| != |END|;
    forall topic: string ensures Begun(after.tasks, topic) >= Begun(s.tasks, topic) {
      BegunAfterMove(s.tasks, i, phase, topic);
    }
    forall k | 0 <= k < |after.rows| ensures RowSafe(after, after.rows[k]) {
      if k < |s.rows| && after.rows[k] == s.rows[k] {
        assert RowSafe(s, s.rows[k]);
      }
    }
    if task.phase.Scanning? && ScanResult(s.rows, task.op.topic, nodeId, END) != [] {
      ScanStaysSafe(s, nodeId, i);
    }
  }

  /** A copy taken by a scan and advanced by one does not exceed the allocations begun, because
      the scan itself begins one more. */
  lemma {:induction false} ScanStaysSafe(s: State, nodeId: string, i: nat)
    requires Safe(s) && i < |s.tasks| && s.tasks[i].phase.Scanning? && s.tasks[i].op.Allocation?
    requires ScanResult(s.rows, s.tasks[i].op.topic, nodeId, END) != []
    ensures var after := Exec(s, nodeId, Advance(i)); TaskSafe(after, after.tasks[i])
  {
    var topic := s.tasks[i].op.topic;
    var after := Exec(s, nodeId, Advance(i));
    var j := ScanLast(s.rows, topic, nodeId, END);
    assert RowSafe(s, s.rows[j]);
    BegunAfterMove(s.tasks, i, after.tasks[i].phase, topic);
    assert after.tasks[i].phase == Locating(Bumped(s.rows[j]));
    assert KeyOf(Bumped(s.rows[j])) == KeyOf(s.rows[j]);
  }

  lemma {:induction false} ExecKeepsSafe(s: State, nodeId: string, step: Step)
    requires Safe(s)
    ensures Safe(Exec(s, nodeId, step))
    ensures KeysStable(s.rows, Exec(s, nodeId, step).rows)
  {
    var after := Exec(s, nodeId, step);
    match step {
      case Start(op) =>
        forall topic: string ensures Begun(after.tasks, topic) >= Begun(s.tasks, topic) {
          FilterConcat(s.tasks, [Task(op, FirstPhase(op))], HasBegun(topic));
        }
        assert forall j :: 0 <= j < |s.tasks| ==> TaskSafe(s, s.tasks[j]);
        assert forall k :: 0 <= k < |s.rows| ==> RowSafe(s, s.rows[k]);
      case Advance(i) =>
        if i < |s.tasks| {
          MoveTouchesOwnKey(s, nodeId, i);
          MoverStaysSafe(s, nodeId, i);
          forall j | 0 <= j < |s.tasks| && j != i ensures TaskSafe(after, after.tasks[j]) {
            OtherStaysSafe(s, nodeId, i, j);
          }
        }
    }
  }

  lemma {:induction false} OtherStaysSafe(s: State, nodeId: string, i: nat, j: nat)
    requires Safe(s) && i < |s.tasks| && j < |s.tasks| && i != j
    requires KeysStable(s.rows, Exec(s, nodeId, Advance(i)).rows)
    ensures var after := Exec(s, nodeId, Advance(i)); TaskSafe(after, after.tasks[j])
  {
    var after := Exec(s, nodeId, Advance(i));
    var task := s.tasks[j];
    assert TaskSafe(s, task) && after.tasks[j] == task;
    if !after.tasks[i].phase.Scanning? {
      BegunAfterMove(s.tasks, i, after.tasks[i].phase, task.op.topic);
    }
    if task.phase.Locating? || task.phase.Storing? {
      IndexStable(s.rows, after.rows, KeyOf(task.phase.row));
    }
  }

  lemma {:induction false} AlwaysSafe(nodeId: string, steps: seq<Step>)
    ensures Safe(ExecAll(IDLE, nodeId, steps))
  {
    if steps != [] {
      var front := steps[..|steps| - 1];
      AlwaysSafe(nodeId, front);
      ExecKeepsSafe(ExecAll(IDLE, nodeId, front), nodeId, steps[|steps| - 1]);
    }
  }

  /** Over every interleaving of allocations and creations, guarded or not: an index that
      `searchForIndex` returned still names the first row of the same key when `update` runs,
      start rows stay at 0, and no row's offset, nor any number returned, exceeds the allocations
      begun on its topic. */
  lemma {:induction false} InterleavingSafety(nodeId: string, steps: seq<Step>)
    ensures var s := ExecAll(IDLE, nodeId, steps);
            && (forall i :: 0 <= i < |s.tasks| && s.tasks[i].phase.Storing? ==>
                  && 0 <= s.tasks[i].phase.index < |s.rows|
                  && KeyOf(s.rows[s.tasks[i].phase.index]) == KeyOf(s.tasks[i].phase.row)
                  && s.tasks[i].phase.index == IndexOfKey(s.rows, KeyOf(s.tasks[i].phase.row)))
            && (forall k :: 0 <= k < |s.rows| && s.rows[k].kind == START ==> s.rows[k].offset == 0)
            && (forall k :: 0 <= k < |s.rows| ==> s.rows[k].offset <= Begun(s.tasks, s.rows[k].topic))
            && (forall i :: 0 <= i < |s.tasks| && s.tasks[i].phase.Finished? && s.tasks[i].phase.answer.Some? ==>
                  s.tasks[i].phase.answer.value <= Begun(s.tasks, s.tasks[i].op.topic))
  {
    var s := ExecAll(IDLE, nodeId, steps);
    AlwaysSafe(nodeId, steps);
    forall i | 0 <= i < |s.tasks| ensures TaskSafe(s, s.tasks[i]) {
    }
    forall k | 0 <= k < |s.rows| ensures RowSafe(s, s.rows[k]) {
    }
  }

  /** After every run, a step changes at most rows of the moving operation's own topic and key, and
      only when that operation is at its write; it never touches another key's row. */
  lemma {:induction false} StepsTouchOwnKeyOnly(nodeId: string, steps: seq<Step>, i: nat, k: nat)
    requires var s := ExecAll(IDLE, nodeId, steps); i < |s.tasks| && k < |s.rows|
    ensures var s := ExecAll(IDLE, nodeId, steps);
            var task, after := s.tasks[i], Exec(s, nodeId, Advance(i)).rows;
            && k < |after|
            && (after[k] != s.rows[k] ==>
                  && task.phase.Storing? && after[k] == task.phase.row
                  && KeyOf(s.rows[k]) == KeyOf(task.phase.row)
                  && s.rows[k].topic == task.op.topic && s.rows[k].kind == END
                  && forall j :: 0 <= j < |s.rows| && j != k ==> after[j] == s.rows[j])
  {
    var s := ExecAll(IDLE, nodeId, steps);
    AlwaysSafe(nodeId, steps);
    MoveTouchesOwnKey(s, nodeId, i);
    assert TaskSafe(s, s.tasks[i]);
  }

  /** Rows are never lost and never change their key, from any point of a run to its end. */
  lemma {:induction false} RowsAreNeverLost(nodeId: string, steps: seq<Step>, n: nat)
    requires n <= |steps|
    ensures KeysStable(ExecAll(IDLE, nodeId, steps[..n]).rows, ExecAll(IDLE, nodeId, steps).rows)
    decreases |steps|
  {
    if n < |steps| {
      var front := steps[..|steps| - 1];
      assert front[..n] == steps[..n];
      RowsAreNeverLost(nodeId, front, n);
      AlwaysSafe(nodeId, front);
      ExecKeepsSafe(ExecAll(IDLE, nodeId, front), nodeId, steps[|steps| - 1]);
    } else {
      assert steps[..n] == steps;
    }
  }
}
