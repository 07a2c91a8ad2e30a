/** Topics created by operations in flight at once. A guarded creation checks and then acts in
    separate critical sections, as an allocation does that finds no row
    (managers/topic_manager.cpp, managers/initialization_manager.cpp). */
module ConcurrentCreations {
  import opened Numbers
  import opened Sequences
  import opened OffsetTables
  import opened SerialLedger
  import opened LedgerLaws
  import opened Interleaving
  import opened TopicViews
  import opened Linearizability
  import opened Overlaps

  /** The operation has decided to create its topic and has not added both rows yet. */
  predicate Creating(task: Task) {
    (task.phase.AddingStart? && !Waiting(task)) || task.phase.AddingEnd?
  }

  predicate NoneCreating(tasks: seq<Task>, topic: string) {
    forall i :: 0 <= i < |tasks| && tasks[i].op.topic == topic ==> !Creating(tasks[i])
  }

  predicate AllGuarded(tasks: seq<Task>) {
    forall i :: 0 <= i < |tasks| ==> !tasks[i].op.Creation?
  }

  /** The step is the check or scan by which an operation decides to create its topic. */
  predicate Decides(s: State, nodeId: string, step: Step) {
    Begins(s, step) && Exec(s, nodeId, step).tasks[step.task].phase.AddingStart?
  }

  /** No operation decides to create a topic while another is creating it. */
  ghost predicate SingleDecisions(nodeId: string, steps: seq<Step>) {
    steps != [] ==>
      var front, last := steps[..|steps| - 1], steps[|steps| - 1];
      var s := ExecAll(IDLE, nodeId, front);
      && SingleDecisions(nodeId, front)
      && (Decides(s, nodeId, last) ==> NoneCreating(s.tasks, s.tasks[last.task].op.topic))
  }

  // ---------------------------------------------------------------------------------------
  // What every run keeps
  // ---------------------------------------------------------------------------------------

  ghost predicate TaskSane(rows: seq<OffsetRow>, nodeId: string, task: Task) {
    match task.phase
    case Locating(row) => row.nodeId == nodeId
    case Storing(_, row) => row.nodeId == nodeId
    case AddingEnd => exists k :: 0 <= k < |rows| && rows[k].topic == task.op.topic && rows[k].kind == START
    case _ => true
  }

  /** One node throughout, and an operation about to add its end row has added a start row. */
  ghost predicate Sane(s: State, nodeId: string) {
    && Safe(s)
    && OneNode(s.rows, nodeId)
    && forall i :: 0 <= i < |s.tasks| ==> TaskSane(s.rows, nodeId, s.tasks[i])
  }

  lemma {:induction false} MoverStaysSane(s: State, nodeId: string, i: nat)
    requires Sane(s, nodeId) && i < |s.tasks|
    ensures var after := Exec(s, nodeId, Advance(i));
            OneNode(after.rows, nodeId) && TaskSane(after.rows, nodeId, after.tasks[i])
  {
    var task, after := s.tasks[i], Exec(s, nodeId, Advance(i));
    assert TaskSane(s.rows, nodeId, task);
    if task.phase.Scanning? && ScanResult(s.rows, task.op.topic, nodeId, END) != [] {
      var j := ScanLast(s.rows, task.op.topic, nodeId, END);
    }
    if task.phase.AddingStart? {
      assert after.rows[|s.rows|] == StartRow(nodeId, task.op.topic, Fresh(task.op));
    }
  }

  lemma {:induction false} StepKeepsSane(s: State, nodeId: string, step: Step)
    requires Sane(s, nodeId)
    ensures Sane(Exec(s, nodeId, step), nodeId)
  {
    var after := Exec(s, nodeId, step);
    ExecKeepsSafe(s, nodeId, step);
    if step.Advance? && step.task < |s.tasks| {
      MoverStaysSane(s, nodeId, step.task);
    }
    forall j | 0 <= j < |after.tasks| ensures TaskSane(after.rows, nodeId, after.tasks[j]) {
      if j < |s.tasks| && after.tasks[j] == s.tasks[j] {
        assert TaskSane(s.rows, nodeId, s.tasks[j]);
        if s.tasks[j].phase.AddingEnd? {
          var k :| 0 <= k < |s.rows| && s.rows[k].topic == s.tasks[j].op.topic && s.rows[k].kind == START;
          assert KeyOf(after.rows[k]) == KeyOf(s.rows[k]);
        }
      }
    }
  }

  lemma {:induction false} AlwaysSane(nodeId: string, steps: seq<Step>)
    ensures Sane(ExecAll(IDLE, nodeId, steps), nodeId)
  {
    AlwaysSafe(nodeId, steps);
    if steps != [] {
      AlwaysSane(nodeId, steps[..|steps| - 1]);
      StepKeepsSane(ExecAll(IDLE, nodeId, steps[..|steps| - 1]), nodeId, steps[|steps| - 1]);
    }
  }

  lemma {:induction false} ViewOneNode(rows: seq<OffsetRow>, nodeId: string, topic: string)
    requires OneNode(rows, nodeId)
    ensures OneNode(View(rows, topic), nodeId)
  {
    forall k | 0 <= k < |View(rows, topic)| ensures View(rows, topic)[k].nodeId == nodeId {
      FilterMembers(rows, HasTopic(topic), k);
    }
  }

  // ---------------------------------------------------------------------------------------
  // Single decisions keep keys unique
  // ---------------------------------------------------------------------------------------

  /** What the topic's rows are while the operation creates it. */
  ghost predicate CreatingOk(view: seq<OffsetRow>, nodeId: string, task: Task) {
    && (task.phase.AddingStart? ==> view == [])
    && (task.phase.AddingEnd? ==> view == [StartRow(nodeId, task.op.topic, Fresh(task.op))])
  }

  ghost predicate Orderly(s: State, nodeId: string, topic: string) {
    var view := View(s.rows, topic);
    && UniqueKeys(view)
    && (NoneCreating(s.tasks, topic) ==> view == [] || Ends(view) != [])
    && (forall i :: 0 <= i < |s.tasks| && s.tasks[i].op.topic == topic && Creating(s.tasks[i]) ==>
          CreatingOk(view, nodeId, s.tasks[i]))
    && (forall i, j :: 0 <= i < j < |s.tasks| && s.tasks[i].op.topic == s.tasks[j].op.topic == topic ==>
          !Creating(s.tasks[i]) || !Creating(s.tasks[j]))
  }

  lemma {:induction false} CallKeepsOrderly(s: State, nodeId: string, topic: string, op: Op)
    requires Orderly(s, nodeId, topic)
    ensures Orderly(Exec(s, nodeId, Start(op)), nodeId, topic)
  {
    var after := Exec(s, nodeId, Start(op));
    assert forall i :: 0 <= i < |s.tasks| ==> after.tasks[i] == s.tasks[i];
    assert Waiting(after.tasks[|s.tasks|]) && !Creating(after.tasks[|s.tasks|]);
    if NoneCreating(after.tasks, topic) {
      assert NoneCreating(s.tasks, topic);
    }
  }

  lemma {:induction false} OtherKeepsOrderly(s: State, nodeId: string, topic: string, i: nat)
    requires Safe(s) && Orderly(s, nodeId, topic) && i < |s.tasks| && s.tasks[i].op.topic != topic
    ensures Orderly(Exec(s, nodeId, Advance(i)), nodeId, topic)
  {
    var after := Exec(s, nodeId, Advance(i));
    MoveKeepsOthers(s, nodeId, i, topic);
    assert after.tasks[i].op == s.tasks[i].op;
    assert forall j :: 0 <= j < |s.tasks| && j != i ==> after.tasks[j] == s.tasks[j];
    if NoneCreating(after.tasks, topic) {
      assert NoneCreating(s.tasks, topic);
    }
  }

  /** A step that leaves the topic's rows alone, and neither decides nor ends a creation. */
  lemma {:induction false} QuietMoveKeepsOrderly(s: State, after: State, nodeId: string, topic: string, i: nat)
    requires Orderly(s, nodeId, topic) && i < |s.tasks| && |after.tasks| == |s.tasks|
    requires forall j :: 0 <= j < |s.tasks| && j != i ==> after.tasks[j] == s.tasks[j]
    requires !Creating(s.tasks[i]) && !Creating(after.tasks[i])
    requires UniqueKeys(View(after.rows, topic))
    requires View(after.rows, topic) == View(s.rows, topic)
             || (NoneCreating(s.tasks, topic) && Ends(View(after.rows, topic)) != [])
    ensures Orderly(after, nodeId, topic)
  {
    if NoneCreating(after.tasks, topic) {
      assert NoneCreating(s.tasks, topic);
    }
    forall j | 0 <= j < |after.tasks| && after.tasks[j].op.topic == topic && Creating(after.tasks[j])
      ensures CreatingOk(View(after.rows, topic), nodeId, after.tasks[j])
    {
      assert after.tasks[j] == s.tasks[j];
    }
  }

  /** The topic's only creating operation moves on. */
  lemma {:induction false} CreatorKeepsOrderly(s: State, after: State, nodeId: string, topic: string, i: nat)
    requires Orderly(s, nodeId, topic) && i < |s.tasks| && |after.tasks| == |s.tasks|
    requires forall j :: 0 <= j < |s.tasks| && j != i ==> after.tasks[j] == s.tasks[j]
    requires forall j :: 0 <= j < |s.tasks| && j != i && s.tasks[j].op.topic == topic ==> !Creating(s.tasks[j])
    requires UniqueKeys(View(after.rows, topic)) && after.tasks[i].op.topic == topic
    requires if Creating(after.tasks[i]) then CreatingOk(View(after.rows, topic), nodeId, after.tasks[i])
             else Ends(View(after.rows, topic)) != []
    ensures Orderly(after, nodeId, topic)
  {
    assert forall j :: 0 <= j < |s.tasks| && j != i ==> after.tasks[j] == s.tasks[j];
  }

  lemma {:induction false} DecisionKeepsOrderly(s: State, nodeId: string, i: nat)
    requires Sane(s, nodeId) && i < |s.tasks| && Orderly(s, nodeId, s.tasks[i].op.topic)
    requires s.tasks[i].phase.Scanning? || s.tasks[i].phase.Checking?
    requires Decides(s, nodeId, Advance(i)) ==> NoneCreating(s.tasks, s.tasks[i].op.topic)
    ensures Orderly(Exec(s, nodeId, Advance(i)), nodeId, s.tasks[i].op.topic)
  {
    var t, after := s.tasks[i].op.topic, Exec(s, nodeId, Advance(i));
    assert TaskSafe(s, s.tasks[i]);
    ViewOneNode(s.rows, nodeId, t);
    ScanInView(s.rows, nodeId, t);
    if after.tasks[i].phase.AddingStart? {
      CreatorKeepsOrderly(s, after, nodeId, t, i);
    } else {
      QuietMoveKeepsOrderly(s, after, nodeId, t, i);
    }
  }

  lemma {:induction false} AppendKeepsOrderly(s: State, nodeId: string, i: nat)
    requires i < |s.tasks| && Orderly(s, nodeId, s.tasks[i].op.topic) && Creating(s.tasks[i])
    ensures Orderly(Exec(s, nodeId, Advance(i)), nodeId, s.tasks[i].op.topic)
  {
    var op, after := s.tasks[i].op, Exec(s, nodeId, Advance(i));
    var first, second := StartRow(nodeId, op.topic, Fresh(op)), EndRow(nodeId, op.topic, Fresh(op));
    AppendedView(s.rows, if s.tasks[i].phase.AddingStart? then first else second);
    assert |START| != |END|;
    assert CreatingOk(View(s.rows, op.topic), nodeId, s.tasks[i]);
    if s.tasks[i].phase.AddingEnd? {
      assert View(after.rows, op.topic) == [first] + [second];
      FilterConcat([first], [second], HasKind(END));
    }
    CreatorKeepsOrderly(s, after, nodeId, op.topic, i);
  }

  lemma {:induction false} OverwriteKeepsUnique(view: seq<OffsetRow>, row: OffsetRow)
    requires UniqueKeys(view)
    ensures UniqueKeys(Overwrite(view, IndexOfKey(view, KeyOf(row)), row))
    ensures IndexOfKey(view, KeyOf(row)) >= 0 && row.kind == END ==>
              Ends(Overwrite(view, IndexOfKey(view, KeyOf(row)), row)) != []
  {
    var i := IndexOfKey(view, KeyOf(row));
    if i >= 0 {
      assert forall k :: 0 <= k < |view| ==> KeyOf(view[i := row][k]) == KeyOf(view[k]);
      if row.kind == END {
        assert view[i := row][i] == row;
        FilterNonEmpty(view[i := row], HasKind(END), i);
      }
    }
  }

  lemma {:induction false} NoEndWhileCreating(s: State, nodeId: string, topic: string)
    requires Orderly(s, nodeId, topic)
    ensures NoneCreating(s.tasks, topic) ||
            forall k :: 0 <= k < |View(s.rows, topic)| ==> View(s.rows, topic)[k].kind != END
  {
    assert |START| != |END|;
    if b :| 0 <= b < |s.tasks| && s.tasks[b].op.topic == topic && Creating(s.tasks[b]) {
      assert CreatingOk(View(s.rows, topic), nodeId, s.tasks[b]);
    }
  }

  lemma {:induction false} StoreKeepsOrderly(s: State, nodeId: string, i: nat)
    requires Safe(s) && i < |s.tasks| && Orderly(s, nodeId, s.tasks[i].op.topic) && s.tasks[i].phase.Storing?
    ensures Orderly(Exec(s, nodeId, Advance(i)), nodeId, s.tasks[i].op.topic)
  {
    var t, row, after := s.tasks[i].op.topic, s.tasks[i].phase.row, Exec(s, nodeId, Advance(i));
    assert TaskSafe(s, s.tasks[i]);
    var view := View(s.rows, t);
    OverwriteInView(s.rows, row);
    OverwriteKeepsUnique(view, row);
    var k := IndexOfKey(view, KeyOf(row));
    assert view[k].kind == END;
    assert |START| != |END|;
    NoEndWhileCreating(s, nodeId, t);
    QuietMoveKeepsOrderly(s, after, nodeId, t, i);
  }

  lemma {:induction false} StepKeepsOrderly(s: State, nodeId: string, topic: string, step: Step)
    requires Sane(s, nodeId) && Orderly(s, nodeId, topic) && AllGuarded(s.tasks)
    requires Decides(s, nodeId, step) ==> NoneCreating(s.tasks, s.tasks[step.task].op.topic)
    ensures Orderly(Exec(s, nodeId, step), nodeId, topic)
  {
    match step {
      case Start(op) => CallKeepsOrderly(s, nodeId, topic, op);
      case Advance(i) =>
        if i < |s.tasks| {
          if s.tasks[i].op.topic != topic {
            OtherKeepsOrderly(s, nodeId, topic, i);
          } else {
            OwnStepKeepsOrderly(s, nodeId, i);
          }
        }
    }
  }

  lemma {:induction false} OwnStepKeepsOrderly(s: State, nodeId: string, i: nat)
    requires Sane(s, nodeId) && i < |s.tasks| && Orderly(s, nodeId, s.tasks[i].op.topic) && AllGuarded(s.tasks)
    requires Decides(s, nodeId, Advance(i)) ==> NoneCreating(s.tasks, s.tasks[i].op.topic)
    ensures Orderly(Exec(s, nodeId, Advance(i)), nodeId, s.tasks[i].op.topic)
  {
    match s.tasks[i].phase {
      case Scanning => DecisionKeepsOrderly(s, nodeId, i);
      case Checking => DecisionKeepsOrderly(s, nodeId, i);
      case AddingStart => AppendKeepsOrderly(s, nodeId, i);
      case AddingEnd => AppendKeepsOrderly(s, nodeId, i);
      case Locating(_) => QuietMoveKeepsOrderly(s, Exec(s, nodeId, Advance(i)), nodeId, s.tasks[i].op.topic, i);
      case Storing(_, _) => StoreKeepsOrderly(s, nodeId, i);
      case Finished(_) => assert Exec(s, nodeId, Advance(i)) == s;
    }
  }

  lemma {:induction false} GuardedBefore(nodeId: string, steps: seq<Step>)
    requires steps != [] && AllGuarded(ExecAll(IDLE, nodeId, steps).tasks)
    ensures AllGuarded(ExecAll(IDLE, nodeId, steps[..|steps| - 1]).tasks)
  {
    var s := ExecAll(IDLE, nodeId, steps[..|steps| - 1]);
    var after := Exec(s, nodeId, steps[|steps| - 1]);
    assert forall i :: 0 <= i < |s.tasks| ==> after.tasks[i].op == s.tasks[i].op;
  }

  lemma {:induction false} AlwaysOrderly(nodeId: string, steps: seq<Step>, topic: string)
    requires SingleDecisions(nodeId, steps) && AllGuarded(ExecAll(IDLE, nodeId, steps).tasks)
    ensures Orderly(ExecAll(IDLE, nodeId, steps), nodeId, topic)
  {
    if steps != [] {
      var front := steps[..|steps| - 1];
      GuardedBefore(nodeId, steps);
      AlwaysOrderly(nodeId, front, topic);
      AlwaysSane(nodeId, front);
      StepKeepsOrderly(ExecAll(IDLE, nodeId, front), nodeId, topic, steps[|steps| - 1]);
    }
  }

  /** Under every interleaving without bare creations in which no operation decides to create a topic
      while another is creating it, keys are unique at every moment. */
  lemma {:induction false} SingleDecisionsKeepKeysUnique(nodeId: string, steps: seq<Step>)
    requires SingleDecisions(nodeId, steps) && AllGuarded(ExecAll(IDLE, nodeId, steps).tasks)
    ensures UniqueKeys(ExecAll(IDLE, nodeId, steps).rows)
  {
    var rows := ExecAll(IDLE, nodeId, steps).rows;
    forall i, j | 0 <= i < j < |rows| ensures KeyOf(rows[i]) != KeyOf(rows[j]) {
      if rows[i].topic == rows[j].topic {
        AlwaysOrderly(nodeId, steps, rows[i].topic);
        var x, y := TwoInView(rows, rows[i].topic, i, j);
      }
    }
  }

  // ---------------------------------------------------------------------------------------
  // And nothing less does
  // ---------------------------------------------------------------------------------------

  function AtStart(topic: string): Task -> bool {
    (task: Task) => task.op.topic == topic && task.phase.AddingStart? && !Waiting(task)
  }

  function IsStart(topic: string): OffsetRow -> bool {
    (row: OffsetRow) => row.topic == topic && row.kind == START
  }

  /** Start rows of the topic, there or about to be added. */
  function Starts(s: State, topic: string): nat {
    |Filter(s.tasks, AtStart(topic))| + |Filter(s.rows, IsStart(topic))|
  }

  lemma {:induction false} StartRowsAfterMove(s: State, nodeId: string, i: nat, topic: string)
    requires Safe(s) && i < |s.tasks|
    ensures |Filter(Exec(s, nodeId, Advance(i)).rows, IsStart(topic))|
         == |Filter(s.rows, IsStart(topic))|
            + if s.tasks[i].phase.AddingStart? && s.tasks[i].op.topic == topic then 1 else 0
  {
    var op, p := s.tasks[i].op, IsStart(topic);
    assert TaskSafe(s, s.tasks[i]);
    assert |START| != |END|;
    match s.tasks[i].phase {
      case AddingStart => FilterConcat(s.rows, [StartRow(nodeId, op.topic, Fresh(op))], p);
      case AddingEnd => FilterConcat(s.rows, [EndRow(nodeId, op.topic, Fresh(op))], p);
      case Storing(index, row) =>
        assert KeyOf(s.rows[index]) == KeyOf(row);
        FilterAround(s.rows, p, index);
        FilterUpdated(s.rows, p, index, row);
      case _ =>
    }
  }

  /** A decision adds one to the count, and no step takes any away. */
  lemma {:induction false} StartsGrow(s: State, nodeId: string, step: Step, topic: string)
    requires Safe(s) && AllGuarded(s.tasks)
    ensures Starts(Exec(s, nodeId, step), topic)
         >= Starts(s, topic) + if Decides(s, nodeId, step) && s.tasks[step.task].op.topic == topic then 1 else 0
  {
    match step {
      case Start(op) =>
        FilterConcat(s.tasks, [Task(op, FirstPhase(op))], AtStart(topic));
      case Advance(i) =>
        if i < |s.tasks| {
          assert TaskSafe(s, s.tasks[i]);
          StartRowsAfterMove(s, nodeId, i, topic);
          FilterAround(s.tasks, AtStart(topic), i);
          FilterUpdated(s.tasks, AtStart(topic), i, Exec(s, nodeId, step).tasks[i]);
        }
    }
  }

  lemma {:induction false} CreatingCounts(s: State, nodeId: string, topic: string)
    requires Sane(s, nodeId) && !NoneCreating(s.tasks, topic)
    ensures Starts(s, topic) >= 1
  {
    var b :| 0 <= b < |s.tasks| && s.tasks[b].op.topic == topic && Creating(s.tasks[b]);
    assert TaskSane(s.rows, nodeId, s.tasks[b]);
    if s.tasks[b].phase.AddingEnd? {
      var k :| 0 <= k < |s.rows| && s.rows[k].topic == topic && s.rows[k].kind == START;
      FilterNonEmpty(s.rows, IsStart(topic), k);
    } else {
      FilterNonEmpty(s.tasks, AtStart(topic), b);
    }
  }

  lemma {:induction false} OverlapCounts(nodeId: string, steps: seq<Step>) returns (topic: string)
    requires !SingleDecisions(nodeId, steps) && AllGuarded(ExecAll(IDLE, nodeId, steps).tasks)
    ensures Starts(ExecAll(IDLE, nodeId, steps), topic) >= 2
  {
    var front, last := steps[..|steps| - 1], steps[|steps| - 1];
    var s := ExecAll(IDLE, nodeId, front);
    GuardedBefore(nodeId, steps);
    AlwaysSane(nodeId, front);
    if SingleDecisions(nodeId, front) {
      topic := s.tasks[last.task].op.topic;
      CreatingCounts(s, nodeId, topic);
    } else {
      topic := OverlapCounts(nodeId, front);
    }
    StartsGrow(s, nodeId, last, topic);
  }

  lemma {:induction false} TwoKept<T>(s: seq<T>, p: T -> bool) returns (i: nat, j: nat)
    requires |Filter(s, p)| >= 2
    ensures i < j < |s| && p(s[i]) && p(s[j])
  {
    if p(s[0]) {
      var k := FilterLast(s[1..], p);
      i, j := 0, k + 1;
    } else {
      i, j := TwoKept(s[1..], p);
      i, j := i + 1, j + 1;
    }
  }

  /** All operations name the same partition number, as they do with one configured default. */
  predicate OnePartition(tasks: seq<Task>, partition: uint8) {
    forall i :: 0 <= i < |tasks| ==> NarrowToUint8(tasks[i].op.partitionCount) == partition
  }

  lemma {:induction false} RowsOfOnePartition(nodeId: string, steps: seq<Step>, partition: uint8)
    requires OnePartition(ExecAll(IDLE, nodeId, steps).tasks, partition)
    ensures forall k :: 0 <= k < |ExecAll(IDLE, nodeId, steps).rows| ==>
              ExecAll(IDLE, nodeId, steps).rows[k].partition == partition
  {
    if steps != [] {
      var front, last := steps[..|steps| - 1], steps[|steps| - 1];
      var s := ExecAll(IDLE, nodeId, front);
      AlwaysSafe(nodeId, front);
      OnePartitionBefore(s, nodeId, last, partition);
      RowsOfOnePartition(nodeId, front, partition);
      StepKeepsPartition(s, nodeId, last, partition);
    }
  }

  lemma {:induction false} OnePartitionBefore(s: State, nodeId: string, step: Step, partition: uint8)
    requires OnePartition(Exec(s, nodeId, step).tasks, partition)
    ensures OnePartition(s.tasks, partition)
  {
    assert forall i :: 0 <= i < |s.tasks| ==> Exec(s, nodeId, step).tasks[i].op == s.tasks[i].op;
  }

  lemma {:induction false} StepKeepsPartition(s: State, nodeId: string, step: Step, partition: uint8)
    requires Safe(s) && OnePartition(s.tasks, partition)
    requires forall k :: 0 <= k < |s.rows| ==> s.rows[k].partition == partition
    ensures forall k :: 0 <= k < |Exec(s, nodeId, step).rows| ==> Exec(s, nodeId, step).rows[k].partition == partition
  {
    ExecKeepsSafe(s, nodeId, step);
    var after := Exec(s, nodeId, step);
    assert forall k :: 0 <= k < |s.rows| ==> KeyOf(after.rows[k]) == KeyOf(s.rows[k]);
  }

  /** The exact condition, for one partition number and no bare creations: once no creation is under
      way, keys are unique if and only if no operation decided to create a topic while another was
      creating it. */
  lemma {:induction false} KeysUniqueIffSingleDecisions(nodeId: string, steps: seq<Step>, partition: uint8)
    requires var tasks := ExecAll(IDLE, nodeId, steps).tasks;
             && AllGuarded(tasks) && OnePartition(tasks, partition)
             && forall topic: string :: NoneCreating(tasks, topic)
    ensures UniqueKeys(ExecAll(IDLE, nodeId, steps).rows) <==> SingleDecisions(nodeId, steps)
  {
    if SingleDecisions(nodeId, steps) {
      SingleDecisionsKeepKeysUnique(nodeId, steps);
    } else {
      var s := ExecAll(IDLE, nodeId, steps);
      var t := OverlapCounts(nodeId, steps);
      assert NoneCreating(s.tasks, t);
      FilterNone(s.tasks, AtStart(t));
      var i, j := TwoKept(s.rows, IsStart(t));
      RowsOfOnePartition(nodeId, steps, partition);
      AlwaysSane(nodeId, steps);
      assert KeyOf(s.rows[i]) == KeyOf(s.rows[j]);
    }
  }

  // ---------------------------------------------------------------------------------------
  // The guard is no lock
  // ---------------------------------------------------------------------------------------

  /** Two guarded creations of a topic without rows, both checking before either adds a row, add four
      rows; with one partition number the second end row is shadowed by the first. */
  lemma {:induction false} GuardedCreationsCollide(s: State, nodeId: string, i: nat, j: nat)
    requires i < |s.tasks| && j < |s.tasks| && i != j && Waiting(s.tasks[i]) && Waiting(s.tasks[j])
    requires s.tasks[i].op.GuardedCreation? && s.tasks[j].op.GuardedCreation?
    requires var t := s.tasks[i].op.topic; s.tasks[j].op.topic == t && View(s.rows, t) == []
    requires NarrowToUint8(s.tasks[i].op.partitionCount) == NarrowToUint8(s.tasks[j].op.partitionCount)
    ensures var checked := Exec(Exec(s, nodeId, Advance(i)), nodeId, Advance(j));
            var end := Twice(Twice(checked, nodeId, i), nodeId, j);
            && |end.tasks| == |s.tasks| && end.tasks[i].phase == end.tasks[j].phase == Finished(None)
            && Shadowed(end.rows, nodeId, s.tasks[i].op.topic, |s.rows| + 1, |s.rows| + 3)
  {
    var checked := Exec(Exec(s, nodeId, Advance(i)), nodeId, Advance(j));
    TwoAppends(checked, nodeId, i);
    var one := Twice(checked, nodeId, i);
    TwoAppends(one, nodeId, j);
    var end := Twice(one, nodeId, j);
    assert HasTopicNodeKind(s.tasks[i].op.topic, nodeId, END)(end.rows[|s.rows| + 1]);
  }

  /** A run from the empty ledger that leaves a topic with a shadowed end row in spite of both guards;
      every later allocation on it returns 1, by `DuplicateKeyFreezesCounter`. */
  lemma {:induction false} GuardFailsFromIdle(nodeId: string, first: Op, second: Op) returns (steps: seq<Step>)
    requires first.GuardedCreation? && second.GuardedCreation? && first.topic == second.topic
    requires NarrowToUint8(first.partitionCount) == NarrowToUint8(second.partitionCount)
    ensures var end := ExecAll(IDLE, nodeId, steps);
            && |end.tasks| == 2 && end.tasks[0].op == first && end.tasks[1].op == second
            && end.tasks[0].phase == end.tasks[1].phase == Finished(None)
            && Shadowed(end.rows, nodeId, first.topic, 1, 3)
  {
    var called := [Start(first)] + [Start(second)];
    ExecMore(nodeId, [], Start(first));
    ExecMore(nodeId, [Start(first)], Start(second));
    assert [] + [Start(first)] == [Start(first)];
    GuardedCreationsCollide(ExecAll(IDLE, nodeId, called), nodeId, 0, 1);
    var a0, a1 := Advance(0), Advance(1);
    ExecMore(nodeId, called, a0);
    ExecMore(nodeId, called + [a0], a1);
    ExecMore(nodeId, called + [a0] + [a1], a0);
    ExecMore(nodeId, called + [a0] + [a1] + [a0], a0);
    ExecMore(nodeId, called + [a0] + [a1] + [a0] + [a0], a1);
    ExecMore(nodeId, called + [a0] + [a1] + [a0] + [a0] + [a1], a1);
    steps := called + [a0] + [a1] + [a0] + [a0] + [a1] + [a1];
  }
}
