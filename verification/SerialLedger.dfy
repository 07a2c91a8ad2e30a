/** Runs in which one ledger operation finishes before the next starts. The row table then
    behaves as a map from topic to counter. */
module SerialLedger {
  import opened Numbers
  import opened Sequences
  import opened OffsetTables
  import opened TopicManagers

  /** `Creation` is a bare `createTopic`; `GuardedCreation` asks `checkTopicExists` first. */
  datatype Op =
    | Allocation(topic: string, partitionCount: int, now: uint64)
    | GuardedCreation(topic: string, partitionCount: int, now: uint64)
    | Creation(topic: string, partitionCount: int, now: uint64)

  function Apply(rows: seq<OffsetRow>, nodeId: string, op: Op): (seq<OffsetRow>, Option<uint128>) {
    match op
    case Allocation(topic, partitionCount, now) =>
      var (after, offset) := Allocate(rows, nodeId, topic, partitionCount, now);
      (after, Some(offset))
    case GuardedCreation(topic, partitionCount, now) =>
      if View(rows, topic) == [] then (rows + CreationRows(nodeId, topic, partitionCount, now), None) else (rows, None)
    case Creation(topic, partitionCount, now) =>
      (rows + CreationRows(nodeId, topic, partitionCount, now), None)
  }

  /** The table after the operations, starting from `rows`. */
  function RunFrom(rows: seq<OffsetRow>, nodeId: string, ops: seq<Op>): seq<OffsetRow> {
    if ops == [] then rows
    else Apply(RunFrom(rows, nodeId, ops[..|ops| - 1]), nodeId, ops[|ops| - 1]).0
  }

  /** The table after the operations, starting empty. */
  function Run(nodeId: string, ops: seq<Op>): seq<OffsetRow> {
    RunFrom([], nodeId, ops)
  }

  /** What operation `i` of a run from the empty table returned. */
  function Returned(nodeId: string, ops: seq<Op>, i: nat): Option<uint128>
    requires i < |ops|
  {
    Apply(Run(nodeId, ops[..i]), nodeId, ops[i]).1
  }

  ghost predicate Guarded(ops: seq<Op>) {
    forall i :: 0 <= i < |ops| ==> !ops[i].Creation?
  }

  /** No bare creation of this topic; other topics may have some. */
  ghost predicate GuardedOn(ops: seq<Op>, topic: string) {
    forall i :: 0 <= i < |ops| && ops[i].topic == topic ==> !ops[i].Creation?
  }

  // ---------------------------------------------------------------------------------------
  // The map of counters
  // ---------------------------------------------------------------------------------------

  datatype Counter = Counter(partition: uint8, createdAt: uint64, last: uint128)

  function Fresh(op: Op): Counter {
    Counter(NarrowToUint8(op.partitionCount), op.now, 0)
  }

  /** A counter comes to life at 0, and every later allocation adds one. */
  function Tick(m: map<string, Counter>, op: Op): map<string, Counter> {
    if op.topic !in m then m[op.topic := Fresh(op)]
    else if op.Allocation? then m[op.topic := m[op.topic].(last := Next(m[op.topic].last))]
    else m
  }

  function Answer(m: map<string, Counter>, op: Op): Option<uint128> {
    if op.Allocation? then Some(Tick(m, op)[op.topic].last) else None
  }

  function Counters(ops: seq<Op>): map<string, Counter> {
    if ops == [] then map[] else Tick(Counters(ops[..|ops| - 1]), ops[|ops| - 1])
  }

  /** The rows that stand for a topic's counter. */
  function RowsFor(nodeId: string, topic: string, m: map<string, Counter>): seq<OffsetRow> {
    if topic !in m then []
    else [StartRow(nodeId, topic, m[topic]), EndRow(nodeId, topic, m[topic])]
  }

  function StartRow(nodeId: string, topic: string, c: Counter): OffsetRow {
    OffsetRow(0, c.createdAt, topic, nodeId, c.partition, START)
  }

  function EndRow(nodeId: string, topic: string, c: Counter): OffsetRow {
    OffsetRow(c.last, c.createdAt, topic, nodeId, c.partition, END)
  }

  ghost predicate Represents(rows: seq<OffsetRow>, nodeId: string, m: map<string, Counter>) {
    forall topic: string :: View(rows, topic) == RowsFor(nodeId, topic, m)
  }

  // ---------------------------------------------------------------------------------------
  // One operation refines one tick
  // ---------------------------------------------------------------------------------------

  /** Appending the two creation rows changes the view of their own topic only. */
  lemma {:induction false} ViewAfterCreation(
    rows: seq<OffsetRow>, nodeId: string, topic: string, partitionCount: int, now: uint64, other: string)
    ensures View(rows + CreationRows(nodeId, topic, partitionCount, now), other)
         == View(rows, other) + if other == topic then CreationRows(nodeId, topic, partitionCount, now) else []
  {
    var two := CreationRows(nodeId, topic, partitionCount, now);
    FilterConcat(rows, two, HasTopic(other));
    assert two == [two[0]] + [two[1]];
    FilterConcat([two[0]], [two[1]], HasTopic(other));
  }

  /** The scan of a topic whose view is a start row and an end row of this node finds the end
      row and nothing else. */
  lemma {:induction false} ScanOfPair(rows: seq<OffsetRow>, nodeId: string, topic: string, s: OffsetRow, e: OffsetRow)
    requires View(rows, topic) == [s, e]
    requires s.kind == START && e.kind == END && s.nodeId == e.nodeId == nodeId
    ensures ScanResult(rows, topic, nodeId, END) == [e]
  {
    var strong := HasTopicNodeKind(topic, nodeId, END);
    forall k | 0 <= k < |rows| && rows[k].topic == topic ensures rows[k].nodeId == nodeId {
      InView(rows, topic, k);
    }
    ScanCharacterization(rows, topic, nodeId, END);
    forall x | x in rows ensures strong(x) == (HasTopic(topic)(x) && HasKind(END)(x)) {
      if HasTopic(topic)(x) {
        var k :| 0 <= k < |rows| && rows[k] == x;
        assert x.nodeId == nodeId;
      }
    }
    FilterTwice(rows, HasTopic(topic), HasKind(END), strong);
    assert |START| == 5 && |END| == 3;
    assert [s, e] == [s] + [e];
    FilterConcat([s], [e], HasKind(END));
  }

  /** A row of the topic is an element of the topic's view. */
  lemma {:induction false} InView(rows: seq<OffsetRow>, topic: string, k: nat)
    requires k < |rows| && rows[k].topic == topic
    ensures rows[k] in View(rows, topic)
  {
    FilterAround(rows, HasTopic(topic), k);
  }

  lemma {:induction false} ScanOfAbsent(rows: seq<OffsetRow>, nodeId: string, topic: string)
    requires View(rows, topic) == []
    ensures ScanResult(rows, topic, nodeId, END) == []
  {
    ViewIsEmptyIffAbsent(rows, topic);
  }

  /** Where the end row of a pair sits, and what overwriting it does to every view. */
  lemma {:induction false} OverwriteEnd(rows: seq<OffsetRow>, topic: string, s: OffsetRow, e: OffsetRow, e': OffsetRow)
    requires View(rows, topic) == [s, e]
    requires KeyOf(s) != KeyOf(e) && KeyOf(e') == KeyOf(e)
    ensures e.topic == topic
    ensures var i := IndexOfKey(rows, KeyOf(e));
            && 0 <= i < |rows|
            && rows[i] == e
            && View(rows[i := e'], topic) == [s, e']
            && forall other: string :: other != topic ==> View(rows[i := e'], other) == View(rows, other)
  {
    var p := HasTopic(topic);
    FilterMembers(rows, p, 1);
    var i := IndexOfKey(rows, KeyOf(e));
    InView(rows, topic, i);
    assert rows[i] == e;
    FilterAround(rows, p, i);
    FilterUpdated(rows, p, i, e');
    assert Filter(rows[..i], p) == [s] && Filter(rows[i + 1..], p) == [] by {
      SplitPair(Filter(rows[..i], p), Filter(rows[i + 1..], p), s, e);
    }
    forall other: string | other != topic ensures View(rows[i := e'], other) == View(rows, other) {
      FilterAround(rows, HasTopic(other), i);
      FilterUpdated(rows, HasTopic(other), i, e');
    }
  }

  lemma {:induction false} SplitPair<T>(a: seq<T>, b: seq<T>, s: T, e: T)
    requires a + [e] + b == [s, e] && s != e
    ensures a == [s] && b == []
  {
    assert |a| + 1 + |b| == 2;
    assert (a + [e] + b)[|a|] == e;
    assert |a| == 1;
    assert a[0] == (a + [e] + b)[0];
  }

  /** An operation leaves the rows of every other topic as they were. */
  lemma {:induction false} OtherTopicUntouched(rows: seq<OffsetRow>, nodeId: string, op: Op, other: string)
    requires op.topic != other
    ensures View(Apply(rows, nodeId, op).0, other) == View(rows, other)
  {
    ViewAfterCreation(rows, nodeId, op.topic, op.partitionCount, op.now, other);
    if op.Allocation? && ScanResult(rows, op.topic, nodeId, END) != [] {
      var j := ScanLast(rows, op.topic, nodeId, END);
      var row := Bumped(rows[j]);
      var i := IndexOfKey(rows, KeyOf(row));
      assert KeyOf(rows[j]) == KeyOf(row);
      FilterAround(rows, HasTopic(other), i);
      FilterUpdated(rows, HasTopic(other), i, row);
    }
  }

  /** When a topic's rows are those of its counter, one operation, on this topic or another, leaves
      them those of the counter after one tick; on this topic it returns the map's answer. */
  lemma {:induction false} StepRefines(
    rows: seq<OffsetRow>, nodeId: string, m: map<string, Counter>, op: Op, topic: string)
    requires View(rows, topic) == RowsFor(nodeId, topic, m)
    requires op.topic == topic ==> !op.Creation?
    ensures View(Apply(rows, nodeId, op).0, topic) == RowsFor(nodeId, topic, Tick(m, op))
    ensures op.topic == topic ==> Apply(rows, nodeId, op).1 == Answer(m, op)
  {
    if op.topic != topic {
      OtherTopicUntouched(rows, nodeId, op, topic);
    } else if topic !in m {
      ScanOfAbsent(rows, nodeId, topic);
      ViewAfterCreation(rows, nodeId, topic, op.partitionCount, op.now, topic);
    } else {
      var s, e := StartRow(nodeId, topic, m[topic]), EndRow(nodeId, topic, m[topic]);
      ScanOfPair(rows, nodeId, topic, s, e);
      OverwriteEnd(rows, topic, s, e, Bumped(e));
    }
  }

  /** After any run without a bare creation of the topic, its rows are those of its counter. */
  lemma {:induction false} TopicRefines(nodeId: string, ops: seq<Op>, topic: string)
    requires GuardedOn(ops, topic)
    ensures View(Run(nodeId, ops), topic) == RowsFor(nodeId, topic, Counters(ops))
  {
    if ops != [] {
      var front, last := ops[..|ops| - 1], ops[|ops| - 1];
      TopicRefines(nodeId, front, topic);
      StepRefines(Run(nodeId, front), nodeId, Counters(front), last, topic);
    }
  }

  /** Serial refinement: after any guarded run every topic's rows are the rows of its counter. */
  lemma {:induction false} RunRefines(nodeId: string, ops: seq<Op>)
    requires Guarded(ops)
    ensures Represents(Run(nodeId, ops), nodeId, Counters(ops))
  {
    forall topic: string ensures View(Run(nodeId, ops), topic) == RowsFor(nodeId, topic, Counters(ops)) {
      TopicRefines(nodeId, ops, topic);
    }
  }

  /** ... and every operation on such a topic returns what the map of counters answers. */
  lemma {:induction false} ReturnedIsAnswer(nodeId: string, ops: seq<Op>, i: nat)
    requires i < |ops| && GuardedOn(ops[..i + 1], ops[i].topic)
    ensures Returned(nodeId, ops, i) == Answer(Counters(ops[..i]), ops[i])
  {
    var t := ops[i].topic;
    assert ops[..i + 1][i] == ops[i];
    assert GuardedOn(ops[..i], t) by {
      assert forall k :: 0 <= k < i ==> ops[..i][k] == ops[..i + 1][k];
    }
    TopicRefines(nodeId, ops[..i], t);
    StepRefines(Run(nodeId, ops[..i]), nodeId, Counters(ops[..i]), ops[i], t);
  }

  // ---------------------------------------------------------------------------------------
  // Closed form
  // ---------------------------------------------------------------------------------------

  /** The number of allocations on a topic. */
  function Allocations(ops: seq<Op>, topic: string): nat {
    if ops == [] then 0
    else
      var last := ops[|ops| - 1];
      Allocations(ops[..|ops| - 1], topic) + if last.Allocation? && last.topic == topic then 1 else 0
  }

  /** Whether the first operation on the topic was a creation rather than an allocation. */
  predicate CreatedExplicitly(ops: seq<Op>, topic: string) {
    ops != [] && if ops[0].topic == topic then !ops[0].Allocation? else CreatedExplicitly(ops[1..], topic)
  }

  predicate Mentioned(ops: seq<Op>, topic: string) {
    exists i :: 0 <= i < |ops| && ops[i].topic == topic
  }

  /** How far the topic's counter has come: its allocations, and one more if it was created
      explicitly. */
  function Position(ops: seq<Op>, topic: string): nat {
    Allocations(ops, topic) + if CreatedExplicitly(ops, topic) then 1 else 0
  }

  lemma {:induction false} CreatedExplicitlySnoc(ops: seq<Op>, op: Op, topic: string)
    ensures CreatedExplicitly(ops + [op], topic) ==
            if Mentioned(ops, topic) then CreatedExplicitly(ops, topic) else op.topic == topic && !op.Allocation?
  {
    if ops == [] {
      assert (ops + [op]) == [op] && [op][1..] == [];
    } else {
      assert (ops + [op])[1..] == ops[1..] + [op];
      if ops[0].topic != topic {
        CreatedExplicitlySnoc(ops[1..], op, topic);
        assert Mentioned(ops, topic) <==> Mentioned(ops[1..], topic) by {
          if i :| 0 <= i < |ops| && ops[i].topic == topic {
            assert ops[1..][i - 1].topic == topic;
          }
          if i :| 0 <= i < |ops[1..]| && ops[1..][i].topic == topic {
            assert ops[i + 1].topic == topic;
          }
        }
      }
    }
  }

  /** A topic's counter depends only on how many allocations it had and on whether its first
      operation was a creation. */
  lemma {:induction false} CounterClosedForm(ops: seq<Op>, topic: string)
    ensures topic in Counters(ops) <==> Mentioned(ops, topic)
    ensures topic in Counters(ops) ==> Position(ops, topic) >= 1
    ensures topic in Counters(ops) ==> Counters(ops)[topic].last == (Position(ops, topic) - 1) % TWO_TO_THE_128
  {
    if ops != [] {
      var front, last := ops[..|ops| - 1], ops[|ops| - 1];
      assert ops == front + [last];
      CounterClosedForm(front, topic);
      CreatedExplicitlySnoc(front, last, topic);
      MentionedSnoc(front, last, topic);
      if !Mentioned(front, topic) {
        NoneMentioned(front, topic);
      } else if last.topic == topic && last.Allocation? {
        NextOfModulus(Position(front, topic) - 1);
      }
    }
  }

  lemma {:induction false} MentionedSnoc(front: seq<Op>, last: Op, topic: string)
    ensures Mentioned(front + [last], topic) <==> Mentioned(front, topic) || last.topic == topic
  {
    var ops := front + [last];
    if Mentioned(front, topic) {
      var i :| 0 <= i < |front| && front[i].topic == topic;
      assert ops[i].topic == topic;
    }
    if last.topic == topic {
      assert ops[|front|].topic == topic;
    }
  }

  lemma {:induction false} NoneMentioned(ops: seq<Op>, topic: string)
    requires !Mentioned(ops, topic)
    ensures Allocations(ops, topic) == 0 && !CreatedExplicitly(ops, topic)
    decreases |ops|
  {
    if ops != [] {
      var front := ops[..|ops| - 1];
      assert forall i :: 0 <= i < |front| ==> front[i] == ops[i];
      NoneMentioned(front, topic);
      assert ops == front + [ops[|ops| - 1]];
      CreatedExplicitlySnoc(front, ops[|ops| - 1], topic);
    }
  }

  lemma {:induction false} AnswerClosedForm(ops: seq<Op>, i: nat)
    requires i < |ops| && ops[i].Allocation?
    ensures Answer(Counters(ops[..i]), ops[i]) == Some(NumberFor(ops, i))
  {
    var upTo := ops[..i + 1];
    var t := ops[i].topic;
    assert upTo[..i] == ops[..i] && upTo[i] == ops[i];
    assert Counters(upTo) == Tick(Counters(ops[..i]), ops[i]);
    CounterClosedForm(upTo, t);
    ExplicitIsSettled(ops, i, t);
    assert Allocations(upTo, t) == Allocations(ops[..i], t) + 1;
  }

  /** The number that allocation `i` of a run should get. */
  function NumberFor(ops: seq<Op>, i: nat): uint128
    requires i < |ops|
  {
    (Allocations(ops[..i], ops[i].topic) + if CreatedExplicitly(ops, ops[i].topic) then 1 else 0) % TWO_TO_THE_128
  }

  /** The k-th allocation on a topic (k from 0) returns k when an allocation created the topic
      and k + 1 when a creation did, whatever happened to other topics, until 2^128 wraps. */
  lemma {:induction false} KthAllocation(nodeId: string, ops: seq<Op>, i: nat, k: nat)
    requires i < |ops| && ops[i].Allocation? && GuardedOn(ops[..i + 1], ops[i].topic)
    requires k == Allocations(ops[..i], ops[i].topic)
    ensures Returned(nodeId, ops, i)
         == Some(if CreatedExplicitly(ops, ops[i].topic) then (k + 1) % TWO_TO_THE_128 else k % TWO_TO_THE_128)
  {
    ReturnedIsAnswer(nodeId, ops, i);
    AnswerClosedForm(ops, i);
  }

  lemma {:induction false} ExplicitIsSettled(ops: seq<Op>, i: nat, topic: string)
    requires i < |ops| && ops[i].topic == topic
    ensures CreatedExplicitly(ops[..i + 1], topic) == CreatedExplicitly(ops, topic)
  {
    assert ops[..i + 1][0] == ops[0];
    if ops[0].topic != topic {
      assert ops[..i + 1][1..] == ops[1..][..i];
      ExplicitIsSettled(ops[1..], i - 1, topic);
    }
  }

  /** Two allocations on one topic, the a-th and the b-th, return the same number exactly when
      b - a is a multiple of 2^128; so up to 2^128 allocations give distinct values. */
  lemma {:induction false} EqualOnlyAfterWrap(nodeId: string, ops: seq<Op>, i: nat, j: nat, a: nat, b: nat)
    requires i < j < |ops| && GuardedOn(ops[..j + 1], ops[i].topic)
    requires ops[i].Allocation? && ops[j].Allocation? && ops[i].topic == ops[j].topic
    requires a == Allocations(ops[..i], ops[i].topic) && b == Allocations(ops[..j], ops[i].topic)
    ensures a < b
    ensures Returned(nodeId, ops, i) == Returned(nodeId, ops, j) <==> (b - a) % TWO_TO_THE_128 == 0
    ensures Allocations(ops, ops[i].topic) <= TWO_TO_THE_128 ==> Returned(nodeId, ops, i) != Returned(nodeId, ops, j)
  {
    assert ops[..i + 1] == ops[..j + 1][..i + 1];
    ReturnedNumbers(nodeId, ops, i, j);
    NumbersEqual(ops, i, j, a, b);
  }

  lemma {:induction false} NumbersEqual(ops: seq<Op>, i: nat, j: nat, a: nat, b: nat)
    requires i < j < |ops| && ops[i].Allocation? && ops[j].Allocation? && ops[i].topic == ops[j].topic
    requires a == Allocations(ops[..i], ops[i].topic) && b == Allocations(ops[..j], ops[i].topic)
    ensures a < b
    ensures NumberFor(ops, i) == NumberFor(ops, j) <==> (b - a) % TWO_TO_THE_128 == 0
    ensures Allocations(ops, ops[i].topic) <= TWO_TO_THE_128 ==> (b - a) % TWO_TO_THE_128 != 0
  {
    var t := ops[i].topic;
    AllocationsGrow(ops, t, i, j);
    AllocationsGrow(ops, t, j, |ops|);
    assert ops[..|ops|] == ops;
    WrapAround(a, b, if CreatedExplicitly(ops, t) then 1 else 0, Allocations(ops, t));
  }

  lemma {:induction false} ReturnedNumbers(nodeId: string, ops: seq<Op>, i: nat, j: nat)
    requires i < |ops| && j < |ops| && ops[i].Allocation? && ops[j].Allocation?
    requires GuardedOn(ops[..i + 1], ops[i].topic) && GuardedOn(ops[..j + 1], ops[j].topic)
    ensures Returned(nodeId, ops, i) == Returned(nodeId, ops, j) <==> NumberFor(ops, i) == NumberFor(ops, j)
  {
    ReturnedIsAnswer(nodeId, ops, i);
    AnswerClosedForm(ops, i);
    ReturnedIsAnswer(nodeId, ops, j);
    AnswerClosedForm(ops, j);
  }

  lemma {:induction false} WrapAround(a: nat, b: nat, d: nat, total: nat)
    requires a < b < total
    ensures (a + d) % TWO_TO_THE_128 == (b + d) % TWO_TO_THE_128 <==> (b - a) % TWO_TO_THE_128 == 0
    ensures total <= TWO_TO_THE_128 ==> (b - a) % TWO_TO_THE_128 != 0
  {
    EqualRemainders(a + d, b + d, TWO_TO_THE_128);
    if b - a < TWO_TO_THE_128 {
      RemainderUnique(b - a, 0, b - a, TWO_TO_THE_128);
    }
  }

  lemma {:induction false} AllocationsGrow(ops: seq<Op>, topic: string, i: nat, j: nat)
    requires i < j <= |ops| && ops[i].Allocation? && ops[i].topic == topic
    ensures Allocations(ops[..j], topic) >= Allocations(ops[..i], topic) + 1
    decreases j
  {
    assert ops[..j][..j - 1] == ops[..j - 1];
    if i < j - 1 {
      AllocationsGrow(ops, topic, i, j - 1);
    }
  }

  /** Where the allocation number `o` of a topic stands. */
  lemma {:induction false} NthAllocation(ops: seq<Op>, topic: string, o: nat) returns (k: nat)
    requires o < Allocations(ops, topic)
    ensures k < |ops| && ops[k].Allocation? && ops[k].topic == topic && Allocations(ops[..k], topic) == o
  {
    var front := ops[..|ops| - 1];
    if o < Allocations(front, topic) {
      k := NthAllocation(front, topic, o);
      assert front[..k] == ops[..k];
    } else {
      k := |ops| - 1;
    }
  }
}
