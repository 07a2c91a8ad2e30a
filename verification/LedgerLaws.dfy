/** What the row table keeps over serial runs: unique keys, one row touched by an allocation,
    conservation of allocations; and what goes wrong once a key is duplicated. */
module LedgerLaws {
  import opened Numbers
  import opened Sequences
  import opened OffsetTables
  import opened TopicManagers
  import opened SerialLedger

  // ---------------------------------------------------------------------------------------
  // Keys stay unique, so the overwrite hits the row that was scanned
  // ---------------------------------------------------------------------------------------

  lemma {:induction false} RepresentedKeysAreUnique(rows: seq<OffsetRow>, nodeId: string, m: map<string, Counter>)
    requires Represents(rows, nodeId, m)
    ensures UniqueKeys(rows)
  {
    forall i, j | 0 <= i < j < |rows| ensures KeyOf(rows[i]) != KeyOf(rows[j]) {
      var t := rows[i].topic;
      if rows[j].topic == t {
        var x, y := TwoInView(rows, t, i, j);
        assert View(rows, t) == RowsFor(nodeId, t, m);
        assert |START| != |END|;
      }
    }
  }

  /** Two rows of a topic sit in its view in the same order. */
  lemma {:induction false} TwoInView(rows: seq<OffsetRow>, topic: string, i: nat, j: nat) returns (x: nat, y: nat)
    requires i < j < |rows| && rows[i].topic == topic && rows[j].topic == topic
    ensures x < y < |View(rows, topic)|
    ensures View(rows, topic)[x] == rows[i] && View(rows, topic)[y] == rows[j]
  {
    var p := HasTopic(topic);
    FilterAround(rows, p, j);
    FilterAround(rows[..j], p, i);
    x, y := |Filter(rows[..j][..i], p)|, |Filter(rows[..j], p)|;
  }

  /** Guarded creation and allocation keep keys unique over every serial run. */
  lemma {:induction false} KeysStayUnique(nodeId: string, ops: seq<Op>)
    requires Guarded(ops)
    ensures UniqueKeys(Run(nodeId, ops))
  {
    RunRefines(nodeId, ops);
    RepresentedKeysAreUnique(Run(nodeId, ops), nodeId, Counters(ops));
  }

  /** After any guarded run an allocation on an existing topic replaces exactly the last end row
      of the topic, the one its scan read. */
  lemma {:induction false} AllocationBumpsScannedRow(
    nodeId: string, ops: seq<Op>, topic: string, partitionCount: int, now: uint64) returns (index: nat)
    requires Guarded(ops) && Mentioned(ops, topic)
    ensures var rows := Run(nodeId, ops);
            && index < |rows|
            && rows[index].topic == topic && rows[index].kind == END
            && (forall k :: index < k < |rows| ==> !(rows[k].topic == topic && rows[k].kind == END))
            && Allocate(rows, nodeId, topic, partitionCount, now)
            == (rows[index := Bumped(rows[index])], Next(rows[index].offset))
  {
    var rows := Run(nodeId, ops);
    RunRefines(nodeId, ops);
    CounterClosedForm(ops, topic);
    assert View(rows, topic) == RowsFor(nodeId, topic, Counters(ops));
    var c := Counters(ops)[topic];
    ScanOfPair(rows, nodeId, topic, StartRow(nodeId, topic, c), EndRow(nodeId, topic, c));
    KeysStayUnique(nodeId, ops);
    RescanFindsScannedRow(rows, topic, nodeId, END);
    var last := ScanResult(rows, topic, nodeId, END)[0];
    index := IndexOfKey(rows, KeyOf(last));
  }

  /** After any guarded run a topic has no row, or its start row at 0 and then its end row, at one
      less than its position. */
  lemma {:induction false} TopicShape(nodeId: string, ops: seq<Op>, topic: string)
    requires Guarded(ops)
    ensures !Mentioned(ops, topic) ==> View(Run(nodeId, ops), topic) == []
    ensures Mentioned(ops, topic) ==>
              var view := View(Run(nodeId, ops), topic);
              && |view| == 2
              && view[0].kind == START && view[0].offset == 0
              && Position(ops, topic) >= 1
              && view[1].kind == END && view[1].offset == (Position(ops, topic) - 1) % TWO_TO_THE_128
  {
    RunRefines(nodeId, ops);
    CounterClosedForm(ops, topic);
    assert View(Run(nodeId, ops), topic) == RowsFor(nodeId, topic, Counters(ops));
  }

  // ---------------------------------------------------------------------------------------
  // One node per run, so dropping the node from the resumed search is harmless
  // ---------------------------------------------------------------------------------------

  ghost predicate OneNode(rows: seq<OffsetRow>, nodeId: string) {
    forall k :: 0 <= k < |rows| ==> rows[k].nodeId == nodeId
  }

  lemma {:induction false} ApplyKeepsOneNode(rows: seq<OffsetRow>, nodeId: string, op: Op)
    requires OneNode(rows, nodeId)
    ensures OneNode(Apply(rows, nodeId, op).0, nodeId)
  {
    if op.Allocation? {
      var found := ScanResult(rows, op.topic, nodeId, END);
      if found != [] {
        var j := ScanLast(rows, op.topic, nodeId, END);
      }
    }
  }

  /** On every table reached with one node, by guarded or bare creation alike, the resuming
      search returns exactly the rows of the topic, node and kind. */
  lemma {:induction false} ScanIsPlainFilter(nodeId: string, ops: seq<Op>, topic: string, kind: string)
    ensures OneNode(Run(nodeId, ops), nodeId)
    ensures ScanResult(Run(nodeId, ops), topic, nodeId, kind)
         == Filter(Run(nodeId, ops), HasTopicNodeKind(topic, nodeId, kind))
  {
    if ops != [] {
      ScanIsPlainFilter(nodeId, ops[..|ops| - 1], topic, kind);
      ApplyKeepsOneNode(Run(nodeId, ops[..|ops| - 1]), nodeId, ops[|ops| - 1]);
    }
    ScanCharacterization(Run(nodeId, ops), topic, nodeId, kind);
  }

  // ---------------------------------------------------------------------------------------
  // A duplicated key freezes the counter
  // ---------------------------------------------------------------------------------------

  /** Row `j` is the topic's last end row, and the earlier row `i` has the same key. */
  ghost predicate Shadowed(rows: seq<OffsetRow>, nodeId: string, topic: string, i: nat, j: nat) {
    && i < j < |rows|
    && KeyOf(rows[i]) == KeyOf(rows[j])
    && rows[j].topic == topic && rows[j].kind == END
    && (forall k :: j < k < |rows| ==> !(rows[k].topic == topic && rows[k].kind == END))
    && exists k :: 0 <= k < |rows| && HasTopicNodeKind(topic, nodeId, END)(rows[k])
  }

  lemma {:induction false} ScanNonEmpty(rows: seq<OffsetRow>, nodeId: string, topic: string, j: nat)
    requires j < |rows| && rows[j].topic == topic && rows[j].kind == END
    requires forall k :: j < k < |rows| ==> !(rows[k].topic == topic && rows[k].kind == END)
    requires exists k :: 0 <= k < |rows| && HasTopicNodeKind(topic, nodeId, END)(rows[k])
    ensures var scan := ScanResult(rows, topic, nodeId, END); scan != [] && scan[|scan| - 1] == rows[j]
  {
    var k :| 0 <= k < |rows| && HasTopicNodeKind(topic, nodeId, END)(rows[k]);
    assert FirstMatch(rows, topic, nodeId, END) <= k;
    var j' := ScanLast(rows, topic, nodeId, END);
    assert j == j';
  }

  lemma {:induction false} ShadowUnderOverwrite(
    rows: seq<OffsetRow>, nodeId: string, topic: string, i: nat, j: nat, index: nat, row: OffsetRow)
    requires Shadowed(rows, nodeId, topic, i, j)
    requires index < |rows| && index != j && KeyOf(row) == KeyOf(rows[index])
    ensures Shadowed(rows[index := row], nodeId, topic, i, j)
  {
    var after := rows[index := row];
    assert forall n :: 0 <= n < |rows| ==> KeyOf(after[n]) == KeyOf(rows[n]);
    var k :| 0 <= k < |rows| && HasTopicNodeKind(topic, nodeId, END)(rows[k]);
    assert HasTopicNodeKind(topic, nodeId, END)(after[k]);
    forall n | j < n < |after| ensures !(after[n].topic == topic && after[n].kind == END) {
      assert KeyOf(after[n]) == KeyOf(rows[n]);
    }
  }

  lemma {:induction false} ShadowUnderAppend(
    rows: seq<OffsetRow>, nodeId: string, topic: string, i: nat, j: nat, more: seq<OffsetRow>)
    requires Shadowed(rows, nodeId, topic, i, j)
    requires forall n :: 0 <= n < |more| ==> more[n].topic != topic
    ensures Shadowed(rows + more, nodeId, topic, i, j)
  {
    var k :| 0 <= k < |rows| && HasTopicNodeKind(topic, nodeId, END)(rows[k]);
    assert HasTopicNodeKind(topic, nodeId, END)((rows + more)[k]);
  }

  /** Where an allocation that finds rows writes. */
  lemma {:induction false} AllocationWrites(
    rows: seq<OffsetRow>, nodeId: string, topic: string, partitionCount: int, now: uint64)
    returns (last: nat, index: nat)
    requires ScanResult(rows, topic, nodeId, END) != []
    ensures index <= last < |rows| && rows[last].topic == topic && rows[last].kind == END
    ensures forall k :: last < k < |rows| ==> !(rows[k].topic == topic && rows[k].kind == END)
    ensures KeyOf(rows[index]) == KeyOf(rows[last])
    ensures forall k :: 0 <= k < index ==> KeyOf(rows[k]) != KeyOf(rows[last])
    ensures Allocate(rows, nodeId, topic, partitionCount, now)
         == (rows[index := Bumped(rows[last])], Next(rows[last].offset))
  {
    last := ScanLast(rows, topic, nodeId, END);
    assert KeyOf(Bumped(rows[last])) == KeyOf(rows[last]);
    index := IndexOfKey(rows, KeyOf(rows[last]));
  }

  /** A shadowed topic returns the successor of row `j`, and any operation but a bare creation of
      that topic leaves row `j` and its shadow as they were. */
  lemma {:induction false} ShadowPersists(rows: seq<OffsetRow>, nodeId: string, topic: string, i: nat, j: nat, op: Op)
    requires Shadowed(rows, nodeId, topic, i, j)
    requires !(op.Creation? && op.topic == topic)
    ensures var (after, answer) := Apply(rows, nodeId, op);
            && Shadowed(after, nodeId, topic, i, j)
            && after[j] == rows[j]
            && (op.Allocation? && op.topic == topic ==> answer == Some(Next(rows[j].offset)))
  {
    ScanNonEmpty(rows, nodeId, topic, j);
    if op.Allocation? && ScanResult(rows, op.topic, nodeId, END) != [] {
      var last, index := AllocationWrites(rows, nodeId, op.topic, op.partitionCount, op.now);
      if op.topic == topic {
        assert last == j;
      }
      ShadowUnderOverwrite(rows, nodeId, topic, i, j, index, Bumped(rows[last]));
    } else if op.topic != topic {
      ShadowUnderAppend(rows, nodeId, topic, i, j, CreationRows(nodeId, op.topic, op.partitionCount, op.now));
    } else {
      ViewIsEmptyIffAbsent(rows, topic);
    }
  }

  /** Uniqueness is necessary: once the topic's last end row shares its key with an earlier row,
      every allocation on the topic returns the same number, whatever else runs, until a bare
      creation adds rows for the topic. */
  lemma {:induction false} DuplicateKeyFreezesCounter(
    rows: seq<OffsetRow>, nodeId: string, topic: string, i: nat, j: nat, ops: seq<Op>, n: nat)
    requires Shadowed(rows, nodeId, topic, i, j)
    requires forall k :: 0 <= k < |ops| ==> !(ops[k].Creation? && ops[k].topic == topic)
    requires n < |ops| && ops[n] == Allocation(topic, ops[n].partitionCount, ops[n].now)
    ensures Apply(RunFrom(rows, nodeId, ops[..n]), nodeId, ops[n]).1 == Some(Next(rows[j].offset))
  {
    ShadowOverRun(rows, nodeId, topic, i, j, ops[..n]);
    ShadowPersists(RunFrom(rows, nodeId, ops[..n]), nodeId, topic, i, j, ops[n]);
  }

  lemma {:induction false} ShadowOverRun(
    rows: seq<OffsetRow>, nodeId: string, topic: string, i: nat, j: nat, ops: seq<Op>)
    requires Shadowed(rows, nodeId, topic, i, j)
    requires forall k :: 0 <= k < |ops| ==> !(ops[k].Creation? && ops[k].topic == topic)
    ensures Shadowed(RunFrom(rows, nodeId, ops), nodeId, topic, i, j)
    ensures RunFrom(rows, nodeId, ops)[j] == rows[j]
    decreases |ops|
  {
    if ops != [] {
      var front := ops[..|ops| - 1];
      ShadowOverRun(rows, nodeId, topic, i, j, front);
      ShadowPersists(RunFrom(rows, nodeId, front), nodeId, topic, i, j, ops[|ops| - 1]);
    }
  }

  /** On any table whose scan finds something, two allocations in a row return consecutive numbers
      if and only if no earlier row has the key of the topic's last end row; otherwise they return
      the same number. */
  lemma {:induction false} AdvancesIffUnshadowed(
    rows: seq<OffsetRow>, nodeId: string, topic: string, partitionCount: int, now: uint64, j: nat)
    requires j < |rows| && rows[j].topic == topic && rows[j].kind == END
    requires forall k :: j < k < |rows| ==> !(rows[k].topic == topic && rows[k].kind == END)
    requires exists k :: 0 <= k < |rows| && HasTopicNodeKind(topic, nodeId, END)(rows[k])
    ensures var (after, a) := Allocate(rows, nodeId, topic, partitionCount, now);
            var b := Allocate(after, nodeId, topic, partitionCount, now).1;
            && (b == Next(a) <==> forall i :: 0 <= i < j ==> KeyOf(rows[i]) != KeyOf(rows[j]))
            && (b == a <==> exists i :: 0 <= i < j && KeyOf(rows[i]) == KeyOf(rows[j]))
  {
    ScanNonEmpty(rows, nodeId, topic, j);
    var after := Allocate(rows, nodeId, topic, partitionCount, now).0;
    var last, index := AllocationWrites(rows, nodeId, topic, partitionCount, now);
    assert last == j;
    NextDiffers(rows[j].offset);
    NextDiffers(Next(rows[j].offset));
    if index < j {
      var op := Allocation(topic, partitionCount, now);
      ShadowPersists(rows, nodeId, topic, index, j, op);
      ShadowPersists(after, nodeId, topic, index, j, op);
      assert Allocate(after, nodeId, topic, partitionCount, now).1 == Next(rows[j].offset);
    } else {
      SecondAllocation(rows, nodeId, topic, partitionCount, now, j);
    }
  }

  lemma {:induction false} NextDiffers(offset: uint128)
    ensures Next(offset) != offset
  {
  }

  lemma {:induction false} SecondAllocation(
    rows: seq<OffsetRow>, nodeId: string, topic: string, partitionCount: int, now: uint64, j: nat)
    requires j < |rows| && rows[j].topic == topic && rows[j].kind == END
    requires forall k :: j < k < |rows| ==> !(rows[k].topic == topic && rows[k].kind == END)
    requires exists k :: 0 <= k < |rows| && HasTopicNodeKind(topic, nodeId, END)(rows[k])
    ensures Allocate(rows[j := Bumped(rows[j])], nodeId, topic, partitionCount, now).1 == Next(Next(rows[j].offset))
  {
    var after := rows[j := Bumped(rows[j])];
    var k :| 0 <= k < |rows| && HasTopicNodeKind(topic, nodeId, END)(rows[k]);
    assert HasTopicNodeKind(topic, nodeId, END)(after[k]);
    ScanNonEmpty(after, nodeId, topic, j);
  }

  // ---------------------------------------------------------------------------------------
  // Creating a topic that exists
  // ---------------------------------------------------------------------------------------

  /** Some end row of the topic has this partition number. */
  predicate HasPartition(rows: seq<OffsetRow>, topic: string, partition: uint8) {
    exists k :: 0 <= k < |rows| && rows[k].topic == topic && rows[k].kind == END && rows[k].partition == partition
  }

  /** After any run at all, a bare creation leaves an earlier row with the key of the topic's new end
      row if and only if an end row of the topic already had the partition number. */
  lemma {:induction false} CreationShadowsIff(nodeId: string, ops: seq<Op>, creation: Op)
    requires creation.Creation?
    ensures var rows, t := Run(nodeId, ops), creation.topic;
            var after := Apply(rows, nodeId, creation).0;
            var j := |rows| + 1;
            && |after| == j + 1 && after[j] == EndRow(nodeId, t, Fresh(creation))
            && ((exists i :: Shadowed(after, nodeId, t, i, j)) <==>
                HasPartition(rows, t, NarrowToUint8(creation.partitionCount)))
            && ((exists i :: 0 <= i < j && KeyOf(after[i]) == KeyOf(after[j])) <==>
                HasPartition(rows, t, NarrowToUint8(creation.partitionCount)))
  {
    var rows, t := Run(nodeId, ops), creation.topic;
    var after := Apply(rows, nodeId, creation).0;
    var j := |rows| + 1;
    ScanIsPlainFilter(nodeId, ops, t, END);
    assert HasTopicNodeKind(t, nodeId, END)(after[j]);
    assert |START| != |END|;
    if HasPartition(rows, t, NarrowToUint8(creation.partitionCount)) {
      var i :| 0 <= i < |rows| && rows[i].topic == t && rows[i].kind == END
               && rows[i].partition == NarrowToUint8(creation.partitionCount);
      assert KeyOf(after[i]) == KeyOf(after[j]);
      assert Shadowed(after, nodeId, t, i, j);
    }
    if i :| 0 <= i < j && KeyOf(after[i]) == KeyOf(after[j]) {
      assert i != |rows|;
      assert rows[i] == after[i];
    }
  }

  /** So two allocations in a row after a bare creation repeat a number exactly when the topic had
      an end row of that partition number, which the caller can look up, and otherwise count on. */
  lemma {:induction false} RecreationRepeatsIff(nodeId: string, ops: seq<Op>, creation: Op, count: int, now: uint64)
    requires creation.Creation?
    ensures var rows := Run(nodeId, ops);
            var had := HasPartition(rows, creation.topic, NarrowToUint8(creation.partitionCount));
            var (after, a) := Allocate(Apply(rows, nodeId, creation).0, nodeId, creation.topic, count, now);
            var b := Allocate(after, nodeId, creation.topic, count, now).1;
            && (b == a <==> had)
            && (b == Next(a) <==> !had)
  {
    var rows, t := Run(nodeId, ops), creation.topic;
    var created := Apply(rows, nodeId, creation).0;
    var j := |rows| + 1;
    CreationShadowsIff(nodeId, ops, creation);
    assert HasTopicNodeKind(t, nodeId, END)(created[j]);
    AdvancesIffUnshadowed(created, nodeId, t, count, now, j);
  }

  lemma {:induction false} RunSplit(nodeId: string, first: seq<Op>, more: seq<Op>)
    ensures Run(nodeId, first + more) == RunFrom(Run(nodeId, first), nodeId, more)
    decreases |more|
  {
    if more == [] {
      assert first + more == first;
    } else {
      assert (first + more)[..|first + more| - 1] == first + more[..|more| - 1];
      RunSplit(nodeId, first, more[..|more| - 1]);
    }
  }

  /** Created again with a partition number it had, after any run, a topic is stuck: every later
      allocation on it returns 1, until it is created once more. */
  lemma {:induction false} RecreatedTopicIsStuck(nodeId: string, ops: seq<Op>, creation: Op, more: seq<Op>, n: nat)
    requires creation.Creation?
    requires HasPartition(Run(nodeId, ops), creation.topic, NarrowToUint8(creation.partitionCount))
    requires forall k :: 0 <= k < |more| ==> !(more[k].Creation? && more[k].topic == creation.topic)
    requires n < |more| && more[n].Allocation? && more[n].topic == creation.topic
    ensures Returned(nodeId, ops + [creation] + more, |ops| + 1 + n) == Some(1)
  {
    var created := Apply(Run(nodeId, ops), nodeId, creation).0;
    CreationShadowsIff(nodeId, ops, creation);
    var i :| Shadowed(created, nodeId, creation.topic, i, |created| - 1);
    ReturnedAfter(nodeId, ops, creation, more, n);
    DuplicateKeyFreezesCounter(created, nodeId, creation.topic, i, |created| - 1, more, n);
  }

  lemma {:induction false} ReturnedAfter(nodeId: string, ops: seq<Op>, creation: Op, more: seq<Op>, n: nat)
    requires n < |more|
    ensures Returned(nodeId, ops + [creation] + more, |ops| + 1 + n)
         == Apply(RunFrom(Apply(Run(nodeId, ops), nodeId, creation).0, nodeId, more[..n]), nodeId, more[n]).1
  {
    assert (ops + [creation])[..|ops|] == ops;
    assert (ops + [creation] + more)[..|ops| + 1 + n] == (ops + [creation]) + more[..n];
    RunSplit(nodeId, ops + [creation], more[..n]);
  }

  // ---------------------------------------------------------------------------------------
  // Conservation
  // ---------------------------------------------------------------------------------------

  /** The sum of the offsets of all end rows. */
  function SumOfEnds(rows: seq<OffsetRow>): nat {
    if rows == [] then 0 else (if rows[0].kind == END then rows[0].offset else 0) + SumOfEnds(rows[1..])
  }

  lemma {:induction false} SumConcat(a: seq<OffsetRow>, b: seq<OffsetRow>)
    ensures SumOfEnds(a + b) == SumOfEnds(a) + SumOfEnds(b)
  {
    if a == [] {
      assert a + b == b;
    } else {
      assert (a + b)[1..] == a[1..] + b;
      SumConcat(a[1..], b);
    }
  }

  lemma {:induction false} SumUpdated(rows: seq<OffsetRow>, i: nat, row: OffsetRow)
    requires i < |rows| && rows[i].kind == END && row.kind == END
    ensures SumOfEnds(rows[i := row]) == SumOfEnds(rows) - rows[i].offset + row.offset
  {
    var before, after := rows[..i], rows[i + 1..];
    assert rows == before + ([rows[i]] + after);
    assert rows[i := row] == before + ([row] + after);
    SumConcat(before, [rows[i]] + after);
    SumConcat(before, [row] + after);
    SumConcat([rows[i]], after);
    SumConcat([row], after);
  }

  function TotalAllocations(ops: seq<Op>): nat {
    if ops == [] then 0
    else TotalAllocations(ops[..|ops| - 1]) + if ops[|ops| - 1].Allocation? then 1 else 0
  }

  /** The number of topics that an allocation brought to life. */
  function AutoCreated(ops: seq<Op>): nat {
    if ops == [] then 0
    else
      var front, last := ops[..|ops| - 1], ops[|ops| - 1];
      AutoCreated(front) + if last.Allocation? && !Mentioned(front, last.topic) then 1 else 0
  }

  /** Across all topics the end offsets and the auto-created topics account for every allocation,
      up to 2^128 for each time some counter wrapped. */
  lemma {:induction false} Conservation(nodeId: string, ops: seq<Op>) returns (wraps: nat)
    requires Guarded(ops)
    ensures SumOfEnds(Run(nodeId, ops)) + AutoCreated(ops) + wraps * TWO_TO_THE_128 == TotalAllocations(ops)
    ensures TotalAllocations(ops) < TWO_TO_THE_128 ==> wraps == 0
  {
    wraps := 0;
    if ops != [] {
      var front, last := ops[..|ops| - 1], ops[|ops| - 1];
      wraps := Conservation(nodeId, front);
      var delta := StepConserves(nodeId, front, last);
      wraps := wraps + delta;
    }
  }

  lemma {:induction false} StepConserves(nodeId: string, front: seq<Op>, op: Op) returns (wrapped: nat)
    requires Guarded(front) && !op.Creation?
    ensures SumOfEnds(Apply(Run(nodeId, front), nodeId, op).0) + wrapped * TWO_TO_THE_128
         == SumOfEnds(Run(nodeId, front)) + if op.Allocation? && Mentioned(front, op.topic) then 1 else 0
  {
    var rows := Run(nodeId, front);
    PresentIffMentioned(nodeId, front, op.topic);
    CreationAddsNothing(rows, nodeId, op.topic, op.partitionCount, op.now);
    if op.Allocation? && Mentioned(front, op.topic) {
      var index := AllocationBumpsScannedRow(nodeId, front, op.topic, op.partitionCount, op.now);
      wrapped := BumpAddsOne(rows, index);
    } else {
      wrapped := 0;
    }
  }

  lemma {:induction false} CreationAddsNothing(
    rows: seq<OffsetRow>, nodeId: string, topic: string, partitionCount: int, now: uint64)
    ensures SumOfEnds(rows + CreationRows(nodeId, topic, partitionCount, now)) == SumOfEnds(rows)
  {
    var two := CreationRows(nodeId, topic, partitionCount, now);
    SumConcat(rows, two);
    assert two == [two[0]] + [two[1]];
    SumConcat([two[0]], [two[1]]);
  }

  lemma {:induction false} BumpAddsOne(rows: seq<OffsetRow>, index: nat) returns (wrapped: nat)
    requires index < |rows| && rows[index].kind == END
    ensures SumOfEnds(rows[index := Bumped(rows[index])]) + wrapped * TWO_TO_THE_128 == SumOfEnds(rows) + 1
  {
    SumUpdated(rows, index, Bumped(rows[index]));
    wrapped := if rows[index].offset + 1 == TWO_TO_THE_128 then 1 else 0;
  }

  /** A topic has rows, and its scan finds something, exactly when an operation named it. */
  lemma {:induction false} PresentIffMentioned(nodeId: string, ops: seq<Op>, topic: string)
    requires Guarded(ops)
    ensures View(Run(nodeId, ops), topic) != [] <==> Mentioned(ops, topic)
    ensures ScanResult(Run(nodeId, ops), topic, nodeId, END) != [] <==> Mentioned(ops, topic)
  {
    var rows, m := Run(nodeId, ops), Counters(ops);
    RunRefines(nodeId, ops);
    CounterClosedForm(ops, topic);
    assert View(rows, topic) == RowsFor(nodeId, topic, m);
    if topic in m {
      ScanOfPair(rows, nodeId, topic, StartRow(nodeId, topic, m[topic]), EndRow(nodeId, topic, m[topic]));
    } else {
      ScanOfAbsent(rows, nodeId, topic);
    }
  }
}
