/** Bare creations of topics that exist: exactly when the numbers handed out on a topic stay distinct
    (managers/topic_manager.cpp). */
module Recreations {
  import opened Numbers
  import opened OffsetTables
  import opened TopicManagers
  import opened SerialLedger
  import opened LedgerLaws

  // ---------------------------------------------------------------------------------------
  // What an allocation does to the last end row
  // ---------------------------------------------------------------------------------------

  /** Row `j` is the topic's last end row, and the scan finds it. */
  ghost predicate LastEndAt(rows: seq<OffsetRow>, nodeId: string, topic: string, j: nat) {
    && j < |rows| && rows[j].topic == topic && rows[j].kind == END
    && (forall k :: j < k < |rows| ==> !(rows[k].topic == topic && rows[k].kind == END))
    && exists k :: 0 <= k < |rows| && HasTopicNodeKind(topic, nodeId, END)(rows[k])
  }

  /** An earlier row has the key of row `j`. */
  predicate Hidden(rows: seq<OffsetRow>, j: nat)
    requires j < |rows|
  {
    exists i :: 0 <= i < j && KeyOf(rows[i]) == KeyOf(rows[j])
  }

  predicate AllocatesOn(op: Op, topic: string) {
    op.Allocation? && op.topic == topic
  }

  predicate Recreates(op: Op, topic: string) {
    op.Creation? && op.topic == topic
  }

  lemma {:induction false} OverwriteKeepsLastEnd(
    rows: seq<OffsetRow>, nodeId: string, topic: string, j: nat, index: nat, row: OffsetRow)
    requires LastEndAt(rows, nodeId, topic, j) && index < |rows| && KeyOf(row) == KeyOf(rows[index])
    ensures LastEndAt(rows[index := row], nodeId, topic, j)
    ensures Hidden(rows[index := row], j) == Hidden(rows, j)
  {
    var after := rows[index := row];
    assert forall n :: 0 <= n < |rows| ==> KeyOf(after[n]) == KeyOf(rows[n]);
    var k :| 0 <= k < |rows| && HasTopicNodeKind(topic, nodeId, END)(rows[k]);
    assert HasTopicNodeKind(topic, nodeId, END)(after[k]);
    forall n | j < n < |after| ensures !(after[n].topic == topic && after[n].kind == END) {
      assert KeyOf(after[n]) == KeyOf(rows[n]);
    }
  }

  lemma {:induction false} AppendKeepsLastEnd(
    rows: seq<OffsetRow>, nodeId: string, topic: string, j: nat, more: seq<OffsetRow>)
    requires LastEndAt(rows, nodeId, topic, j)
    requires forall n :: 0 <= n < |more| ==> more[n].topic != topic
    ensures LastEndAt(rows + more, nodeId, topic, j)
    ensures Hidden(rows + more, j) == Hidden(rows, j)
  {
    var longer := rows + more;
    assert forall n :: 0 <= n < |rows| ==> longer[n] == rows[n];
    var k :| 0 <= k < |rows| && HasTopicNodeKind(topic, nodeId, END)(rows[k]);
    assert HasTopicNodeKind(topic, nodeId, END)(longer[k]);
  }

  /** Any operation but a bare creation of the topic leaves the last end row in its place, hidden or
      not as it was; an allocation on the topic returns its successor, and advances it unless it is
      hidden. */
  lemma {:induction false} LastEndStep(rows: seq<OffsetRow>, nodeId: string, topic: string, j: nat, op: Op)
    requires LastEndAt(rows, nodeId, topic, j) && !Recreates(op, topic)
    ensures var (after, answer) := Apply(rows, nodeId, op);
            && LastEndAt(after, nodeId, topic, j)
            && Hidden(after, j) == Hidden(rows, j)
            && after[j] == (if AllocatesOn(op, topic) && !Hidden(rows, j) then Bumped(rows[j]) else rows[j])
            && (AllocatesOn(op, topic) ==> answer == Some(Next(rows[j].offset)))
  {
    ScanNonEmpty(rows, nodeId, topic, j);
    if op.Allocation? && ScanResult(rows, op.topic, nodeId, END) != [] {
      var last, index := AllocationWrites(rows, nodeId, op.topic, op.partitionCount, op.now);
      OverwriteKeepsLastEnd(rows, nodeId, topic, j, index, Bumped(rows[last]));
      if op.topic == topic {
        assert last == j;
        assert Hidden(rows, j) <==> index < j;
      }
    } else if op.topic != topic {
      AppendKeepsLastEnd(rows, nodeId, topic, j, CreationRows(nodeId, op.topic, op.partitionCount, op.now));
    } else {
      ViewIsEmptyIffAbsent(rows, topic);
    }
  }

  /** Over a run without a bare creation of the topic the last end row advances once for every
      allocation, or never if it is hidden. */
  lemma {:induction false} LastEndRun(rows: seq<OffsetRow>, nodeId: string, topic: string, j: nat, ops: seq<Op>)
    requires LastEndAt(rows, nodeId, topic, j) && rows[j].offset + Allocations(ops, topic) + 1 < TWO_TO_THE_128
    requires forall k :: 0 <= k < |ops| ==> !Recreates(ops[k], topic)
    ensures var after := RunFrom(rows, nodeId, ops);
            && LastEndAt(after, nodeId, topic, j)
            && Hidden(after, j) == Hidden(rows, j)
            && after[j].offset == rows[j].offset + (if Hidden(rows, j) then 0 else Allocations(ops, topic))
    decreases |ops|
  {
    if ops != [] {
      var front, last := ops[..|ops| - 1], ops[|ops| - 1];
      LastEndRun(rows, nodeId, topic, j, front);
      LastEndAdds(RunFrom(rows, nodeId, front), nodeId, topic, j, last);
    }
  }

  lemma {:induction false} LastEndAdds(rows: seq<OffsetRow>, nodeId: string, topic: string, j: nat, op: Op)
    requires LastEndAt(rows, nodeId, topic, j) && !Recreates(op, topic) && rows[j].offset + 1 < TWO_TO_THE_128
    ensures var after := Apply(rows, nodeId, op).0;
            && LastEndAt(after, nodeId, topic, j)
            && Hidden(after, j) == Hidden(rows, j)
            && after[j].offset == rows[j].offset + if AllocatesOn(op, topic) && !Hidden(rows, j) then 1 else 0
  {
    LastEndStep(rows, nodeId, topic, j, op);
    SmallRemainder(rows[j].offset + 1, TWO_TO_THE_128);
  }

  // ---------------------------------------------------------------------------------------
  // Which numbers a topic has handed out
  // ---------------------------------------------------------------------------------------

  /** Some end row of the topic is past 0. */
  predicate Advanced(rows: seq<OffsetRow>, topic: string) {
    exists k :: 0 <= k < |rows| && rows[k].topic == topic && rows[k].kind == END && rows[k].offset >= 1
  }

  predicate EndsAtMost(rows: seq<OffsetRow>, topic: string, most: nat) {
    forall k :: 0 <= k < |rows| && rows[k].topic == topic && rows[k].kind == END ==> rows[k].offset <= most
  }

  /** The numbers that allocations on the topic return, in order, from a table. */
  function NumbersFrom(rows: seq<OffsetRow>, nodeId: string, ops: seq<Op>, topic: string): (numbers: seq<uint128>)
    ensures |numbers| == Allocations(ops, topic)
  {
    if ops == [] then []
    else
      var front, last := ops[..|ops| - 1], ops[|ops| - 1];
      NumbersFrom(rows, nodeId, front, topic)
      + if AllocatesOn(last, topic)
        then [Allocate(RunFrom(rows, nodeId, front), nodeId, topic, last.partitionCount, last.now).1]
        else []
  }

  /** The same, from the empty table. */
  function NumbersOn(nodeId: string, ops: seq<Op>, topic: string): seq<uint128> {
    NumbersFrom([], nodeId, ops, topic)
  }

  predicate Distinct(numbers: seq<uint128>) {
    forall i, j :: 0 <= i < j < |numbers| ==> numbers[i] != numbers[j]
  }

  /** Every number that an allocation on the topic returns is there, at its place. */
  lemma {:induction false} NumbersAreReturned(nodeId: string, ops: seq<Op>, topic: string, i: nat)
    requires i < |ops| && AllocatesOn(ops[i], topic)
    ensures Allocations(ops[..i], topic) < |NumbersOn(nodeId, ops, topic)|
    ensures Returned(nodeId, ops, i) == Some(NumbersOn(nodeId, ops, topic)[Allocations(ops[..i], topic)])
  {
    var front := ops[..|ops| - 1];
    if i < |ops| - 1 {
      NumbersAreReturned(nodeId, front, topic, i);
      assert front[..i] == ops[..i];
    }
  }

  lemma {:induction false} NumbersSplit(nodeId: string, first: seq<Op>, more: seq<Op>, topic: string)
    ensures NumbersOn(nodeId, first + more, topic)
         == NumbersOn(nodeId, first, topic) + NumbersFrom(Run(nodeId, first), nodeId, more, topic)
    decreases |more|
  {
    if more == [] {
      assert first + more == first;
    } else {
      var front := more[..|more| - 1];
      assert (first + more)[..|first + more| - 1] == first + front;
      NumbersSplit(nodeId, first, front, topic);
      RunSplit(nodeId, first, front);
    }
  }

  /** An end row of the topic gets past 0 exactly when an allocation returns something else than 0,
      and the first such number is 1. */
  lemma {:induction false} AdvancedStep(rows: seq<OffsetRow>, nodeId: string, topic: string, op: Op, most: nat)
    requires EndsAtMost(rows, topic, most) && most + 1 < TWO_TO_THE_128
    ensures var (after, answer) := Apply(rows, nodeId, op);
            && EndsAtMost(after, topic, most + if AllocatesOn(op, topic) then 1 else 0)
            && (Advanced(after, topic) <==> Advanced(rows, topic) || (AllocatesOn(op, topic) && answer != Some(0)))
            && (AllocatesOn(op, topic) && !Advanced(rows, topic) ==> answer == Some(0) || answer == Some(1))
  {
    var after := Apply(rows, nodeId, op).0;
    if op.Allocation? && ScanResult(rows, op.topic, nodeId, END) != [] {
      var last, index := AllocationWrites(rows, nodeId, op.topic, op.partitionCount, op.now);
      assert KeyOf(rows[index]) == KeyOf(rows[last]);
      if op.topic == topic {
        SmallRemainder(rows[last].offset + 1, TWO_TO_THE_128);
        assert after[index].offset == rows[last].offset + 1;
        assert Advanced(after, topic);
      } else {
        SameElsewhere(rows, topic, index, Bumped(rows[last]));
      }
    } else {
      assert forall k :: 0 <= k < |rows| ==> after[k] == rows[k];
      AppendedAtZero(rows, after, topic);
    }
  }

  lemma {:induction false} SameElsewhere(rows: seq<OffsetRow>, topic: string, index: nat, row: OffsetRow)
    requires index < |rows| && rows[index].topic != topic && row.topic != topic
    ensures Advanced(rows[index := row], topic) <==> Advanced(rows, topic)
  {
    var after := rows[index := row];
    assert forall k :: 0 <= k < |rows| && k != index ==> after[k] == rows[k];
    if k :| 0 <= k < |rows| && rows[k].topic == topic && rows[k].kind == END && rows[k].offset >= 1 {
      assert after[k] == rows[k];
    }
  }

  lemma {:induction false} AppendedAtZero(rows: seq<OffsetRow>, after: seq<OffsetRow>, topic: string)
    requires |rows| <= |after| && forall k :: 0 <= k < |rows| ==> after[k] == rows[k]
    requires forall k :: |rows| <= k < |after| ==> after[k].offset == 0
    ensures Advanced(after, topic) <==> Advanced(rows, topic)
  {
    if k :| 0 <= k < |rows| && rows[k].topic == topic && rows[k].kind == END && rows[k].offset >= 1 {
      assert after[k] == rows[k];
    }
  }

  /** After any run, bare creations included and below 2^128 allocations on the topic, an end row of
      the topic is past 0 if and only if some allocation on it returned 1; and if none is, every
      allocation on it returned 0. */
  lemma {:induction false} AdvancedIffOneGiven(nodeId: string, ops: seq<Op>, topic: string)
    requires Allocations(ops, topic) + 1 < TWO_TO_THE_128
    ensures EndsAtMost(Run(nodeId, ops), topic, Allocations(ops, topic))
    ensures Advanced(Run(nodeId, ops), topic) <==> 1 in NumbersOn(nodeId, ops, topic)
    ensures !Advanced(Run(nodeId, ops), topic) ==>
              forall number :: number in NumbersOn(nodeId, ops, topic) ==> number == 0
  {
    if ops != [] {
      var front, last := ops[..|ops| - 1], ops[|ops| - 1];
      AdvancedIffOneGiven(nodeId, front, topic);
      AdvancedStep(Run(nodeId, front), nodeId, topic, last, Allocations(front, topic));
    }
  }

  // ---------------------------------------------------------------------------------------
  // After a bare creation
  // ---------------------------------------------------------------------------------------

  /** The new end row is the last one, at 0, and hidden if and only if the topic had an end row of
      the partition number. */
  lemma {:induction false} CreationLeaves(nodeId: string, ops: seq<Op>, creation: Op)
    requires creation.Creation?
    ensures var rows, t := Run(nodeId, ops), creation.topic;
            var after := Apply(rows, nodeId, creation).0;
            var j := |rows| + 1;
            && LastEndAt(after, nodeId, t, j) && after[j].offset == 0
            && (Hidden(after, j) <==> HasPartition(rows, t, NarrowToUint8(creation.partitionCount)))
  {
    var after := Apply(Run(nodeId, ops), nodeId, creation).0;
    CreationShadowsIff(nodeId, ops, creation);
    assert HasTopicNodeKind(creation.topic, nodeId, END)(after[|Run(nodeId, ops)| + 1]);
  }

  /** 1, 2, 3, ..., m; or 1 m times. */
  function CountedUp(m: nat, stuck: bool): (numbers: seq<uint128>)
    requires m < TWO_TO_THE_128
    ensures |numbers| == m && forall k :: 0 <= k < m ==> numbers[k] == if stuck then 1 else k + 1
  {
    seq(m, k requires 0 <= k < m => if stuck then 1 else k + 1)
  }

  lemma {:induction false} NumbersFromLastEnd(rows: seq<OffsetRow>, nodeId: string, topic: string, j: nat, ops: seq<Op>)
    requires LastEndAt(rows, nodeId, topic, j) && rows[j].offset == 0
    requires forall k :: 0 <= k < |ops| ==> !Recreates(ops[k], topic)
    requires Allocations(ops, topic) < TWO_TO_THE_128
    ensures NumbersFrom(rows, nodeId, ops, topic) == CountedUp(Allocations(ops, topic), Hidden(rows, j))
    decreases |ops|
  {
    if ops != [] {
      var front, last := ops[..|ops| - 1], ops[|ops| - 1];
      NumbersFromLastEnd(rows, nodeId, topic, j, front);
      if AllocatesOn(last, topic) {
        NextNumberIs(rows, nodeId, topic, j, front, last);
        CountedUpSnoc(Allocations(front, topic), Hidden(rows, j));
      }
    }
  }

  lemma {:induction false} CountedUpSnoc(m: nat, stuck: bool)
    requires m + 1 < TWO_TO_THE_128
    ensures CountedUp(m + 1, stuck) == CountedUp(m, stuck) + [if stuck then 1 else m + 1]
  {
  }

  lemma {:induction false} NextNumberIs(
    rows: seq<OffsetRow>, nodeId: string, topic: string, j: nat, ops: seq<Op>, op: Op)
    requires LastEndAt(rows, nodeId, topic, j) && rows[j].offset == 0 && AllocatesOn(op, topic)
    requires forall k :: 0 <= k < |ops| ==> !Recreates(ops[k], topic)
    requires Allocations(ops, topic) + 1 < TWO_TO_THE_128
    ensures Allocate(RunFrom(rows, nodeId, ops), nodeId, topic, op.partitionCount, op.now).1
         == if Hidden(rows, j) then 1 else Allocations(ops, topic) + 1
  {
    LastEndRun(rows, nodeId, topic, j, ops);
    AnswerIs(RunFrom(rows, nodeId, ops), nodeId, topic, j, op);
  }

  lemma {:induction false} AnswerIs(rows: seq<OffsetRow>, nodeId: string, topic: string, j: nat, op: Op)
    requires LastEndAt(rows, nodeId, topic, j) && AllocatesOn(op, topic) && rows[j].offset + 1 < TWO_TO_THE_128
    ensures Allocate(rows, nodeId, topic, op.partitionCount, op.now).1 == rows[j].offset + 1
  {
    LastEndStep(rows, nodeId, topic, j, op);
    SmallRemainder(rows[j].offset + 1, TWO_TO_THE_128);
  }

  /** After any run, a bare creation makes the topic's numbers go on with 1, 2, 3, ..., or with 1 for
      ever if the topic had an end row of the partition number. */
  lemma {:induction false} NumbersAfterCreation(nodeId: string, ops: seq<Op>, creation: Op, more: seq<Op>)
    requires creation.Creation? && forall k :: 0 <= k < |more| ==> !Recreates(more[k], creation.topic)
    requires Allocations(more, creation.topic) < TWO_TO_THE_128
    ensures var t := creation.topic;
            var had := HasPartition(Run(nodeId, ops), t, NarrowToUint8(creation.partitionCount));
            var after := CountedUp(Allocations(more, t), had);
            NumbersOn(nodeId, ops + [creation] + more, t) == NumbersOn(nodeId, ops, t) + after
  {
    var t, rows := creation.topic, Run(nodeId, ops);
    CreationLeaves(nodeId, ops, creation);
    NumbersSplit(nodeId, ops + [creation], more, t);
    NumbersFromLastEnd(Apply(rows, nodeId, creation).0, nodeId, t, |rows| + 1, more);
    RunOfOneMore(nodeId, ops, creation, t);
  }

  lemma {:induction false} RunOfOneMore(nodeId: string, ops: seq<Op>, creation: Op, topic: string)
    requires creation.Creation?
    ensures Run(nodeId, ops + [creation]) == Apply(Run(nodeId, ops), nodeId, creation).0
    ensures NumbersOn(nodeId, ops + [creation], topic) == NumbersOn(nodeId, ops, topic)
  {
    assert (ops + [creation])[..|ops|] == ops;
  }

  /** So the first allocation after it returns 1, and repeats an earlier number of the topic if and
      only if an end row of the topic was past 0. */
  lemma {:induction false} FirstAfterCreationRepeatsIff(nodeId: string, ops: seq<Op>, creation: Op, more: seq<Op>)
    requires creation.Creation? && forall k :: 0 <= k < |more| ==> !Recreates(more[k], creation.topic)
    requires 0 < Allocations(more, creation.topic) < TWO_TO_THE_128
    requires Allocations(ops, creation.topic) + 1 < TWO_TO_THE_128
    ensures var t := creation.topic;
            var before, all := NumbersOn(nodeId, ops, t), NumbersOn(nodeId, ops + [creation] + more, t);
            && |before| < |all| && all[..|before|] == before && all[|before|] == 1
            && (all[|before|] in before <==> Advanced(Run(nodeId, ops), t))
  {
    NumbersAfterCreation(nodeId, ops, creation, more);
    AdvancedIffOneGiven(nodeId, ops, creation.topic);
  }

  // ---------------------------------------------------------------------------------------
  // The whole law
  // ---------------------------------------------------------------------------------------

  /** What a caller of `createTopic` can look up: with `m` allocations to come, the creation is safe
      if there are none, or if no end row of the topic is past 0 and, for two or more, none has the
      partition number. */
  predicate SafeToCreate(rows: seq<OffsetRow>, creation: Op, m: nat) {
    m == 0 || (!Advanced(rows, creation.topic)
               && (m == 1 || !HasPartition(rows, creation.topic, NarrowToUint8(creation.partitionCount))))
  }

  lemma {:induction false} DistinctJoin(before: seq<uint128>, m: nat, stuck: bool, advanced: bool)
    requires m < TWO_TO_THE_128 && (advanced <==> 1 in before)
    requires !advanced ==> forall number :: number in before ==> number == 0
    ensures Distinct(before + CountedUp(m, stuck)) <==>
            Distinct(before) && (m == 0 || (!advanced && (m == 1 || !stuck)))
  {
    var all := before + CountedUp(m, stuck);
    assert forall i :: 0 <= i < |before| ==> all[i] == before[i];
    assert forall k :: 0 <= k < m ==> all[|before| + k] == CountedUp(m, stuck)[k];
    if Distinct(before) && (m == 0 || (!advanced && (m == 1 || !stuck))) {
      forall i, j | 0 <= i < j < |all| ensures all[i] != all[j] {
        if i < |before| <= j {
          assert before[i] in before;
        }
      }
    }
    if m >= 1 && advanced {
      var i :| 0 <= i < |before| && before[i] == 1;
      assert all[i] == all[|before|];
    }
    if m >= 2 && stuck {
      assert all[|before|] == all[|before| + 1];
    }
  }

  /** The law of bare creations. After any run and a bare creation of a topic, with any operations
      after it but another bare creation of that topic, and below 2^128 allocations: the numbers on
      the topic are distinct if and only if those before the creation were, and the creation was
      safe for as many allocations as followed. */
  lemma {:induction false} DistinctIffSafeToCreate(nodeId: string, ops: seq<Op>, creation: Op, more: seq<Op>)
    requires creation.Creation? && forall k :: 0 <= k < |more| ==> !Recreates(more[k], creation.topic)
    requires Allocations(ops, creation.topic) + 1 < TWO_TO_THE_128
    requires Allocations(more, creation.topic) < TWO_TO_THE_128
    ensures var t := creation.topic;
            Distinct(NumbersOn(nodeId, ops + [creation] + more, t)) <==>
            && Distinct(NumbersOn(nodeId, ops, t))
            && SafeToCreate(Run(nodeId, ops), creation, Allocations(more, t))
  {
    var t, rows := creation.topic, Run(nodeId, ops);
    NumbersAfterCreation(nodeId, ops, creation, more);
    AdvancedIffOneGiven(nodeId, ops, t);
    DistinctJoin(NumbersOn(nodeId, ops, t), Allocations(more, t),
                 HasPartition(rows, t, NarrowToUint8(creation.partitionCount)), Advanced(rows, t));
  }

  /** Without a bare creation of the topic its numbers are distinct. */
  lemma {:induction false} DistinctWithoutCreation(nodeId: string, ops: seq<Op>, topic: string)
    requires forall k :: 0 <= k < |ops| ==> !Recreates(ops[k], topic)
    requires Allocations(ops, topic) < TWO_TO_THE_128
    ensures Distinct(NumbersOn(nodeId, ops, topic))
  {
    var numbers := NumbersOn(nodeId, ops, topic);
    forall a, b | 0 <= a < b < |numbers| ensures numbers[a] != numbers[b] {
      NumbersApart(nodeId, ops, topic, a, b);
    }
  }

  lemma {:induction false} NumbersApart(nodeId: string, ops: seq<Op>, topic: string, a: nat, b: nat)
    requires forall k :: 0 <= k < |ops| ==> !Recreates(ops[k], topic)
    requires a < b < Allocations(ops, topic) < TWO_TO_THE_128
    ensures NumbersOn(nodeId, ops, topic)[a] != NumbersOn(nodeId, ops, topic)[b]
  {
    var i := NthAllocation(ops, topic, a);
    var j := NthAllocation(ops, topic, b);
    InOrder(ops, topic, i, j);
    EqualOnlyAfterWrap(nodeId, ops, i, j, a, b);
    NumbersAreReturned(nodeId, ops, topic, i);
    NumbersAreReturned(nodeId, ops, topic, j);
  }

  lemma {:induction false} InOrder(ops: seq<Op>, topic: string, i: nat, j: nat)
    requires i < |ops| && j < |ops| && AllocatesOn(ops[j], topic)
    requires Allocations(ops[..i], topic) < Allocations(ops[..j], topic)
    ensures i < j
  {
    if j < i {
      AllocationsGrow(ops, topic, j, i);
    }
  }

  /** Every bare creation of the topic is safe for the allocations between it and the next one;
      `m` counts those after the run. */
  predicate CreationsSafe(nodeId: string, ops: seq<Op>, topic: string, m: nat) {
    ops == [] ||
    var front, last := ops[..|ops| - 1], ops[|ops| - 1];
    if Recreates(last, topic) then SafeToCreate(Run(nodeId, front), last, m) && CreationsSafe(nodeId, front, topic, 0)
    else CreationsSafe(nodeId, front, topic, m + if AllocatesOn(last, topic) then 1 else 0)
  }

  lemma {:induction false} DistinctBeforeMore(nodeId: string, ops: seq<Op>, more: seq<Op>, topic: string)
    requires forall k :: 0 <= k < |more| ==> !Recreates(more[k], topic)
    requires Allocations(ops, topic) + Allocations(more, topic) + 1 < TWO_TO_THE_128
    ensures Distinct(NumbersOn(nodeId, ops + more, topic)) <==>
            CreationsSafe(nodeId, ops, topic, Allocations(more, topic))
    decreases |ops|
  {
    if ops == [] {
      assert ops + more == more;
      DistinctWithoutCreation(nodeId, more, topic);
    } else {
      var front, last := ops[..|ops| - 1], ops[|ops| - 1];
      assert ops == front + [last];
      if Recreates(last, topic) {
        DistinctIffSafeToCreate(nodeId, front, last, more);
        DistinctBeforeMore(nodeId, front, [], topic);
        assert front + [] == front;
      } else {
        assert ops + more == front + ([last] + more);
        AllocationsCons(last, more, topic);
        DistinctBeforeMore(nodeId, front, [last] + more, topic);
      }
    }
  }

  lemma {:induction false} AllocationsCons(op: Op, more: seq<Op>, topic: string)
    ensures Allocations([op] + more, topic) == (if AllocatesOn(op, topic) then 1 else 0) + Allocations(more, topic)
    decreases |more|
  {
    if more == [] {
      assert [op] + more == [op] && [op][..0] == [];
    } else {
      assert ([op] + more)[..|more|] == [op] + more[..|more| - 1];
      AllocationsCons(op, more[..|more| - 1], topic);
    }
  }

  /** For every run, with any number of bare creations anywhere and below 2^128 allocations on the
      topic: all numbers on the topic are distinct if and only if each of its bare creations was
      safe when it was made. */
  lemma {:induction false} DistinctIffCreationsSafe(nodeId: string, ops: seq<Op>, topic: string)
    requires Allocations(ops, topic) + 1 < TWO_TO_THE_128
    ensures Distinct(NumbersOn(nodeId, ops, topic)) <==> CreationsSafe(nodeId, ops, topic, 0)
  {
    DistinctBeforeMore(nodeId, ops, [], topic);
    assert ops + [] == ops;
  }

  /** A partition number that the topic did not have is no protection: two allocations, a creation
      with a new partition number, and one more allocation return 0, 1 and again 1. */
  lemma {:induction false} NewPartitionRepeats(nodeId: string, first: Op, second: Op, creation: Op, third: Op)
    requires first.Allocation? && second.Allocation? && creation.Creation? && third.Allocation?
    requires first.topic == second.topic == creation.topic == third.topic
    requires NarrowToUint8(first.partitionCount) != NarrowToUint8(creation.partitionCount)
    ensures var t := creation.topic;
            && !HasPartition(Run(nodeId, [first] + [second]), t, NarrowToUint8(creation.partitionCount))
            && NumbersOn(nodeId, [first] + [second] + [creation] + [third], t) == [0, 1, 1]
  {
    var ops, t := [first] + [second], creation.topic;
    TwoAllocations(nodeId, first, second);
    TopicRefines(nodeId, ops, t);
    forall k | 0 <= k < |Run(nodeId, ops)| && Run(nodeId, ops)[k].topic == t
      ensures Run(nodeId, ops)[k].partition == NarrowToUint8(first.partitionCount)
    {
      InView(Run(nodeId, ops), t, k);
    }
    OneAllocation(third);
    NumbersAfterCreation(nodeId, ops, creation, [third]);
  }

  lemma {:induction false} OneAllocation(op: Op)
    requires op.Allocation?
    ensures Allocations([op], op.topic) == 1 && Counters([op]) == map[op.topic := Fresh(op)]
  {
    assert [op][..0] == [];
  }

  lemma {:induction false} TwoAllocations(nodeId: string, first: Op, second: Op)
    requires first.Allocation? && second.Allocation? && first.topic == second.topic
    ensures var ops, t := [first] + [second], first.topic;
            && NumbersOn(nodeId, ops, t) == [0, 1]
            && t in Counters(ops) && Counters(ops)[t].partition == NarrowToUint8(first.partitionCount)
  {
    var ops, t := [first] + [second], first.topic;
    OneAllocation(first);
    assert ops[..1] == [first] && [first][..0] == [];
    KthAllocation(nodeId, ops, 0, 0);
    KthAllocation(nodeId, ops, 1, 1);
    NumbersAreReturned(nodeId, ops, t, 0);
    NumbersAreReturned(nodeId, ops, t, 1);
    SmallRemainder(1, TWO_TO_THE_128);
    SmallRemainder(0, TWO_TO_THE_128);
  }
}
