/** The ledger is local: what an operation returns, and what it does to the rows of its topic,
    depends on that topic's rows alone. */
module TopicViews {
  import opened Sequences
  import opened OffsetTables
  import opened TopicManagers
  import opened SerialLedger
  import opened LedgerLaws

  /** The end rows among a topic's rows. */
  function Ends(view: seq<OffsetRow>): seq<OffsetRow> {
    Filter(view, HasKind(END))
  }

  lemma {:induction false} ViewOfView(rows: seq<OffsetRow>, topic: string)
    ensures View(View(rows, topic), topic) == View(rows, topic)
  {
    var p := HasTopic(topic);
    FilterTwice(rows, p, p, p);
  }

  /** On a topic whose rows belong to one node the scan finds the topic's end rows. */
  lemma {:induction false} ScanInView(rows: seq<OffsetRow>, nodeId: string, topic: string)
    requires OneNode(View(rows, topic), nodeId)
    ensures ScanResult(rows, topic, nodeId, END) == Ends(View(rows, topic))
  {
    var strong := HasTopicNodeKind(topic, nodeId, END);
    forall k | 0 <= k < |rows| && rows[k].topic == topic ensures rows[k].nodeId == nodeId {
      InView(rows, topic, k);
    }
    ScanCharacterization(rows, topic, nodeId, END);
    forall x | x in rows ensures strong(x) == (HasTopic(topic)(x) && HasKind(END)(x)) {
      if HasTopic(topic)(x) {
        var k :| 0 <= k < |rows| && rows[k] == x;
        assert x.nodeId == nodeId;
      }
    }
    FilterTwice(rows, HasTopic(topic), HasKind(END), strong);
  }

  /** Overwriting the first row of a key overwrites the first row of that key among the topic's
      rows, and shows on no other topic. */
  lemma {:induction false} OverwriteInView(rows: seq<OffsetRow>, row: OffsetRow)
    ensures var view := View(rows, row.topic);
            && View(Overwrite(rows, IndexOfKey(rows, KeyOf(row)), row), row.topic)
               == Overwrite(view, IndexOfKey(view, KeyOf(row)), row)
            && (IndexOfKey(rows, KeyOf(row)) >= 0 <==> IndexOfKey(view, KeyOf(row)) >= 0)
    ensures forall other: string :: other != row.topic ==>
              View(Overwrite(rows, IndexOfKey(rows, KeyOf(row)), row), other) == View(rows, other)
  {
    var p, key := HasTopic(row.topic), KeyOf(row);
    var i := IndexOfKey(rows, key);
    if i >= 0 {
      FilterAround(rows, p, i);
      FilterUpdated(rows, p, i, row);
      KeyNotBefore(rows[..i], key);
      assert View(rows[..i], key.topic) == Filter(rows[..i], p);
      FirstAfter(Filter(rows[..i], p), rows[i], Filter(rows[i + 1..], p), key, row);
      forall other: string | other != row.topic ensures View(rows[i := row], other) == View(rows, other) {
        FilterAround(rows, HasTopic(other), i);
        FilterUpdated(rows, HasTopic(other), i, row);
      }
    } else {
      KeyNotBefore(rows, key);
    }
  }

  lemma {:induction false} KeyNotBefore(rows: seq<OffsetRow>, key: Key)
    requires forall k :: 0 <= k < |rows| ==> KeyOf(rows[k]) != key
    ensures forall k :: 0 <= k < |View(rows, key.topic)| ==> KeyOf(View(rows, key.topic)[k]) != key
  {
    forall k | 0 <= k < |View(rows, key.topic)| ensures KeyOf(View(rows, key.topic)[k]) != key {
      FilterMembers(rows, HasTopic(key.topic), k);
    }
  }

  lemma {:induction false} FirstAfter(
    front: seq<OffsetRow>, found: OffsetRow, back: seq<OffsetRow>, key: Key, row: OffsetRow)
    requires forall k :: 0 <= k < |front| ==> KeyOf(front[k]) != key
    requires KeyOf(found) == key
    ensures IndexOfKey(front + [found] + back, key) == |front|
    ensures Overwrite(front + [found] + back, |front|, row) == front + [row] + back
  {
    var all := front + [found] + back;
    assert all[|front|] == found;
    assert forall k :: 0 <= k < |front| ==> all[k] == front[k];
  }

  /** The last end row of a topic among its rows. */
  lemma {:induction false} LastEnd(view: seq<OffsetRow>) returns (k: nat)
    requires Ends(view) != []
    ensures k < |view| && view[k].kind == END && view[k] == Ends(view)[|Ends(view)| - 1]
  {
    k := FilterLast(view, HasKind(END));
    assert HasKind(END)(view[k]);
  }

  /** An operation acts on the rows of its topic as it would on a table of those rows alone. */
  lemma {:induction false} ApplyInView(rows: seq<OffsetRow>, nodeId: string, op: Op)
    requires OneNode(View(rows, op.topic), nodeId)
    ensures var view := View(rows, op.topic);
            && View(Apply(rows, nodeId, op).0, op.topic) == Apply(view, nodeId, op).0
            && Apply(rows, nodeId, op).1 == Apply(view, nodeId, op).1
  {
    var t := op.topic;
    var view := View(rows, t);
    ViewOfView(rows, t);
    ViewAfterCreation(rows, nodeId, t, op.partitionCount, op.now, t);
    if op.Allocation? {
      ScanInView(rows, nodeId, t);
      ScanInView(view, nodeId, t);
      if Ends(view) != [] {
        var k := LastEnd(view);
        FilterMembers(rows, HasTopic(t), k);
        OverwriteInView(rows, Bumped(view[k]));
      }
    }
  }

  /** Rows of one node stay rows of one node, topic by topic. */
  lemma {:induction false} RunViewOneNode(nodeId: string, ops: seq<Op>, topic: string)
    ensures OneNode(View(Run(nodeId, ops), topic), nodeId)
  {
    var rows := Run(nodeId, ops);
    ScanIsPlainFilter(nodeId, ops, topic, END);
    forall k | 0 <= k < |View(rows, topic)| ensures View(rows, topic)[k].nodeId == nodeId {
      FilterMembers(rows, HasTopic(topic), k);
    }
  }

  /** Operations on other topics do not show on a topic. */
  lemma {:induction false} ViewSettled(nodeId: string, ops: seq<Op>, n: nat, topic: string)
    requires n <= |ops| && forall k :: n <= k < |ops| ==> ops[k].topic != topic
    ensures View(Run(nodeId, ops), topic) == View(Run(nodeId, ops[..n]), topic)
    decreases |ops|
  {
    if n < |ops| {
      var front := ops[..|ops| - 1];
      assert front[..n] == ops[..n];
      ViewSettled(nodeId, front, n, topic);
      OtherTopicUntouched(Run(nodeId, front), nodeId, ops[|ops| - 1], topic);
    } else {
      assert ops[..n] == ops;
    }
  }
}
