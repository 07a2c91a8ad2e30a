/** The table of per-topic offset rows
    (topics/topic_private/topic_offset/topic_private_offset_definition.cpp). */
module OffsetTables {
  import opened Numbers
  import opened Sequences

  const START := "start"
  const END := "end"

  datatype OffsetRow = OffsetRow(
    offset: uint128,
    timestamp: uint64,
    topic: string,
    nodeId: string,
    partition: uint8,
    kind: string)

  /** The fields that `searchForIndex` compares. */
  datatype Key = Key(topic: string, nodeId: string, partition: uint8, kind: string)

  function KeyOf(row: OffsetRow): Key {
    Key(row.topic, row.nodeId, row.partition, row.kind)
  }

  function HasKey(key: Key): OffsetRow -> bool {
    (row: OffsetRow) => KeyOf(row) == key
  }

  function HasTopic(topic: string): OffsetRow -> bool {
    (row: OffsetRow) => row.topic == topic
  }

  function HasKind(kind: string): OffsetRow -> bool {
    (row: OffsetRow) => row.kind == kind
  }

  function HasTopicKind(topic: string, kind: string): OffsetRow -> bool {
    (row: OffsetRow) => row.topic == topic && row.kind == kind
  }

  function HasTopicNodeKind(topic: string, nodeId: string, kind: string): OffsetRow -> bool {
    (row: OffsetRow) => row.topic == topic && row.nodeId == nodeId && row.kind == kind
  }

  /** All rows of one topic, in table order. */
  function View(rows: seq<OffsetRow>, topic: string): seq<OffsetRow> {
    Filter(rows, HasTopic(topic))
  }

  /** The first row with the key, or -1. */
  function IndexOfKey(rows: seq<OffsetRow>, key: Key): (index: int)
    ensures -1 <= index < |rows|
    ensures index == -1 <==> forall k :: 0 <= k < |rows| ==> KeyOf(rows[k]) != key
    ensures index >= 0 ==> KeyOf(rows[index]) == key && forall k :: 0 <= k < index ==> KeyOf(rows[k]) != key
  {
    var k := FindIf(rows, HasKey(key), 0);
    assert k < |rows| ==> HasKey(key)(rows[k]);
    assert forall j :: 0 <= j < k ==> !HasKey(key)(rows[j]);
    if k < |rows| then k else -1
  }

  /** The position of the first row of this topic, node and kind; |rows| when there is none. */
  function FirstMatch(rows: seq<OffsetRow>, topic: string, nodeId: string, kind: string): (k: nat)
    ensures k <= |rows|
    ensures k < |rows| ==> HasTopicNodeKind(topic, nodeId, kind)(rows[k])
    ensures forall j :: 0 <= j < k ==> !HasTopicNodeKind(topic, nodeId, kind)(rows[j])
  {
    FindIf(rows, HasTopicNodeKind(topic, nodeId, kind), 0)
  }

  /** What the resuming search collects: the first row of this topic, node and kind, and after
      it every row of this topic and kind, whatever its node. */
  function ScanResult(rows: seq<OffsetRow>, topic: string, nodeId: string, kind: string): seq<OffsetRow> {
    HitsFrom(rows, FirstMatch(rows, topic, nodeId, kind), HasTopicKind(topic, kind))
  }

  /** The row at `it`, unless `it` is the end, and after it the rows that satisfy `p`. */
  function HitsFrom(rows: seq<OffsetRow>, it: nat, p: OffsetRow -> bool): seq<OffsetRow>
    requires it <= |rows|
  {
    if it == |rows| then [] else [rows[it]] + Filter(rows[it + 1..], p)
  }

  function Overwrite(rows: seq<OffsetRow>, index: int, row: OffsetRow): seq<OffsetRow> {
    if 0 <= index < |rows| then rows[index := row] else rows
  }

  // ---------------------------------------------------------------------------------------
  // The table object
  // ---------------------------------------------------------------------------------------

  /** The singleton table. Each method is one critical section of its mutex. Positions are
      returned as `int`, so the methods that use them ask for fewer than 2^31 rows. */
  class OffsetTable {
    var rows: seq<OffsetRow>

    constructor ()
      ensures rows == []
    {
      rows := [];
    }

    method Insert(row: OffsetRow)
      modifies this
      ensures rows == old(rows) + [row]
    {
      rows := rows + [row];
    }

    method Update(index: int, row: OffsetRow)
      requires |rows| <= INT_MAX
      modifies this
      ensures |rows| == old(|rows|)
      ensures forall k :: 0 <= k < |rows| ==> rows[k] == if k == index then row else old(rows)[k]
      ensures rows == Overwrite(old(rows), index, row)
    {
      if index >= 0 && index < |rows| {
        rows := rows[index := row];
      }
    }

    method SearchForIndex(row: OffsetRow) returns (index: int)
      requires |rows| <= INT_MAX
      ensures index == IndexOfKey(rows, KeyOf(row))
      ensures -1 <= index < |rows|
      ensures index >= 0 ==>
        && rows[index].topic == row.topic && rows[index].nodeId == row.nodeId
        && rows[index].partition == row.partition && rows[index].kind == row.kind
      ensures forall k :: 0 <= k < (if index >= 0 then index else |rows|) ==>
        !(rows[k].topic == row.topic && rows[k].nodeId == row.nodeId
          && rows[k].partition == row.partition && rows[k].kind == row.kind)
    {
      var it := FindIf(rows, HasKey(KeyOf(row)), 0);
      if it != |rows| {
        return it;
      }
      return -1;
    }

    method SearchByCriteria(topic: string, nodeId: string, partition: uint8, kind: string) returns (index: int)
      requires |rows| <= INT_MAX
      ensures -1 <= index < |rows|
      ensures index == IndexOfKey(rows, Key(topic, nodeId, partition, kind))
      ensures index >= 0 ==>
        && rows[index].topic == topic && rows[index].nodeId == nodeId
        && rows[index].partition == partition && rows[index].kind == kind
      ensures forall k :: 0 <= k < (if index >= 0 then index else |rows|) ==>
        !(rows[k].topic == topic && rows[k].nodeId == nodeId && rows[k].partition == partition && rows[k].kind == kind)
    {
      var p := HasKey(Key(topic, nodeId, partition, kind));
      var it := FindIf(rows, p, 0);
      assert forall k :: 0 <= k < it ==> !p(rows[k]);
      if it != |rows| {
        return it;
      }
      return -1;
    }

    /** When nothing matches the program returns a default-constructed row, whose timestamp and
        partition are indeterminate. */
    method SearchByCriteriaTypeReturn(topic: string, nodeId: string, partition: uint8, kind: string)
      returns (row: OffsetRow)
      ensures if exists k :: 0 <= k < |rows| && rows[k].topic == topic && rows[k].nodeId == nodeId
                             && rows[k].partition == partition && rows[k].kind == kind
              then exists k :: && 0 <= k < |rows| && row == rows[k] && row.topic == topic && row.nodeId == nodeId
                               && row.partition == partition && row.kind == kind
                               && forall j :: 0 <= j < k ==>
                                    !(rows[j].topic == topic && rows[j].nodeId == nodeId
                                      && rows[j].partition == partition && rows[j].kind == kind)
              else row.offset == 0 && row.topic == "" && row.nodeId == "" && row.kind == ""
    {
      var p := HasKey(Key(topic, nodeId, partition, kind));
      var it := FindIf(rows, p, 0);
      assert forall k :: 0 <= k < it ==> !p(rows[k]);
      if it != |rows| {
        assert p(rows[it]);
        return rows[it];
      }
      var anyTimestamp: uint64 := *;
      var anyPartition: uint8 := *;
      return OffsetRow(0, anyTimestamp, "", "", anyPartition, "");
    }

    /** The loop restarts the search just after each hit, with a predicate that no longer
        looks at the node. */
    method SearchByCriteriaVectorTypeReturn(topic: string, nodeId: string, kind: string)
      returns (result: seq<OffsetRow>)
      ensures result == ScanResult(rows, topic, nodeId, kind)
    {
      result := [];
      var later := HasTopicKind(topic, kind);
      var it := FindIf(rows, HasTopicNodeKind(topic, nodeId, kind), 0);
      assert it == FirstMatch(rows, topic, nodeId, kind);
      while it != |rows|
        invariant it <= |rows|
        invariant result + HitsFrom(rows, it, later) == ScanResult(rows, topic, nodeId, kind)
        decreases |rows| - it
      {
        var next := FindIf(rows, later, it + 1);
        HitsResume(rows, it, later, result);
        result := result + [rows[it]];
        it := next;
      }
    }

    method SearchByNameTypeReturn(topic: string) returns (result: seq<OffsetRow>)
      ensures result == View(rows, topic)
    {
      result := [];
      var p := HasTopic(topic);
      var it := FindIf(rows, p, 0);
      HitsAreFilter(rows, p, 0);
      assert rows[0..] == rows;
      while it != |rows|
        invariant it <= |rows|
        invariant result + HitsFrom(rows, it, p) == View(rows, topic)
        decreases |rows| - it
      {
        var next := FindIf(rows, p, it + 1);
        HitsResume(rows, it, p, result);
        result := result + [rows[it]];
        it := next;
      }
    }
  }

  /** A filter starts with the first element that `FindIf` finds. */
  lemma {:induction false} HitsAreFilter(rows: seq<OffsetRow>, p: OffsetRow -> bool, from: nat)
    requires from <= |rows|
    ensures Filter(rows[from..], p) == HitsFrom(rows, FindIf(rows, p, from), p)
    decreases |rows| - from
  {
    if from < |rows| {
      var tail := rows[from..];
      assert tail[0] == rows[from] && tail[1..] == rows[from + 1..];
      if !p(rows[from]) {
        HitsAreFilter(rows, p, from + 1);
      }
    }
  }

  /** Taking one hit and resuming the search after it leaves the collected total unchanged. */
  lemma {:induction false} HitsResume(rows: seq<OffsetRow>, it: nat, p: OffsetRow -> bool, collected: seq<OffsetRow>)
    requires it < |rows|
    ensures collected + HitsFrom(rows, it, p)
         == (collected + [rows[it]]) + HitsFrom(rows, FindIf(rows, p, it + 1), p)
  {
    HitsAreFilter(rows, p, it + 1);
  }

  // ---------------------------------------------------------------------------------------
  // What the resuming search returns
  // ---------------------------------------------------------------------------------------

  /** On any table the result contains the (topic, node, kind) rows as a subsequence; it is
      exactly those rows if and only if no other node has a row of this topic and kind after
      the first match. */
  lemma {:induction false} ScanCharacterization(rows: seq<OffsetRow>, topic: string, nodeId: string, kind: string)
    ensures var plain := Filter(rows, HasTopicNodeKind(topic, nodeId, kind));
            var first := FirstMatch(rows, topic, nodeId, kind);
            && Subsequence(plain, ScanResult(rows, topic, nodeId, kind))
            && (ScanResult(rows, topic, nodeId, kind) == plain <==>
                forall k :: first < k < |rows| && rows[k].topic == topic && rows[k].kind == kind ==>
                  rows[k].nodeId == nodeId)
  {
    var strong, weak := HasTopicNodeKind(topic, nodeId, kind), HasTopicKind(topic, kind);
    var first := FirstMatch(rows, topic, nodeId, kind);
    HitsAreFilter(rows, strong, 0);
    assert rows[0..] == rows;
    if first < |rows| {
      CompareFromFirst(rows, first, strong, weak);
    }
  }

  lemma {:induction false} CompareFromFirst(
    rows: seq<OffsetRow>, first: nat, strong: OffsetRow -> bool, weak: OffsetRow -> bool)
    requires first < |rows|
    requires forall x :: strong(x) ==> weak(x)
    ensures Subsequence(HitsFrom(rows, first, strong), HitsFrom(rows, first, weak))
    ensures HitsFrom(rows, first, strong) == HitsFrom(rows, first, weak) <==>
            forall k :: first < k < |rows| && weak(rows[k]) ==> strong(rows[k])
  {
    var rest := rows[first + 1..];
    FilterSubsequence(rest, strong, weak);
    FilterAgreement(rest, strong, weak);
    var a, b := HitsFrom(rows, first, strong), HitsFrom(rows, first, weak);
    assert a[1..] == Filter(rest, strong) && b[1..] == Filter(rest, weak);
    assert a == b <==> a[1..] == b[1..];
    assert forall k :: 0 <= k < |rest| ==> rest[k] == rows[first + 1 + k];
    assert forall k :: first < k < |rows| ==> rows[k] == rest[k - first - 1];
  }

  /** A filter and a weaker one keep the same elements only if they agree on every element. */
  lemma {:induction false} FilterAgreement<T(!new)>(s: seq<T>, strong: T -> bool, weak: T -> bool)
    requires forall x :: strong(x) ==> weak(x)
    ensures |Filter(s, strong)| <= |Filter(s, weak)|
    ensures Filter(s, strong) == Filter(s, weak) <==> forall k :: 0 <= k < |s| && weak(s[k]) ==> strong(s[k])
  {
    if s != [] {
      FilterAgreement(s[1..], strong, weak);
      assert forall k :: 0 < k < |s| ==> s[k] == s[1..][k - 1];
      assert forall k :: 0 <= k < |s[1..]| ==> s[1..][k] == s[k + 1];
      if strong(s[0]) {
        assert ([s[0]] + Filter(s[1..], weak))[1..] == Filter(s[1..], weak);
        assert ([s[0]] + Filter(s[1..], strong))[1..] == Filter(s[1..], strong);
      }
    }
  }

  /** When the result is not empty its last element is the last row of the topic and kind. */
  lemma {:induction false} ScanLast(rows: seq<OffsetRow>, topic: string, nodeId: string, kind: string) returns (j: nat)
    requires ScanResult(rows, topic, nodeId, kind) != []
    ensures j < |rows| && rows[j].topic == topic && rows[j].kind == kind
    ensures forall k :: j < k < |rows| ==> !(rows[k].topic == topic && rows[k].kind == kind)
    ensures var scan := ScanResult(rows, topic, nodeId, kind); scan[|scan| - 1] == rows[j]
    ensures FirstMatch(rows, topic, nodeId, kind) <= j
  {
    var first := FirstMatch(rows, topic, nodeId, kind);
    var p := HasTopicKind(topic, kind);
    var rest := rows[first + 1..];
    if Filter(rest, p) == [] {
      j := first;
      FilterEmpty(rest, p);
      NoneAfter(rows, p, first + 1, 0);
    } else {
      var m := FilterLast(rest, p);
      j := first + 1 + m;
      NoneAfter(rows, p, first + 1, m + 1);
    }
    forall k | j < k < |rows| ensures !(rows[k].topic == topic && rows[k].kind == kind) {
      assert !p(rows[k]);
    }
  }

  lemma {:induction false} FilterEmpty<T>(s: seq<T>, p: T -> bool)
    requires Filter(s, p) == []
    ensures forall k :: 0 <= k < |s| ==> !p(s[k])
  {
    forall k | 0 <= k < |s| ensures !p(s[k]) {
      if p(s[k]) {
        FilterNonEmpty(s, p, k);
      }
    }
  }

  lemma {:induction false} NoneAfter<T>(s: seq<T>, p: T -> bool, from: nat, m: nat)
    requires from + m <= |s| && forall k :: m <= k < |s[from..]| ==> !p(s[from..][k])
    ensures forall k :: from + m <= k < |s| ==> !p(s[k])
  {
    assert forall k :: from <= k < |s| ==> s[k] == s[from..][k - from];
  }

  lemma {:induction false} FilterLast<T>(s: seq<T>, p: T -> bool) returns (m: nat)
    requires Filter(s, p) != []
    ensures m < |s| && p(s[m])
    ensures Filter(s, p)[|Filter(s, p)| - 1] == s[m]
    ensures forall k :: m < k < |s| ==> !p(s[k])
  {
    if Filter(s[1..], p) == [] {
      m := 0;
      forall k | 0 < k < |s| ensures !p(s[k]) {
        if p(s[k]) {
          FilterNonEmpty(s[1..], p, k - 1);
        }
      }
    } else {
      var n := FilterLast(s[1..], p);
      m := n + 1;
      assert forall k :: m < k < |s| ==> s[k] == s[1..][k - 1];
    }
  }

  // ---------------------------------------------------------------------------------------
  // Uniqueness of keys
  // ---------------------------------------------------------------------------------------

  ghost predicate UniqueKeys(rows: seq<OffsetRow>) {
    forall i, j :: 0 <= i < j < |rows| ==> KeyOf(rows[i]) != KeyOf(rows[j])
  }

  /** With unique keys, searching again by the key of the last match finds the very row it was
      read from, and it is the last row of its topic and kind. */
  lemma {:induction false} RescanFindsScannedRow(rows: seq<OffsetRow>, topic: string, nodeId: string, kind: string)
    requires UniqueKeys(rows)
    requires ScanResult(rows, topic, nodeId, kind) != []
    ensures var scan := ScanResult(rows, topic, nodeId, kind);
            var last := scan[|scan| - 1];
            var index := IndexOfKey(rows, KeyOf(last));
            && 0 <= index < |rows|
            && rows[index] == last
            && forall k :: index < k < |rows| ==> !(rows[k].topic == topic && rows[k].kind == kind)
  {
    var j := ScanLast(rows, topic, nodeId, kind);
    var index := IndexOfKey(rows, KeyOf(rows[j]));
    assert KeyOf(rows[index]) == KeyOf(rows[j]);
    assert index == j;
  }
}
