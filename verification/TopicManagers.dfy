/** Offset allocation and topic creation over the shared row table
    (managers/topic_manager.cpp). */
module TopicManagers {
  import opened Numbers
  import opened Sequences
  import opened OffsetTables

  /** The two rows that creating a topic appends. */
  function CreationRows(nodeId: string, topic: string, partitionCount: int, now: uint64): seq<OffsetRow> {
    var partition := NarrowToUint8(partitionCount);
    [OffsetRow(0, now, topic, nodeId, partition, START), OffsetRow(0, now, topic, nodeId, partition, END)]
  }

  /** A row with its offset advanced by one. */
  function Bumped(row: OffsetRow): OffsetRow {
    row.(offset := Next(row.offset))
  }

  /** One whole allocation: the new table and the number returned. */
  function Allocate(rows: seq<OffsetRow>, nodeId: string, topic: string, partitionCount: int, now: uint64)
    : (seq<OffsetRow>, uint128)
  {
    var found := ScanResult(rows, topic, nodeId, END);
    if found == [] then
      (rows + CreationRows(nodeId, topic, partitionCount, now), 0)
    else
      var row := Bumped(found[|found| - 1]);
      (Overwrite(rows, IndexOfKey(rows, KeyOf(row)), row), row.offset)
  }

  /** The manager with the table it shares. `nodeId` is set once, before anything runs. */
  class TopicManager {
    const nodeId: string
    const table: OffsetTable

    constructor (nodeId: string, table: OffsetTable)
      ensures this.nodeId == nodeId && this.table == table
    {
      this.nodeId := nodeId;
      this.table := table;
    }

    method CheckTopicExists(topic: string) returns (exists_: bool)
      ensures exists_ <==> exists k :: 0 <= k < |table.rows| && table.rows[k].topic == topic
    {
      var found := table.SearchByNameTypeReturn(topic);
      ViewIsEmptyIffAbsent(table.rows, topic);
      exists_ := found != [];
    }

    /** The answer is always false; existence is not checked. */
    method CreateTopic(topic: string, partitionCount: int, now: uint64) returns (created: bool)
      modifies table
      ensures !created
      ensures table.rows == old(table.rows) + CreationRows(nodeId, topic, partitionCount, now)
      ensures |table.rows| == |old(table.rows)| + 2 && table.rows[..|old(table.rows)|] == old(table.rows)
      ensures forall k :: |old(table.rows)| <= k < |table.rows| ==>
        && table.rows[k].offset == 0 && table.rows[k].timestamp == now
        && table.rows[k].topic == topic && table.rows[k].nodeId == nodeId
        && (0 <= partitionCount < 256 ==> table.rows[k].partition == partitionCount)
        && (partitionCount - table.rows[k].partition) % 256 == 0
        && table.rows[k].kind == if k == |old(table.rows)| then "start" else "end"
    {
      var partition := NarrowToUint8(partitionCount);
      table.Insert(OffsetRow(0, now, topic, nodeId, partition, START));
      table.Insert(OffsetRow(0, now, topic, nodeId, partition, END));
      assert table.rows == old(table.rows) + CreationRows(nodeId, topic, partitionCount, now);
      return false;
    }

    /** `partitionCount` is the configured default that creation falls back on. */
    method GetNewestOffsetWithRoundRobin(topic: string, partitionCount: int, now: uint64) returns (offset: uint128)
      requires |table.rows| <= INT_MAX
      modifies table
      ensures (table.rows, offset) == Allocate(old(table.rows), nodeId, topic, partitionCount, now)
      ensures (forall k :: 0 <= k < |old(table.rows)| ==>
                 !(old(table.rows)[k].topic == topic && old(table.rows)[k].nodeId == nodeId
                   && old(table.rows)[k].kind == "end")) ==>
                offset == 0 && |table.rows| == |old(table.rows)| + 2
    {
      var found := table.SearchByCriteriaVectorTypeReturn(topic, nodeId, END);
      if found == [] {
        var _ := CreateTopic(topic, partitionCount, now);
        return 0;
      }
      var value := found[|found| - 1];
      var lastOffset := Next(value.offset);
      value := value.(offset := lastOffset);
      var index := table.SearchForIndex(value);
      table.Update(index, value);
      return lastOffset;
    }
  }

  /** A partition count below 256 is the partition number that the created rows are found by: on a
      table without such an end row the search returns the new one. */
  lemma {:induction false} CreatedIsFound(
    rows: seq<OffsetRow>, nodeId: string, topic: string, partitionCount: uint8, now: uint64)
    requires forall k :: 0 <= k < |rows| ==>
               !(rows[k].topic == topic && rows[k].nodeId == nodeId
                 && rows[k].partition == partitionCount && rows[k].kind == "end")
    ensures var after := rows + CreationRows(nodeId, topic, partitionCount, now);
            IndexOfKey(after, Key(topic, nodeId, partitionCount, "end")) == |rows| + 1
  {
    var after := rows + CreationRows(nodeId, topic, partitionCount, now);
    assert KeyOf(after[|rows| + 1]) == Key(topic, nodeId, partitionCount, "end");
    assert |"start"| != |"end"|;
    assert forall k :: 0 <= k < |rows| ==> after[k] == rows[k];
  }

  lemma {:induction false} ViewIsEmptyIffAbsent(rows: seq<OffsetRow>, topic: string)
    ensures View(rows, topic) == [] <==> forall k :: 0 <= k < |rows| ==> rows[k].topic != topic
  {
    var p := HasTopic(topic);
    if k :| 0 <= k < |rows| && p(rows[k]) {
      FilterNonEmpty(rows, p, k);
    } else {
      assert forall k :: 0 <= k < |rows| ==> !p(rows[k]);
      FilterNone(rows, p);
    }
  }
}
