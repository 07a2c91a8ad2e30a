/** A public topic: an append-only log with a window of recent records, a head buffer, and a
    reload at start (topics/topic_public/topic_public_definition.cpp). */
module TopicLogs {
  import opened Numbers
  import opened Sequences
  import opened RecordCodec
  import opened TopicFiles

  datatype Message = Message(keys: Text, headers: Text, value: Text)

  /** The program throws when the file exists but no record of it is in memory. */
  datatype LogError = TopicNotLoaded

  datatype LogState = LogState(io: IoState, recent: seq<Record>, oldest: seq<Record>, capacity: nat) {
    ghost predicate Valid() {
      io.Valid() && (!io.open ==> io.flushed == |EncodeAll(io.log)|)
    }
  }

  datatype LogOp =
    | Insert(message: Message, now: uint64, openable: bool, flushTo: nat)
    | Restart

  // ---------------------------------------------------------------------------------------
  // The operations as functions
  // ---------------------------------------------------------------------------------------

  function Last(records: seq<Record>): Record
    requires records != []
  {
    records[|records| - 1]
  }

  /** The offset that the next record gets. */
  function NextNumber(s: LogState): Result<uint128, LogError> {
    if s.recent != [] then Ok(Next(Last(s.recent).offset))
    else if s.io.exists_ then Err(TopicNotLoaded)
    else Ok(0)
  }

  function NewRecord(message: Message, now: uint64, offset: uint128): Record {
    Record(offset, now, message.keys, message.headers, 0, message.value)
  }

  /** Append to the window, then drop the front if it is too long. */
  function Pushed(recent: seq<Record>, record: Record, capacity: nat): seq<Record> {
    var longer := recent + [record];
    if |longer| > capacity then longer[1..] else longer
  }

  /** A topic object made over a file. */
  function Loaded(io: IoState, capacity: nat): (s: LogState)
    requires io.Valid()
    ensures s.io == io.(cache := s.io.cache)
  {
    if !io.exists_ then LogState(io, [], [], capacity)
    else
      IoStepKeepsValid(io, ReadTail(capacity));
      var afterTail := IoStep(io, ReadTail(capacity));
      LogState(IoStep(afterTail, ReadHead(capacity)), IoAnswer(io, ReadTail(capacity)),
               IoAnswer(afterTail, ReadHead(capacity)), capacity)
  }

  /** The process stops, which closes the file, and a new topic object is made over it. */
  function Restarted(s: LogState): (after: LogState)
    requires s.io.Valid()
    ensures s.Valid() ==> after.Valid()
  {
    IoStepKeepsValid(s.io, Close);
    Loaded(IoStep(s.io, Close).(cache := []), s.capacity)
  }

  function LogStep(s: LogState, op: LogOp): LogState
    requires s.io.Valid()
  {
    match op
    case Insert(message, now, openable, flushTo) =>
      (match NextNumber(s)
       case Err(_) => s
       case Ok(offset) =>
         var record := NewRecord(message, now, offset);
         s.(io := IoStep(s.io, Write(record, openable, flushTo)), recent := Pushed(s.recent, record, s.capacity)))
    case Restart => Restarted(s)
  }

  lemma {:induction false} LogStepKeepsValid(s: LogState, op: LogOp)
    requires s.Valid()
    ensures LogStep(s, op).Valid()
  {
    if op.Restart? {
      IoStepKeepsValid(s.io, Close);
      var closed := IoStep(s.io, Close).(cache := []);
      IoStepKeepsValid(closed, ReadTail(s.capacity));
      IoStepKeepsValid(IoStep(closed, ReadTail(s.capacity)), ReadHead(s.capacity));
    } else if NextNumber(s).Ok? {
      IoStepKeepsValid(s.io, Write(NewRecord(op.message, op.now, NextNumber(s).value), op.openable, op.flushTo));
    }
  }

  ghost function LogRun(s: LogState, ops: seq<LogOp>): (after: LogState)
    requires s.Valid()
    ensures after.Valid()
  {
    if ops == [] then s
    else
      var before := LogRun(s, ops[..|ops| - 1]);
      LogStepKeepsValid(before, ops[|ops| - 1]);
      LogStep(before, ops[|ops| - 1])
  }

  // ---------------------------------------------------------------------------------------
  // The topic object
  // ---------------------------------------------------------------------------------------

  class TopicPublicDefinition {
    const bufferSize: nat
    const topicIo: TopicIO
    var recentBuffer: seq<Record>
    var oldestBuffer: seq<Record>

    ghost predicate Valid()
      reads this, topicIo, topicIo.file
    {
      topicIo.Valid()
    }

    ghost function State(): (s: LogState)
      reads this, topicIo, topicIo.file
      requires Valid()
      ensures s.io.Valid()
    {
      LogState(topicIo.State(), recentBuffer, oldestBuffer, bufferSize)
    }

    constructor (bufferSize: nat, file: LogFile)
      requires file.Valid()
      ensures Valid() && fresh(topicIo) && topicIo.file == file
      ensures State() == Loaded(IoState(file.log, file.exists_, false, file.flushed, []), bufferSize)
    {
      this.bufferSize := bufferSize;
      recentBuffer, oldestBuffer := [], [];
      topicIo := new TopicIO(file);
      new;
      InitialLoadBufferFromDisk();
    }

    method InitialLoadBufferFromDisk()
      requires Valid() && recentBuffer == [] && oldestBuffer == []
      modifies this, topicIo`vectorAllData
      ensures Valid() && State() == Loaded(old(topicIo.State()), bufferSize)
    {
      var found := topicIo.FileExists();
      if found {
        recentBuffer := topicIo.ReadRecordsFromTail(bufferSize);
        oldestBuffer := topicIo.ReadRecordsFromHead(bufferSize);
      }
    }

    method GetAutoIncrementedOffset() returns (offset: Result<uint128, LogError>)
      requires Valid()
      ensures offset == NextNumber(State())
    {
      if recentBuffer == [] {
        var found := topicIo.FileExists();
        if found {
          return Err(TopicNotLoaded);
        }
        return Ok(0);
      }
      return Ok(Next(recentBuffer[|recentBuffer| - 1].offset));
    }

    /** `now` is the clock; see `IoOp` for the other two inputs. */
    method Insert(data: Message, now: uint64, openable: bool, flushTo: nat) returns (result: Result<(), LogError>)
      requires Valid()
      modifies this`recentBuffer, topicIo`sharedFileIsOpen, topicIo.file
      ensures Valid() && State() == LogStep(old(State()), LogOp.Insert(data, now, openable, flushTo))
      ensures result.Ok? <==> NextNumber(old(State())).Ok?
      ensures result.Ok? && bufferSize >= 1 ==>
        && recentBuffer != []
        && var stored := recentBuffer[|recentBuffer| - 1];
        && NextNumber(old(State())) == Ok(stored.offset) && stored.timestamp == now
        && stored.keys == data.keys && stored.headers == data.headers
        && stored.flags == 0 && stored.value == data.value
      ensures result.Ok? && (old(topicIo.sharedFileIsOpen) || openable) ==>
        && |topicIo.file.log| == |old(topicIo.file.log)| + 1
        && topicIo.file.log[..|old(topicIo.file.log)|] == old(topicIo.file.log)
        && var stored := topicIo.file.log[|old(topicIo.file.log)|];
        && NextNumber(old(State())) == Ok(stored.offset) && stored.timestamp == now
        && stored.keys == data.keys && stored.headers == data.headers
        && stored.flags == 0 && stored.value == data.value
    {
      var offset := GetAutoIncrementedOffset();
      if offset.Err? {
        return Err(offset.error);
      }
      var record := Record(offset.value, now, data.keys, data.headers, 0, data.value);
      topicIo.WriteToDisk(record, openable, flushTo);
      recentBuffer := recentBuffer + [record];
      if |recentBuffer| > bufferSize {
        recentBuffer := recentBuffer[1..];
      }
      return Ok(());
    }
  }

  // ---------------------------------------------------------------------------------------
  // Reload
  // ---------------------------------------------------------------------------------------

  /** A topic as its constructor leaves it: the last records newest first, the first records in
      order, and the file closed. */
  ghost predicate JustLoaded(s: LogState) {
    && s.Valid() && !s.io.open
    && s.recent == Reverse(LastN(s.io.log, s.capacity))
    && s.oldest == FirstN(s.io.log, s.capacity)
  }

  /** Making a topic object over a closed file, or over none, loads it and changes no record. */
  lemma {:induction false} ConstructorLoads(io: IoState, capacity: nat)
    requires io.Valid() && !io.open && io.cache == [] && io.flushed == |EncodeAll(io.log)|
    ensures JustLoaded(Loaded(io, capacity))
    ensures Loaded(io, capacity).io.log == io.log && Loaded(io, capacity).io.exists_ == io.exists_
  {
    if io.exists_ {
      TailThenHead(io, capacity);
    } else {
      assert Reverse(LastN(io.log, capacity)) == [];
    }
  }

  /** A restart keeps the log, and loads the last records newest first and the first records in
      order. */
  lemma {:induction false} RestartLoads(s: LogState)
    requires s.Valid()
    ensures JustLoaded(Restarted(s)) && Restarted(s).capacity == s.capacity
    ensures Restarted(s).io.log == s.io.log && Restarted(s).io.exists_ == s.io.exists_
  {
    ConstructorLoads(IoStep(s.io, Close).(cache := []), s.capacity);
  }

  /** What a load leaves, record by record: the window has the last min(n, bufferSize) records newest
      first, the head buffer the first min(n, bufferSize) in order. */
  lemma {:induction false} LoadedBuffers(s: LogState)
    requires JustLoaded(s)
    ensures var n := |s.io.log|;
            && |s.recent| == |s.oldest| == (if n < s.capacity then n else s.capacity)
            && (forall k :: 0 <= k < |s.recent| ==> s.recent[k] == s.io.log[n - 1 - k])
            && (forall k :: 0 <= k < |s.oldest| ==> s.oldest[k] == s.io.log[k])
  {
    FirstNMeans(s.io.log, s.capacity);
    ReversedLastNMeans(s.io.log, s.capacity);
  }

  /** What an insert stores, field by field: the window ends in the message, its clock reading and its
      number; and so does the log, when the file is open or can be opened. */
  lemma {:induction false} InsertStores(s: LogState, op: LogOp)
    requires s.Valid() && op.Insert? && NextNumber(s).Ok?
    ensures var after := LogStep(s, op);
            && (s.capacity >= 1 ==>
                  && after.recent != []
                  && var stored := after.recent[|after.recent| - 1];
                  && stored.offset == NextNumber(s).value && stored.timestamp == op.now
                  && stored.keys == op.message.keys && stored.headers == op.message.headers
                  && stored.flags == 0 && stored.value == op.message.value)
            && (s.io.open || op.openable ==>
                  && |after.io.log| == |s.io.log| + 1 && after.io.log[..|s.io.log|] == s.io.log
                  && var stored := after.io.log[|s.io.log|];
                  && stored.offset == NextNumber(s).value && stored.timestamp == op.now
                  && stored.keys == op.message.keys && stored.headers == op.message.headers
                  && stored.flags == 0 && stored.value == op.message.value)
  {
    InsertEffect(s, op);
  }

  /** The inserts of a run whose records reached the file. */
  ghost function WrittenOps(s: LogState, ops: seq<LogOp>): (written: seq<LogOp>)
    requires s.Valid()
    ensures forall i :: 0 <= i < |written| ==> written[i].Insert?
  {
    if ops == [] then []
    else
      var front, last := ops[..|ops| - 1], ops[|ops| - 1];
      WrittenOps(s, front) + if Writes(LogRun(s, front), last) then [last] else []
  }

  lemma {:induction false} StepWrites(s: LogState, op: LogOp)
    requires s.Valid()
    ensures var log, after := s.io.log, LogStep(s, op).io.log;
            if Writes(s, op) then
              && |after| == |log| + 1 && after[..|log|] == log
              && after[|log|].timestamp == op.now
              && after[|log|].keys == op.message.keys && after[|log|].headers == op.message.headers
              && after[|log|].flags == 0 && after[|log|].value == op.message.value
            else after == log
  {
    if op.Restart? {
      RestartLoads(s);
    } else if NextNumber(s).Ok? {
      InsertEffect(s, op);
    }
  }

  /** Nothing is lost, reordered or changed: over any run of inserts and restarts the log grows by
      exactly the messages that were written, field by field, in order. */
  lemma {:induction false} LogHoldsMessages(s: LogState, ops: seq<LogOp>)
    requires s.Valid()
    ensures var before, after, written := s.io.log, LogRun(s, ops).io.log, WrittenOps(s, ops);
            && |after| == |before| + |written| && after[..|before|] == before
            && forall i :: 0 <= i < |written| ==>
                 var record := after[|before| + i];
                 && record.timestamp == written[i].now
                 && record.keys == written[i].message.keys && record.headers == written[i].message.headers
                 && record.flags == 0 && record.value == written[i].message.value
  {
    if ops != [] {
      var front, last := ops[..|ops| - 1], ops[|ops| - 1];
      LogHoldsMessages(s, front);
      StepWrites(LogRun(s, front), last);
      var mid, after := LogRun(s, front).io.log, LogRun(s, ops).io.log;
      assert forall i :: 0 <= i < |mid| ==> after[i] == mid[i] by {
        assert after[..|mid|] == mid;
      }
      assert after[..|s.io.log|] == mid[..|s.io.log|];
    }
  }

  // ---------------------------------------------------------------------------------------
  // No gaps
  // ---------------------------------------------------------------------------------------

  ghost predicate HasOffsetIn(log: seq<Record>, o: int) {
    exists k :: 0 <= k < |log| && log[k].offset == o
  }

  /** With every offset on disk, every smaller one is on disk too. */
  ghost predicate InitialSegment(log: seq<Record>) {
    forall k, o :: 0 <= k < |log| && 0 <= o < log[k].offset ==> HasOffsetIn(log, o)
  }

  /** The record at log position i has offset at most i. */
  ghost predicate OffsetsBounded(log: seq<Record>) {
    forall k :: 0 <= k < |log| ==> log[k].offset <= k
  }

  /** The offset continues what is on disk: it is 0, or its predecessor is there. */
  ghost predicate Follows(log: seq<Record>, offset: int) {
    offset == 0 || HasOffsetIn(log, offset - 1)
  }

  /** One more record keeps the offsets gap-free if and only if its offset continues them; it then
      keeps them at most at their positions as well. */
  lemma {:induction false} AppendKeepsSegment(log: seq<Record>, record: Record)
    requires InitialSegment(log)
    ensures InitialSegment(log + [record]) <==> Follows(log, record.offset)
    ensures OffsetsBounded(log) && Follows(log, record.offset) ==> OffsetsBounded(log + [record])
  {
    var longer := log + [record];
    forall o: int | HasOffsetIn(log, o) ensures HasOffsetIn(longer, o) {
      var k :| 0 <= k < |log| && log[k].offset == o;
      assert longer[k].offset == o;
    }
    assert longer[|log|].offset == record.offset;
    if Follows(log, record.offset) && record.offset != 0 {
      var k :| 0 <= k < |log| && log[k].offset == record.offset - 1;
      assert HasOffsetIn(log, log[k].offset);
    }
    if InitialSegment(longer) && record.offset != 0 {
      assert HasOffsetIn(longer, record.offset - 1);
      var k :| 0 <= k < |longer| && longer[k].offset == record.offset - 1;
      assert log[k].offset == record.offset - 1;
    }
  }

  /** What an accepted insert does to a topic. */
  ghost predicate Accepted(s: LogState, op: LogOp, after: LogState) {
    && op.Insert? && NextNumber(s).Ok?
    && var record := NewRecord(op.message, op.now, NextNumber(s).value);
    && after.Valid()
    && after.recent == Pushed(s.recent, record, s.capacity)
    && after.io.log == s.io.log + (if s.io.open || op.openable then [record] else [])
    && after.io.open == (s.io.open || op.openable)
    && after.oldest == s.oldest && after.capacity == s.capacity
  }

  lemma {:induction false} InsertEffect(s: LogState, op: LogOp)
    requires s.Valid() && op.Insert? && NextNumber(s).Ok?
    ensures Accepted(s, op, LogStep(s, op))
  {
    LogStepKeepsValid(s, op);
  }

  /** One more than an offset on disk continues the disk. */
  lemma {:induction false} NextFollows(log: seq<Record>, record: Record)
    requires record in log
    ensures Follows(log, Next(record.offset))
  {
    var k :| 0 <= k < |log| && log[k] == record;
    assert log[k].offset == record.offset;
  }

  /** The insert gets a number and its record reaches the file. */
  predicate Writes(s: LogState, op: LogOp) {
    op.Insert? && NextNumber(s).Ok? && (s.io.open || op.openable)
  }

  /** The insert opens the file and writes. */
  predicate Opens(s: LogState, op: LogOp) {
    Writes(s, op) && !s.io.open
  }

  /** A step keeps the disk gap-free if and only if what it writes, if anything, continues it. */
  lemma {:induction false} StepKeepsSegment(s: LogState, op: LogOp)
    requires s.Valid() && InitialSegment(s.io.log)
    ensures var after := LogStep(s, op);
            && (InitialSegment(after.io.log) <==> (Writes(s, op) ==> Follows(s.io.log, NextNumber(s).value)))
            && (OffsetsBounded(s.io.log) && InitialSegment(after.io.log) ==> OffsetsBounded(after.io.log))
  {
    if op.Restart? {
      RestartLoads(s);
    } else if Writes(s, op) {
      var record := NewRecord(op.message, op.now, NextNumber(s).value);
      assert LogStep(s, op).io.log == s.io.log + [record];
      AppendKeepsSegment(s.io.log, record);
    }
  }

  /** While the file is open the number counted up from is on disk. */
  ghost predicate WindowWritten(s: LogState) {
    s.io.open && s.recent != [] ==> Last(s.recent) in s.io.log
  }

  lemma {:induction false} StepKeepsWindowWritten(s: LogState, op: LogOp)
    requires s.Valid() && WindowWritten(s)
    ensures WindowWritten(LogStep(s, op))
    ensures Writes(s, op) && s.io.open ==> Follows(s.io.log, NextNumber(s).value)
  {
    if op.Restart? {
      RestartLoads(s);
    } else if NextNumber(s).Ok? {
      InsertEffect(s, op);
      InsertKeepsWindowWritten(s, op, LogStep(s, op));
      if s.io.open && s.recent != [] {
        NextFollows(s.io.log, Last(s.recent));
      }
    }
  }

  lemma {:induction false} InsertKeepsWindowWritten(s: LogState, op: LogOp, after: LogState)
    requires WindowWritten(s) && Accepted(s, op, after)
    ensures WindowWritten(after)
  {
    PushedEnds(s.recent, NewRecord(op.message, op.now, NextNumber(s).value), s.capacity);
  }

  lemma {:induction false} PushedEnds(recent: seq<Record>, record: Record, capacity: nat)
    ensures var pushed := Pushed(recent, record, capacity); pushed != [] ==> Last(pushed) == record
  {
  }

  /** The disk is gap-free after every step of the run. */
  ghost predicate StaysGapFree(s: LogState, ops: seq<LogOp>)
    requires s.Valid()
  {
    && InitialSegment(LogRun(s, ops).io.log)
    && (ops != [] ==> StaysGapFree(s, ops[..|ops| - 1]))
  }

  /** Every insert of the run that opens the file has a number that continues the disk. */
  ghost predicate OpensContinue(s: LogState, ops: seq<LogOp>)
    requires s.Valid()
  {
    ops != [] ==>
      var front, last := ops[..|ops| - 1], ops[|ops| - 1];
      var before := LogRun(s, front);
      && OpensContinue(s, front)
      && (Opens(before, last) ==> Follows(before.io.log, NextNumber(before).value))
  }

  /** No gaps, exactly. Over every sequence of inserts and restarts, refused writes included, the
      offsets on disk stay a gap-free initial segment if and only if every insert that opens the
      file has number 0 or one whose predecessor is on disk; and then none exceeds its position.
      Inserts into an open file never leave a gap. */
  lemma {:induction false} DiskHasNoGaps(s: LogState, ops: seq<LogOp>)
    requires s.Valid() && InitialSegment(s.io.log) && WindowWritten(s)
    ensures WindowWritten(LogRun(s, ops))
    ensures StaysGapFree(s, ops) <==> OpensContinue(s, ops)
    ensures OffsetsBounded(s.io.log) && StaysGapFree(s, ops) ==> OffsetsBounded(LogRun(s, ops).io.log)
  {
    if ops != [] {
      var front, last := ops[..|ops| - 1], ops[|ops| - 1];
      DiskHasNoGaps(s, front);
      StepKeepsWindowWritten(LogRun(s, front), last);
      if StaysGapFree(s, front) {
        StepKeepsSegment(LogRun(s, front), last);
      }
    }
  }

  /** The number counted up from is the offset of a record on disk. */
  ghost predicate Anchored(s: LogState) {
    if s.recent == [] then s.io.exists_ || s.io.log == [] else Last(s.recent) in s.io.log
  }

  /** No insert that gets a number finds the file closed and impossible to open. */
  ghost predicate AllWritten(s: LogState, ops: seq<LogOp>)
    requires s.Valid()
  {
    ops != [] ==>
      var front, last := ops[..|ops| - 1], ops[|ops| - 1];
      var before := LogRun(s, front);
      && AllWritten(s, front)
      && (last.Insert? && NextNumber(before).Ok? ==> last.openable || before.io.open)
  }

  lemma {:induction false} StepKeepsAnchored(s: LogState, op: LogOp)
    requires s.Valid() && Anchored(s)
    requires op.Insert? && NextNumber(s).Ok? ==> op.openable || s.io.open
    ensures Anchored(LogStep(s, op))
    ensures Writes(s, op) ==> Follows(s.io.log, NextNumber(s).value)
  {
    if op.Restart? {
      RestartLoads(s);
      LoadedIsAnchored(LogStep(s, op));
    } else if NextNumber(s).Ok? {
      InsertEffect(s, op);
      PushedEnds(s.recent, NewRecord(op.message, op.now, NextNumber(s).value), s.capacity);
      if s.recent != [] {
        NextFollows(s.io.log, Last(s.recent));
      }
    }
  }

  lemma {:induction false} LoadedIsAnchored(s: LogState)
    requires JustLoaded(s)
    ensures Anchored(s)
  {
    var loaded := LastN(s.io.log, s.capacity);
    if loaded != [] {
      assert Last(Reverse(loaded)) == loaded[0];
    }
  }

  /** In particular there is never a gap when no write is refused, although reloading reverses the
      window. */
  lemma {:induction false} NoGapsWhenWritten(s: LogState, ops: seq<LogOp>)
    requires s.Valid() && Anchored(s) && AllWritten(s, ops)
    ensures Anchored(LogRun(s, ops)) && OpensContinue(s, ops)
  {
    if ops != [] {
      var front := ops[..|ops| - 1];
      NoGapsWhenWritten(s, front);
      StepKeepsAnchored(LogRun(s, front), ops[|ops| - 1]);
    }
  }

  /** Whatever is inserted, refused or reloaded, neither buffer exceeds the capacity and the head
      buffer stays a prefix of the log. */
  lemma {:induction false} BuffersStayInBounds(s: LogState, ops: seq<LogOp>)
    requires s.Valid() && |s.recent| <= s.capacity && |s.oldest| <= s.capacity && s.oldest <= s.io.log
    ensures |LogRun(s, ops).recent| <= s.capacity && |LogRun(s, ops).oldest| <= s.capacity
    ensures LogRun(s, ops).oldest <= LogRun(s, ops).io.log
    ensures LogRun(s, ops).capacity == s.capacity && s.io.log <= LogRun(s, ops).io.log
  {
    if ops != [] {
      BuffersStayInBounds(s, ops[..|ops| - 1]);
      StepKeepsBounds(LogRun(s, ops[..|ops| - 1]), ops[|ops| - 1]);
    }
  }

  lemma {:induction false} StepKeepsBounds(s: LogState, op: LogOp)
    requires s.Valid() && |s.recent| <= s.capacity && |s.oldest| <= s.capacity && s.oldest <= s.io.log
    ensures var after := LogStep(s, op);
            && |after.recent| <= after.capacity == s.capacity && |after.oldest| <= after.capacity
            && after.oldest <= after.io.log && s.io.log <= after.io.log
  {
    if op.Restart? {
      RestartLoads(s);
      LoadedBuffers(LogStep(s, op));
    } else if NextNumber(s).Ok? {
      InsertEffect(s, op);
    }
  }
}
