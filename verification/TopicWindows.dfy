/** What a topic's window and numbering look like during one session, that is, between two
    reloads. */
module TopicWindows {
  import opened Numbers
  import opened Sequences
  import opened RecordCodec
  import opened TopicFiles
  import opened TopicLogs

  predicate OnlyInserts(ops: seq<LogOp>) {
    forall i :: 0 <= i < |ops| ==> ops[i].Insert?
  }

  /** The records of a session whose first record is numbered `base`. */
  function SessionRecords(base: nat, ops: seq<LogOp>): (records: seq<Record>)
    requires OnlyInserts(ops)
    ensures |records| == |ops|
    ensures forall i :: 0 <= i < |ops| ==>
              records[i] == NewRecord(ops[i].message, ops[i].now, (base + i) % TWO_TO_THE_128)
  {
    seq(|ops|, i requires 0 <= i < |ops| => NewRecord(ops[i].message, ops[i].now, (base + i) % TWO_TO_THE_128))
  }

  /** The position of the first insert that could open the file. */
  function FirstOpenable(ops: seq<LogOp>): (k: nat)
    requires OnlyInserts(ops)
    ensures k <= |ops|
    ensures forall i :: 0 <= i < k ==> !ops[i].openable
    ensures k < |ops| ==> ops[k].openable
  {
    if ops == [] then 0
    else
      var k := FirstOpenable(ops[..|ops| - 1]);
      if k < |ops| - 1 || ops[|ops| - 1].openable then k else |ops|
  }

  lemma {:induction false} PushKeepsSuffix(all: seq<Record>, record: Record, capacity: nat)
    ensures Pushed(LastN(all, capacity), record, capacity) == LastN(all + [record], capacity)
  {
  }

  /** The part of a session's records that reaches the file. */
  function WrittenPart(open: bool, records: seq<Record>, ops: seq<LogOp>): seq<Record>
    requires OnlyInserts(ops) && |records| == |ops|
  {
    if open then records else records[FirstOpenable(ops)..]
  }

  /** How a session that began in `s` with number `base` stands in `end`: the window is the last
      `capacity` of the old window followed by the new records, the log has grown by the records
      from the first one that could open the file, and numbering goes on. */
  ghost predicate SessionAt(s: LogState, base: uint128, ops: seq<LogOp>, end: LogState)
    requires OnlyInserts(ops)
  {
    var records := SessionRecords(base, ops);
    && end.recent == LastN(s.recent + records, s.capacity)
    && end.io.log == s.io.log + WrittenPart(s.io.open, records, ops)
    && end.io.open == (s.io.open || FirstOpenable(ops) < |ops|)
    && NextNumber(end) == Ok((base + |ops|) % TWO_TO_THE_128)
    && end.oldest == s.oldest && end.capacity == s.capacity
  }

  lemma {:induction false} SessionStart(s: LogState, base: uint128)
    requires |s.recent| <= s.capacity && NextNumber(s) == Ok(base)
    ensures SessionAt(s, base, [], s)
  {
    NoRecords(base, s.io.open);
    NothingAppended(s.recent, s.capacity);
    NothingAppended(s.io.log, |s.io.log|);
  }

  lemma {:induction false} NoRecords(base: uint128, open: bool)
    ensures var none: seq<LogOp> := [];
            && SessionRecords(base, none) == []
            && FirstOpenable(none) == 0
            && WrittenPart(open, [], none) == []
            && (base + |none|) % TWO_TO_THE_128 == base
  {
    SmallRemainder(base, TWO_TO_THE_128);
  }

  lemma {:induction false} NothingAppended(records: seq<Record>, capacity: nat)
    requires |records| <= capacity
    ensures records + [] == records && LastN(records + [], capacity) == records
  {
  }

  lemma {:induction false} Session(s: LogState, base: uint128, ops: seq<LogOp>)
    requires s.Valid() && s.capacity >= 1 && |s.recent| <= s.capacity
    requires NextNumber(s) == Ok(base) && OnlyInserts(ops)
    ensures SessionAt(s, base, ops, LogRun(s, ops))
  {
    if ops == [] {
      SessionStart(s, base);
    } else {
      var front, last := ops[..|ops| - 1], ops[|ops| - 1];
      Session(s, base, front);
      assert front + [last] == ops;
      InsertEffect(LogRun(s, front), last);
      SessionStep(s, base, front, last, LogRun(s, front), LogRun(s, ops));
    }
  }

  lemma {:induction false} SessionStep(
    s: LogState, base: uint128, front: seq<LogOp>, last: LogOp, mid: LogState, end: LogState)
    requires s.capacity >= 1 && OnlyInserts(front) && last.Insert?
    requires SessionAt(s, base, front, mid) && Accepted(mid, last, end)
    ensures SessionAt(s, base, front + [last], end)
  {
    var records := SessionRecords(base, front);
    var record := NewRecord(last.message, last.now, (base + |front|) % TWO_TO_THE_128);
    assert SessionRecords(base, front + [last]) == records + [record] by {
      SessionSnoc(base, front, last);
    }
    WindowPart(s, base, front, last, mid, end, records, record);
    LogPart(s.io.log, s.io.open, front, last, mid, end, records, record);
  }

  lemma {:induction false} LogPart(
    log: seq<Record>, open: bool, front: seq<LogOp>, last: LogOp, mid: LogState, end: LogState,
    records: seq<Record>, record: Record)
    requires OnlyInserts(front) && last.Insert? && |records| == |front|
    requires mid.io.log == log + WrittenPart(open, records, front)
    requires mid.io.open == (open || FirstOpenable(front) < |front|) && Accepted(mid, last, end)
    requires NextNumber(mid).Ok? && record == NewRecord(last.message, last.now, NextNumber(mid).value)
    ensures end.io.log == log + WrittenPart(open, records + [record], front + [last])
    ensures end.io.open == (open || FirstOpenable(front + [last]) < |front + [last]|)
  {
    LogPartStep(log, open, records, record, front, last);
  }

  lemma {:induction false} WindowPart(
    s: LogState, base: uint128, front: seq<LogOp>, last: LogOp, mid: LogState, end: LogState,
    records: seq<Record>, record: Record)
    requires s.capacity >= 1 && OnlyInserts(front) && last.Insert?
    requires mid.recent == LastN(s.recent + records, s.capacity) && mid.capacity == s.capacity
    requires NextNumber(mid) == Ok((base + |front|) % TWO_TO_THE_128) && Accepted(mid, last, end)
    requires record == NewRecord(last.message, last.now, (base + |front|) % TWO_TO_THE_128)
    ensures end.recent == LastN(s.recent + (records + [record]), s.capacity)
    ensures NextNumber(end) == Ok((base + |front| + 1) % TWO_TO_THE_128)
  {
    WindowStep(s.recent, records, record, s.capacity);
    NumberStep(end, base + |front|, record);
  }

  lemma {:induction false} NumberStep(end: LogState, n: nat, record: Record)
    requires end.recent != [] && Last(end.recent) == record && record.offset == n % TWO_TO_THE_128
    ensures NextNumber(end) == Ok((n + 1) % TWO_TO_THE_128)
  {
    NextOfModulus(n);
  }

  lemma {:induction false} SessionSnoc(base: nat, front: seq<LogOp>, last: LogOp)
    requires OnlyInserts(front) && last.Insert?
    ensures SessionRecords(base, front + [last])
         == SessionRecords(base, front) + [NewRecord(last.message, last.now, (base + |front|) % TWO_TO_THE_128)]
  {
  }

  lemma {:induction false} WindowStep(old_: seq<Record>, records: seq<Record>, record: Record, capacity: nat)
    requires capacity >= 1
    ensures var window := Pushed(LastN(old_ + records, capacity), record, capacity);
            window == LastN(old_ + (records + [record]), capacity) && window != [] && Last(window) == record
  {
    PushKeepsSuffix(old_ + records, record, capacity);
    Assoc(old_, records, [record]);
  }

  lemma {:induction false} LogPartStep(
    log: seq<Record>, open: bool, records: seq<Record>, record: Record, front: seq<LogOp>, last: LogOp)
    requires OnlyInserts(front) && last.Insert? && |records| == |front|
    ensures var isOpen := open || FirstOpenable(front) < |front|;
            && (log + WrittenPart(open, records, front)) + (if isOpen || last.openable then [record] else [])
            == log + WrittenPart(open, records + [record], front + [last])
            && (isOpen || last.openable <==> open || FirstOpenable(front + [last]) < |front + [last]|)
  {
    WrittenSnoc(open, records, record, front, last);
    Assoc(log, WrittenPart(open, records, front),
          if open || FirstOpenable(front) < |front| || last.openable then [record] else []);
  }

  lemma {:induction false} Assoc(a: seq<Record>, b: seq<Record>, c: seq<Record>)
    ensures (a + b) + c == a + (b + c)
  {
  }

  lemma {:induction false} WrittenSnoc(open: bool, records: seq<Record>, record: Record, front: seq<LogOp>, last: LogOp)
    requires OnlyInserts(front) && last.Insert? && |records| == |front|
    ensures var ops := front + [last];
            && (FirstOpenable(ops) < |ops| <==> FirstOpenable(front) < |front| || last.openable)
            && WrittenPart(open, records + [record], ops)
            == WrittenPart(open, records, front)
               + if open || FirstOpenable(front) < |front| || last.openable then [record] else []
  {
    var ops := front + [last];
    assert ops[..|ops| - 1] == front;
  }

  // ---------------------------------------------------------------------------------------
  // A fresh topic
  // ---------------------------------------------------------------------------------------

  /** A topic object made where no file is. */
  function Fresh(capacity: nat): LogState {
    LogState(IoState([], false, false, 0, []), [], [], capacity)
  }

  lemma {:induction false} FreshSession(capacity: nat, ops: seq<LogOp>)
    requires capacity >= 1 && OnlyInserts(ops)
    ensures var end := LogRun(Fresh(capacity), ops);
            && end.io.log == SessionRecords(0, ops)[FirstOpenable(ops)..]
            && end.recent == LastN(SessionRecords(0, ops), capacity)
  {
    var records := SessionRecords(0, ops);
    Session(Fresh(capacity), 0, ops);
    var written := records[FirstOpenable(ops)..];
    assert [] + written == written && [] + records == records;
  }

  lemma {:induction false} WrittenOffsets(base: nat, ops: seq<LogOp>)
    requires OnlyInserts(ops)
    ensures var d := FirstOpenable(ops);
            var written := SessionRecords(base, ops)[d..];
            forall k :: 0 <= k < |written| ==> written[k].offset == (base + d + k) % TWO_TO_THE_128
  {
    var d := FirstOpenable(ops);
    var written := SessionRecords(base, ops)[d..];
    forall k | 0 <= k < |written| ensures written[k].offset == (base + d + k) % TWO_TO_THE_128 {
      assert written[k] == SessionRecords(base, ops)[d + k];
    }
  }

  /** In a fresh topic the window is always the last `capacity` records accepted, and the log those
      from the first one that could open the file, each with its insertion number as its offset. So
      the window is the end of the log if and only if the first insert could open the file, or
      `capacity` records have been written since one could. */
  lemma {:induction false} FreshWindow(capacity: nat, ops: seq<LogOp>)
    requires capacity >= 1 && OnlyInserts(ops)
    ensures var end, d := LogRun(Fresh(capacity), ops), FirstOpenable(ops);
            && end.recent == LastN(SessionRecords(0, ops), capacity)
            && end.io.log == SessionRecords(0, ops)[d..]
            && (forall i :: 0 <= i < |end.io.log| ==> end.io.log[i].offset == (d + i) % TWO_TO_THE_128)
            && (end.recent == LastN(end.io.log, capacity) <==> d == 0 || |ops| - d >= capacity)
  {
    var end := LogRun(Fresh(capacity), ops);
    FreshSession(capacity, ops);
    FreshBuffers(capacity, ops, end.recent, end.io.log);
  }

  lemma {:induction false} FreshBuffers(capacity: nat, ops: seq<LogOp>, recent: seq<Record>, log: seq<Record>)
    requires capacity >= 1 && OnlyInserts(ops)
    requires recent == LastN(SessionRecords(0, ops), capacity) && log == SessionRecords(0, ops)[FirstOpenable(ops)..]
    ensures var d := FirstOpenable(ops);
            && (forall i :: 0 <= i < |log| ==> log[i].offset == (d + i) % TWO_TO_THE_128)
            && (recent == LastN(log, capacity) <==> d == 0 || |ops| - d >= capacity)
  {
    WrittenOffsets(0, ops);
    WindowAgrees(SessionRecords(0, ops), recent, log, FirstOpenable(ops), capacity);
  }

  lemma {:induction false} WindowAgrees(
    records: seq<Record>, recent: seq<Record>, log: seq<Record>, d: nat, capacity: nat)
    requires capacity >= 1 && d <= |records| && recent == LastN(records, capacity) && log == records[d..]
    ensures recent == LastN(log, capacity) <==> d == 0 || |records| - d >= capacity
  {
    SuffixOfSuffix(records, d, capacity);
  }

  lemma {:induction false} SuffixOfSuffix(all: seq<Record>, d: nat, n: nat)
    requires d <= |all| && n >= 1
    ensures LastN(all, n) == LastN(all[d..], n) <==> d == 0 || |all| - d >= n
  {
    if d == 0 {
      assert all[0..] == all;
    } else if |all| - d < n {
      assert |LastN(all, n)| > |LastN(all[d..], n)|;
    }
  }

  /** The record has the offset and what the insert was given. */
  ghost predicate Carries(record: Record, offset: int, op: LogOp)
    requires op.Insert?
  {
    && record.offset == offset && record.timestamp == op.now
    && record.keys == op.message.keys && record.headers == op.message.headers
    && record.flags == 0 && record.value == op.message.value
  }

  ghost predicate AllCarry(records: seq<Record>, ops: seq<LogOp>)
    requires OnlyInserts(ops)
  {
    |records| == |ops| && forall k :: 0 <= k < |ops| ==> Carries(records[k], k % TWO_TO_THE_128, ops[k])
  }

  lemma {:induction false} SessionCarries(ops: seq<LogOp>)
    requires OnlyInserts(ops)
    ensures AllCarry(SessionRecords(0, ops), ops)
  {
  }

  /** The records from place `d` on, field by field. */
  lemma {:induction false} FieldsFrom(records: seq<Record>, rest: seq<Record>, ops: seq<LogOp>, d: nat)
    requires OnlyInserts(ops) && AllCarry(records, ops) && d <= |records| && rest == records[d..]
    ensures |rest| == |ops| - d
    ensures forall i :: 0 <= i < |rest| ==>
              && rest[i].offset == (d + i) % TWO_TO_THE_128 && rest[i].timestamp == ops[d + i].now
              && rest[i].keys == ops[d + i].message.keys && rest[i].headers == ops[d + i].message.headers
              && rest[i].flags == 0 && rest[i].value == ops[d + i].message.value
  {
    forall i | 0 <= i < |rest| ensures Carries(rest[i], (d + i) % TWO_TO_THE_128, ops[d + i]) {
      var k := d + i;
      assert rest[i] == records[k] && Carries(records[k], k % TWO_TO_THE_128, ops[k]);
    }
  }

  /** Field by field: record i of a fresh topic's log holds the message of insert d + i, where insert d
      is the first that could open the file. */
  lemma {:induction false} FreshMessages(capacity: nat, ops: seq<LogOp>) returns (d: nat)
    requires capacity >= 1 && OnlyInserts(ops)
    ensures d == FirstOpenable(ops)
    ensures var log := LogRun(Fresh(capacity), ops).io.log;
            && |log| == |ops| - d
            && forall i :: 0 <= i < |log| ==>
                 && log[i].offset == (d + i) % TWO_TO_THE_128 && log[i].timestamp == ops[d + i].now
                 && log[i].keys == ops[d + i].message.keys && log[i].headers == ops[d + i].message.headers
                 && log[i].flags == 0 && log[i].value == ops[d + i].message.value
  {
    d := FirstOpenable(ops);
    FreshSession(capacity, ops);
    SessionCarries(ops);
    FieldsFrom(SessionRecords(0, ops), LogRun(Fresh(capacity), ops).io.log, ops, d);
  }

  /** The window of a fresh topic holds the last messages inserted, in order, written or not. */
  lemma {:induction false} FreshWindowMessages(capacity: nat, ops: seq<LogOp>) returns (d: nat)
    requires capacity >= 1 && OnlyInserts(ops)
    ensures d == if |ops| < capacity then 0 else |ops| - capacity
    ensures var recent := LogRun(Fresh(capacity), ops).recent;
            && |recent| == |ops| - d
            && forall i :: 0 <= i < |recent| ==>
                 && recent[i].offset == (d + i) % TWO_TO_THE_128 && recent[i].timestamp == ops[d + i].now
                 && recent[i].keys == ops[d + i].message.keys && recent[i].headers == ops[d + i].message.headers
                 && recent[i].flags == 0 && recent[i].value == ops[d + i].message.value
  {
    d := if |ops| < capacity then 0 else |ops| - capacity;
    FreshSession(capacity, ops);
    SessionCarries(ops);
    LastNFrom(SessionRecords(0, ops), capacity, d);
    FieldsFrom(SessionRecords(0, ops), LogRun(Fresh(capacity), ops).recent, ops, d);
  }

  lemma {:induction false} LastNFrom(records: seq<Record>, n: nat, d: nat)
    requires d == if |records| < n then 0 else |records| - n
    ensures LastN(records, n) == records[d..]
  {
  }

  /** Inserted, restarted and read again: reading everything after a restart gives back the messages in
      order, from the first insert that could open the file. */
  lemma {:induction false} RestartGivesBack(capacity: nat, ops: seq<LogOp>) returns (d: nat)
    requires capacity >= 1 && OnlyInserts(ops)
    ensures d == FirstOpenable(ops)
    ensures var all := IoAnswer(Restarted(LogRun(Fresh(capacity), ops)).io, ReadAll);
            && |all| == |ops| - d
            && forall i :: 0 <= i < |all| ==>
                 && all[i].offset == (d + i) % TWO_TO_THE_128 && all[i].timestamp == ops[d + i].now
                 && all[i].keys == ops[d + i].message.keys && all[i].headers == ops[d + i].message.headers
                 && all[i].flags == 0 && all[i].value == ops[d + i].message.value
  {
    RestartReadsAll(LogRun(Fresh(capacity), ops));
    d := FreshMessages(capacity, ops);
  }

  /** After a restart a read of everything returns the log. */
  lemma {:induction false} RestartReadsAll(s: LogState)
    requires s.Valid()
    ensures Restarted(s).Valid() && IoAnswer(Restarted(s).io, ReadAll) == s.io.log
  {
    IoStepKeepsValid(s.io, Close);
    var closed := IoStep(s.io, Close).(cache := []);
    LoadedReadsAll(closed, s.capacity);
  }

  lemma {:induction false} LoadedReadsAll(io: IoState, capacity: nat)
    requires io.Valid() && io.cache == [] && io.flushed == |EncodeAll(io.log)|
    ensures Loaded(io, capacity).io.Valid() && IoAnswer(Loaded(io, capacity).io, ReadAll) == io.log
  {
    VisibleIsPrefix(io);
    if io.exists_ {
      TailThenHead(io, capacity);
      FillAll(io.(cache := io.log));
    }
  }

  // ---------------------------------------------------------------------------------------
  // Gaps after refused writes
  // ---------------------------------------------------------------------------------------

  /** Records numbered one by one from `first` keep a gap-free log gap-free if and only if there are
      none, or `first` continues the log. */
  lemma {:induction false} SegmentAppend(log: seq<Record>, more: seq<Record>, first: nat)
    requires InitialSegment(log) && forall k :: 0 <= k < |more| ==> more[k].offset == first + k
    ensures InitialSegment(log + more) <==> more == [] || Follows(log, first)
  {
    var longer := log + more;
    assert forall k :: 0 <= k < |more| ==> longer[|log| + k] == more[k];
    forall o: int | HasOffsetIn(log, o) ensures HasOffsetIn(longer, o) {
      var k :| 0 <= k < |log| && log[k].offset == o;
      assert longer[k].offset == o;
    }
    if more == [] {
      assert longer == log;
    } else if Follows(log, first) {
      forall k, o | 0 <= k < |longer| && 0 <= o < longer[k].offset ensures HasOffsetIn(longer, o) {
        if k < |log| || o < first {
          BelowIsThere(log, first, if k < |log| then k else -1, o);
        } else {
          assert longer[|log| + (o - first)].offset == o;
        }
      }
    }
    if more != [] && InitialSegment(longer) {
      SegmentNeeds(log, more, first);
    }
  }

  lemma {:induction false} SegmentNeeds(log: seq<Record>, more: seq<Record>, first: nat)
    requires more != [] && InitialSegment(log + more)
    requires forall k :: 0 <= k < |more| ==> more[k].offset == first + k
    ensures Follows(log, first)
  {
    var longer := log + more;
    assert forall k :: 0 <= k < |more| ==> longer[|log| + k] == more[k];
    if first != 0 {
      assert longer[|log|].offset == first;
      assert HasOffsetIn(longer, first - 1);
      var k :| 0 <= k < |longer| && longer[k].offset == first - 1;
      assert k < |log|;
      assert log[k].offset == first - 1;
    }
  }

  lemma {:induction false} BelowIsThere(log: seq<Record>, first: nat, k: int, o: nat)
    requires InitialSegment(log) && Follows(log, first) && -1 <= k < |log|
    requires if k >= 0 then o < log[k].offset else o < first
    ensures HasOffsetIn(log, o)
  {
    if k < 0 {
      var n :| 0 <= n < |log| && log[n].offset == first - 1;
      assert HasOffsetIn(log, log[n].offset);
    }
  }

  /** A session over a closed file, whose first `d` writes were refused, leaves the disk gap-free if
      and only if nothing was written or number `base` + d continues what was there. */
  lemma {:induction false} SessionSegmentIff(s: LogState, base: uint128, ops: seq<LogOp>)
    requires s.Valid() && s.capacity >= 1 && |s.recent| <= s.capacity && !s.io.open && InitialSegment(s.io.log)
    requires NextNumber(s) == Ok(base) && OnlyInserts(ops) && base + |ops| <= TWO_TO_THE_128
    ensures var d := FirstOpenable(ops);
            InitialSegment(LogRun(s, ops).io.log) <==> d == |ops| || Follows(s.io.log, base + d)
  {
    SessionLog(s, base, ops);
    WrittenSegment(s.io.log, base, ops);
  }

  lemma {:induction false} SessionLog(s: LogState, base: uint128, ops: seq<LogOp>)
    requires s.Valid() && s.capacity >= 1 && |s.recent| <= s.capacity && !s.io.open
    requires NextNumber(s) == Ok(base) && OnlyInserts(ops)
    ensures LogRun(s, ops).io.log == s.io.log + SessionRecords(base, ops)[FirstOpenable(ops)..]
  {
    Session(s, base, ops);
  }

  lemma {:induction false} WrittenSegment(log: seq<Record>, base: nat, ops: seq<LogOp>)
    requires InitialSegment(log) && OnlyInserts(ops) && base + |ops| <= TWO_TO_THE_128
    ensures var d := FirstOpenable(ops);
            InitialSegment(log + SessionRecords(base, ops)[d..]) <==> d == |ops| || Follows(log, base + d)
  {
    var d := FirstOpenable(ops);
    var written := SessionRecords(base, ops)[d..];
    WrittenOffsets(base, ops);
    forall k | 0 <= k < |written| ensures written[k].offset == base + d + k {
      SmallRemainder(base + d + k, TWO_TO_THE_128);
    }
    SegmentAppend(log, written, base + d);
  }

  /** In a fresh topic: gap-free exactly when the first insert could open the file, or none could. */
  lemma {:induction false} FreshSegmentIff(capacity: nat, ops: seq<LogOp>)
    requires capacity >= 1 && OnlyInserts(ops) && |ops| <= TWO_TO_THE_128
    ensures InitialSegment(LogRun(Fresh(capacity), ops).io.log) <==>
            (ops != [] && ops[0].openable) || (forall i :: 0 <= i < |ops| ==> !ops[i].openable)
  {
    SessionSegmentIff(Fresh(capacity), 0, ops);
  }

  // ---------------------------------------------------------------------------------------
  // A reloaded topic
  // ---------------------------------------------------------------------------------------

  /** A just loaded topic takes inserts exactly when there is no file, or some record was loaded;
      over a file without records every insert is refused and changes nothing. */
  lemma {:induction false} ReloadedAcceptsIff(start: LogState, op: LogOp)
    requires JustLoaded(start) && op.Insert?
    ensures NextNumber(start).Ok? <==> !start.io.exists_ || (start.io.log != [] && start.capacity >= 1)
    ensures NextNumber(start).Err? ==> LogStep(start, op) == start
  {
  }

  /** The number of the first record after a load over a log that is not empty. */
  function FirstNumber(log: seq<Record>, capacity: nat): uint128
    requires log != [] && capacity >= 1
  {
    Next(log[|log| - Min(|log|, capacity)].offset)
  }

  lemma {:induction false} LoadedNumber(start: LogState)
    requires JustLoaded(start) && start.capacity >= 1 && start.io.log != []
    ensures NextNumber(start) == Ok(FirstNumber(start.io.log, start.capacity))
    ensures |start.recent| <= start.capacity
  {
    var loaded := LastN(start.io.log, start.capacity);
    assert Last(start.recent) == loaded[0];
  }

  /** The session after a load. The first number follows the oldest record that was loaded; the
      window is the reversed end of the log followed by the new records, cut to `capacity`; the log
      gets those from the first one that could open the file; and once `capacity` records have been
      written the window is the end of the log in order again. */
  lemma {:induction false} ReloadedSession(start: LogState, ops: seq<LogOp>)
    requires JustLoaded(start) && start.capacity >= 1 && start.io.log != [] && OnlyInserts(ops)
    ensures var d := FirstOpenable(ops);
            var records := SessionRecords(FirstNumber(start.io.log, start.capacity), ops);
            var end := LogRun(start, ops);
            && end.io.log == start.io.log + records[d..]
            && end.recent == LastN(Reverse(LastN(start.io.log, start.capacity)) + records, start.capacity)
            && |end.recent| <= start.capacity
            && end.oldest == FirstN(start.io.log, start.capacity)
            && (|ops| - d >= start.capacity ==> end.recent == LastN(end.io.log, start.capacity))
  {
    var base := FirstNumber(start.io.log, start.capacity);
    LoadedNumber(start);
    Session(start, base, ops);
    var records, d := SessionRecords(base, ops), FirstOpenable(ops);
    SuffixOfLonger(start.recent, records, start.capacity);
    SuffixOfLonger(start.io.log, records[d..], start.capacity);
    SuffixOfSuffix(records, d, start.capacity);
  }

  lemma {:induction false} SuffixOfLonger(a: seq<Record>, b: seq<Record>, n: nat)
    ensures |LastN(a + b, n)| <= n
    ensures |b| >= n ==> LastN(a + b, n) == LastN(b, n)
  {
  }

  ghost predicate NumberedFromZero(log: seq<Record>) {
    forall i :: 0 <= i < |log| ==> log[i].offset == i % TWO_TO_THE_128
  }

  /** When the first insert can open the file, the window is in order if and only if `capacity`
      records have been inserted, or only one was loaded. */
  lemma {:induction false} ReloadedWindowIff(start: LogState, ops: seq<LogOp>)
    requires JustLoaded(start) && start.capacity >= 1 && start.io.log != [] && OnlyInserts(ops)
    requires NumberedFromZero(start.io.log) && |start.io.log| <= TWO_TO_THE_128 && FirstOpenable(ops) == 0
    ensures var end := LogRun(start, ops);
            end.recent == LastN(end.io.log, start.capacity) <==>
            |ops| >= start.capacity || Min(|start.io.log|, start.capacity) == 1
  {
    var log, c := start.io.log, start.capacity;
    ReloadedSession(start, ops);
    NumberedSuffix(log, SessionRecords(FirstNumber(log, c), ops), c);
  }

  lemma {:induction false} NumberedSuffix(log: seq<Record>, more: seq<Record>, c: nat)
    requires c >= 1 && log != [] && NumberedFromZero(log) && |log| <= TWO_TO_THE_128
    ensures LastN(Reverse(LastN(log, c)) + more, c) == LastN(log + more[0..], c) <==>
            |more| >= c || Min(|log|, c) == 1
  {
    assert more[0..] == more;
    SmallRemainder(|log| - Min(|log|, c), TWO_TO_THE_128);
    SmallRemainder(|log| - 1, TWO_TO_THE_128);
    ReversedSuffix(log, more, c);
  }

  lemma {:induction false} ReversedSuffix(log: seq<Record>, more: seq<Record>, c: nat)
    requires c >= 1 && log != []
    requires log[|log| - Min(|log|, c)].offset == |log| - Min(|log|, c) && log[|log| - 1].offset == |log| - 1
    ensures LastN(Reverse(LastN(log, c)) + more, c) == LastN(log + more, c) <==>
            |more| >= c || Min(|log|, c) == 1
  {
    EndsApart(LastN(log, c), log, more, c);
  }

  lemma {:induction false} EndsApart(loaded: seq<Record>, log: seq<Record>, more: seq<Record>, c: nat)
    requires c >= 1 && log != [] && loaded == LastN(log, c)
    requires loaded[0].offset == |log| - Min(|log|, c) && log[|log| - 1].offset == |log| - 1
    ensures LastN(Reverse(loaded) + more, c) == LastN(log + more, c) <==> |more| >= c || |loaded| == 1
  {
    var back := Reverse(loaded);
    SuffixOfLonger(back, more, c);
    SuffixOfLonger(log, more, c);
    if |more| < c {
      var a, b := LastN(back + more, c), LastN(log + more, c);
      assert a[|a| - 1 - |more|] == back[|back| - 1] == loaded[0];
      assert b[|b| - 1 - |more|] == log[|log| - 1];
      if |loaded| == 1 {
        assert back == loaded;
        assert LastN(loaded + more, c) == LastN(log + more, c);
      }
    }
  }

  function OffsetsOf(records: seq<Record>): (offsets: seq<int>)
    ensures |offsets| == |records| && forall i :: 0 <= i < |records| ==> offsets[i] == records[i].offset
  {
    seq(|records|, i requires 0 <= i < |records| => records[i].offset)
  }

  lemma {:induction false} OffsetsOfParts(a: seq<Record>, b: seq<Record>, n: nat)
    ensures OffsetsOf(a + b) == OffsetsOf(a) + OffsetsOf(b)
    ensures OffsetsOf(LastN(a, n)) == LastN(OffsetsOf(a), n)
  {
  }

  lemma {:induction false} LastNConcat<T>(a: seq<T>, b: seq<T>, n: nat)
    requires |b| <= n
    ensures LastN(a + b, n) == LastN(a, n - |b|) + b
  {
  }

  lemma {:induction false} SameFront<T>(a: seq<T>, b: seq<T>, more: seq<T>)
    ensures a + more == b + more <==> a == b
  {
    if a + more == b + more {
      assert |a| == |b|;
      assert a == (a + more)[..|a|] && b == (b + more)[..|b|];
    }
  }

  /** A run down from n - 1 and up again by d, against a run up to n - 1: which ends of theirs agree. */
  lemma {:induction false} MirrorEnds(x: seq<int>, y: seq<int>, l: nat, d: nat, c: nat)
    requires 1 <= l <= |y| && |x| == l + d && c >= 1 && (l == |y| || l >= c)
    requires forall k :: 0 <= k < |y| ==> y[k] == k
    requires forall k :: 0 <= k < |x| ==> x[k] == if k < l then |y| - 1 - k else |y| - l + 1 + (k - l)
    ensures LastN(x, c) == LastN(y, c) <==> d == l - 1 && (c <= l || l == 1)
  {
    var a, b := LastN(x, c), LastN(y, c);
    assert a[|a| - 1] == x[|x| - 1] && b[|b| - 1] == y[|y| - 1];
    if d == l - 1 {
      if c <= l {
        assert forall k :: 0 <= k < c ==> a[k] == x[|x| - c + k] && b[k] == y[|y| - c + k];
      } else if l >= 2 {
        assert |a| > |b|;
      }
    }
  }

  /** The offsets in the window against those at the end of the log, for numbers and loaded records
      as a reload leaves them. */
  lemma {:induction false} OffsetsAgree(log: seq<Record>, records: seq<Record>, d: nat, c: nat)
    requires c >= 1 && log != [] && d <= |records|
    requires forall k :: 0 <= k < |log| ==> log[k].offset == k
    requires forall k :: 0 <= k < |records| ==> records[k].offset == |log| - Min(|log|, c) + 1 + k
    ensures var l, m := Min(|log|, c), |records| - d;
            OffsetsOf(LastN(Reverse(LastN(log, c)) + records, c)) == OffsetsOf(LastN(log + records[d..], c)) <==>
            m >= c || (d == l - 1 && m + l >= c) || (d == 0 && l == 1)
  {
    var front := Reverse(LastN(log, c));
    FrontAndWritten(front, records, d);
    BackOffsets(log, records, d, c);
    AgreeOnParts(front + records[..d], log, records[d..], d, c);
  }

  lemma {:induction false} FrontAndWritten(front: seq<Record>, records: seq<Record>, d: nat)
    requires d <= |records|
    ensures front + records == (front + records[..d]) + records[d..]
  {
    assert records == records[..d] + records[d..];
    Assoc(front, records[..d], records[d..]);
  }

  lemma {:induction false} AgreeOnParts(back: seq<Record>, log: seq<Record>, written: seq<Record>, d: nat, c: nat)
    requires c >= 1 && log != [] && |back| == Min(|log|, c) + d
    requires forall k :: 0 <= k < |log| ==> log[k].offset == k
    requires var l, x := Min(|log|, c), OffsetsOf(back);
             forall k :: 0 <= k < |x| ==> x[k] == if k < l then |log| - 1 - k else |log| - l + 1 + (k - l)
    ensures var l, m := Min(|log|, c), |written|;
            OffsetsOf(LastN(back + written, c)) == OffsetsOf(LastN(log + written, c)) <==>
            m >= c || (d == l - 1 && m + l >= c) || (d == 0 && l == 1)
  {
    SuffixOfLonger(back, written, c);
    SuffixOfLonger(log, written, c);
    if |written| < c {
      AgreeBeforeWritten(back, log, written, c);
      MirrorEnds(OffsetsOf(back), OffsetsOf(log), Min(|log|, c), d, c - |written|);
    }
  }

  lemma {:induction false} AgreeBeforeWritten(back: seq<Record>, log: seq<Record>, written: seq<Record>, c: nat)
    requires |written| < c
    ensures OffsetsOf(LastN(back + written, c)) == OffsetsOf(LastN(log + written, c)) <==>
            LastN(OffsetsOf(back), c - |written|) == LastN(OffsetsOf(log), c - |written|)
  {
    OffsetsOfParts(back + written, [], c);
    OffsetsOfParts(log + written, [], c);
    OffsetsOfParts(back, written, c);
    OffsetsOfParts(log, written, c);
    var x, y, w := OffsetsOf(back), OffsetsOf(log), OffsetsOf(written);
    LastNConcat(x, w, c);
    LastNConcat(y, w, c);
    SameFront(LastN(x, c - |w|), LastN(y, c - |w|), w);
  }

  lemma {:induction false} BackOffsets(log: seq<Record>, records: seq<Record>, d: nat, c: nat)
    requires c >= 1 && log != [] && d <= |records|
    requires forall k :: 0 <= k < |log| ==> log[k].offset == k
    requires forall k :: 0 <= k < |records| ==> records[k].offset == |log| - Min(|log|, c) + 1 + k
    ensures var l, x := Min(|log|, c), OffsetsOf(Reverse(LastN(log, c)) + records[..d]);
            && |x| == l + d
            && forall k :: 0 <= k < |x| ==> x[k] == if k < l then |log| - 1 - k else |log| - l + 1 + (k - l)
  {
    var l, back := Min(|log|, c), Reverse(LastN(log, c)) + records[..d];
    forall k | 0 <= k < |back|
      ensures back[k].offset == if k < l then |log| - 1 - k else |log| - l + 1 + (k - l)
    {
      if k < l {
        assert back[k] == LastN(log, c)[l - 1 - k] == log[|log| - 1 - k];
      } else {
        assert back[k] == records[k - l];
      }
    }
  }

  /** After a reload of l records and d refused writes, with m written after them, the window has the
      offsets of the end of the log if and only if m reaches `capacity`, or d is l - 1 and the loaded
      and written records fill the window, or nothing was refused and one record loaded. */
  lemma {:induction false} ReloadedOffsetsIff(start: LogState, ops: seq<LogOp>)
    requires JustLoaded(start) && start.capacity >= 1 && start.io.log != [] && OnlyInserts(ops)
    requires NumberedFromZero(start.io.log) && |start.io.log| + |ops| <= TWO_TO_THE_128
    ensures var end, c := LogRun(start, ops), start.capacity;
            var l, d := Min(|start.io.log|, c), FirstOpenable(ops);
            var m := |ops| - d;
            OffsetsOf(end.recent) == OffsetsOf(LastN(end.io.log, c)) <==>
            m >= c || (d == l - 1 && m + l >= c) || (d == 0 && l == 1)
  {
    ReloadedSession(start, ops);
    SessionOffsetsAgree(start.io.log, start.capacity, ops);
  }

  lemma {:induction false} SessionOffsetsAgree(log: seq<Record>, c: nat, ops: seq<LogOp>)
    requires c >= 1 && log != [] && OnlyInserts(ops)
    requires NumberedFromZero(log) && |log| + |ops| <= TWO_TO_THE_128
    ensures var l, d := Min(|log|, c), FirstOpenable(ops);
            var m, records := |ops| - d, SessionRecords(FirstNumber(log, c), ops);
            OffsetsOf(LastN(Reverse(LastN(log, c)) + records, c)) == OffsetsOf(LastN(log + records[d..], c)) <==>
            m >= c || (d == l - 1 && m + l >= c) || (d == 0 && l == 1)
  {
    ReloadedNumbers(log, c, ops);
    OffsetsAgree(log, SessionRecords(FirstNumber(log, c), ops), FirstOpenable(ops), c);
  }

  lemma {:induction false} ReloadedNumbers(log: seq<Record>, c: nat, ops: seq<LogOp>)
    requires c >= 1 && log != [] && OnlyInserts(ops)
    requires NumberedFromZero(log) && |log| + |ops| <= TWO_TO_THE_128
    ensures forall k :: 0 <= k < |log| ==> log[k].offset == k
    ensures var records := SessionRecords(FirstNumber(log, c), ops);
            forall k :: 0 <= k < |records| ==> records[k].offset == |log| - Min(|log|, c) + 1 + k
  {
    var records := SessionRecords(FirstNumber(log, c), ops);
    forall k | 0 <= k < |log| ensures log[k].offset == k {
      SmallRemainder(k, TWO_TO_THE_128);
    }
    forall k | 0 <= k < |records| ensures records[k].offset == |log| - Min(|log|, c) + 1 + k {
      SlippedNumber(log, c, k);
      SmallRemainder(|log| - Min(|log|, c) + 1 + k, TWO_TO_THE_128);
    }
  }

  /** A log numbered from zero up to position n, and after that with every number `loaded` - 1
      behind its position, less the `refused` writes. */
  ghost predicate NumberedWithSlip(log: seq<Record>, n: nat, loaded: nat, refused: nat)
    requires 1 <= loaded <= n <= |log|
  {
    && (forall i :: 0 <= i < n ==> log[i].offset == i % TWO_TO_THE_128)
    && (forall i :: n <= i < |log| ==> log[i].offset == (i - loaded + 1 + refused) % TWO_TO_THE_128)
  }

  lemma {:induction false} ResumptionNumber(start: LogState, ops: seq<LogOp>)
    requires JustLoaded(start) && start.capacity >= 1 && start.io.log != [] && NumberedFromZero(start.io.log)
    requires OnlyInserts(ops)
    ensures FirstNumber(start.io.log, start.capacity)
         == (|start.io.log| - Min(|start.io.log|, start.capacity) + 1) % TWO_TO_THE_128
    ensures NextNumber(LogRun(start, ops))
         == Ok((|start.io.log| - Min(|start.io.log|, start.capacity) + 1 + |ops|) % TWO_TO_THE_128)
    ensures LogRun(start, ops).io.log
         == start.io.log + SessionRecords(FirstNumber(start.io.log, start.capacity), ops)[FirstOpenable(ops)..]
  {
    var base := FirstNumber(start.io.log, start.capacity);
    LoadedNumber(start);
    SessionLog(start, base, ops);
    SessionNumber(start, base, ops);
    SlippedNumber(start.io.log, start.capacity, |ops|);
  }

  lemma {:induction false} SessionNumber(s: LogState, base: uint128, ops: seq<LogOp>)
    requires s.Valid() && s.capacity >= 1 && |s.recent| <= s.capacity
    requires NextNumber(s) == Ok(base) && OnlyInserts(ops)
    ensures NextNumber(LogRun(s, ops)) == Ok((base + |ops|) % TWO_TO_THE_128)
  {
    Session(s, base, ops);
  }

  lemma {:induction false} SlippedNumber(log: seq<Record>, capacity: nat, m: nat)
    requires log != [] && capacity >= 1 && NumberedFromZero(log)
    ensures var base, slipped := FirstNumber(log, capacity), |log| - Min(|log|, capacity) + 1;
            base == slipped % TWO_TO_THE_128 && (base + m) % TWO_TO_THE_128 == (slipped + m) % TWO_TO_THE_128
  {
    var slipped := |log| - Min(|log|, capacity) + 1;
    NextOfModulus(slipped - 1);
    ShiftedRemainder(slipped, m);
  }

  /** Resumption: over a log numbered 0..n-1, insert m (from 0) after a reload gets
      n - min(n, capacity) + 1 + m, whether or not the writes before it were refused; those that
      reach the file follow from the first that could open it. */
  lemma {:induction false} Resumption(start: LogState, ops: seq<LogOp>)
    requires JustLoaded(start) && start.capacity >= 1 && start.io.log != [] && NumberedFromZero(start.io.log)
    requires OnlyInserts(ops)
    ensures var n, end := |start.io.log|, LogRun(start, ops);
            var loaded, d := Min(n, start.capacity), FirstOpenable(ops);
            && NextNumber(end) == Ok((n - loaded + 1 + |ops|) % TWO_TO_THE_128)
            && |end.io.log| == n + |ops| - d
            && NumberedWithSlip(end.io.log, n, loaded, d)
  {
    ResumptionNumber(start, ops);
    SlipInSession(start.io.log, FirstNumber(start.io.log, start.capacity), ops, Min(|start.io.log|, start.capacity));
  }

  lemma {:induction false} SlipInSession(log: seq<Record>, base: uint128, ops: seq<LogOp>, loaded: nat)
    requires OnlyInserts(ops) && NumberedFromZero(log) && 1 <= loaded <= |log|
    requires base == (|log| - loaded + 1) % TWO_TO_THE_128
    ensures var d := FirstOpenable(ops);
            NumberedWithSlip(log + SessionRecords(base, ops)[d..], |log|, loaded, d)
  {
    var n, d, records := |log|, FirstOpenable(ops), SessionRecords(base, ops);
    var longer := log + records[d..];
    forall i | n <= i < |longer| ensures longer[i].offset == (i - loaded + 1 + d) % TWO_TO_THE_128 {
      assert longer[i] == records[d + (i - n)];
      ShiftedRemainder(n - loaded + 1, d + (i - n));
    }
  }

  lemma {:induction false} ShiftedRemainder(base: nat, m: nat)
    ensures (base % TWO_TO_THE_128 + m) % TWO_TO_THE_128 == (base + m) % TWO_TO_THE_128
  {
    var q, r := base / TWO_TO_THE_128, base % TWO_TO_THE_128;
    assert base + m == q * TWO_TO_THE_128 + (r + m);
    var q', r' := (r + m) / TWO_TO_THE_128, (r + m) % TWO_TO_THE_128;
    assert base + m == (q + q') * TWO_TO_THE_128 + r';
    RemainderUnique(base + m, q + q', r', TWO_TO_THE_128);
  }

  /** Numbering after the reload goes on as in an unbroken session if and only if a single record
      was loaded. */
  lemma {:induction false} ContinuesIffOneLoaded(start: LogState, ops: seq<LogOp>)
    requires JustLoaded(start) && 1 <= start.capacity <= INT_MAX && start.io.log != []
    requires NumberedFromZero(start.io.log) && OnlyInserts(ops)
    ensures NextNumber(LogRun(start, ops)) == Ok((|start.io.log| + |ops|) % TWO_TO_THE_128) <==>
            Min(|start.io.log|, start.capacity) == 1
  {
    ResumptionNumber(start, ops);
    SlipShows(|start.io.log| + |ops|, Min(|start.io.log|, start.capacity));
  }

  lemma {:induction false} SlipShows(i: nat, loaded: nat)
    requires 1 <= loaded <= i && loaded <= INT_MAX
    ensures (i - loaded + 1) % TWO_TO_THE_128 == i % TWO_TO_THE_128 <==> loaded == 1
  {
    EqualRemainders(i - loaded + 1, i, TWO_TO_THE_128);
    SmallRemainder(loaded - 1, TWO_TO_THE_128);
  }

  ghost predicate DistinctOffsets(log: seq<Record>) {
    forall i, j :: 0 <= i < j < |log| ==> log[i].offset != log[j].offset
  }

  /** After a reload of a log numbered 0..n-1, with at most 2^128 records, the numbers slip back by
      `loaded` - 1, and every refused write before the first that succeeds makes up for one. So if
      anything is written, the offsets on disk are distinct exactly when at least `loaded` - 1 were
      refused, gap-free exactly when fewer than `loaded` were, and both exactly when `loaded` - 1
      were. */
  lemma {:induction false} RightAfterReloadIff(start: LogState, ops: seq<LogOp>)
    requires JustLoaded(start) && start.capacity >= 1 && start.io.log != [] && NumberedFromZero(start.io.log)
    requires OnlyInserts(ops) && |start.io.log| + |ops| <= TWO_TO_THE_128
    ensures var log, d, loaded := LogRun(start, ops).io.log, FirstOpenable(ops), Min(|start.io.log|, start.capacity);
            && (DistinctOffsets(log) <==> d == |ops| || d >= loaded - 1)
            && (InitialSegment(log) <==> d == |ops| || d < loaded)
            && (DistinctOffsets(log) && InitialSegment(log) <==> d == |ops| || d == loaded - 1)
  {
    ResumptionNumber(start, ops);
    SlippedLog(start.io.log, FirstNumber(start.io.log, start.capacity), ops, Min(|start.io.log|, start.capacity));
  }

  lemma {:induction false} SlippedLog(log: seq<Record>, base: uint128, ops: seq<LogOp>, loaded: nat)
    requires OnlyInserts(ops) && NumberedFromZero(log) && 1 <= loaded <= |log| && |log| + |ops| <= TWO_TO_THE_128
    requires base == (|log| - loaded + 1) % TWO_TO_THE_128
    ensures var d := FirstOpenable(ops);
            var longer := log + SessionRecords(base, ops)[d..];
            && (DistinctOffsets(longer) <==> d == |ops| || d >= loaded - 1)
            && (InitialSegment(longer) <==> d == |ops| || d < loaded)
  {
    var d := FirstOpenable(ops);
    SlipInSession(log, base, ops, loaded);
    SlipRepeats(log + SessionRecords(base, ops)[d..], |log|, loaded, d);
    FromZero(log);
    if |ops| > 0 {
      SmallRemainder(|log| - loaded + 1, TWO_TO_THE_128);
      WrittenSegment(log, base, ops);
    } else {
      assert log + SessionRecords(base, ops)[d..] == log;
    }
  }

  /** A log numbered 0..n-1 has exactly those offsets. */
  lemma {:induction false} FromZero(log: seq<Record>)
    requires NumberedFromZero(log) && |log| <= TWO_TO_THE_128
    ensures InitialSegment(log) && DistinctOffsets(log)
    ensures forall o: int :: HasOffsetIn(log, o) <==> 0 <= o < |log|
  {
    forall i | 0 <= i < |log| ensures log[i].offset == i {
      SmallRemainder(i, TWO_TO_THE_128);
    }
    forall o: int | 0 <= o < |log| ensures HasOffsetIn(log, o) {
      assert log[o].offset == o;
    }
  }

  lemma {:induction false} SlipRepeats(log: seq<Record>, n: nat, loaded: nat, d: nat)
    requires 1 <= loaded <= n <= |log| && |log| + d <= TWO_TO_THE_128 && NumberedWithSlip(log, n, loaded, d)
    ensures DistinctOffsets(log) <==> |log| == n || d >= loaded - 1
  {
    forall i | 0 <= i < |log| ensures log[i].offset == if i < n then i else i - loaded + 1 + d {
      SmallRemainder(if i < n then i else i - loaded + 1 + d, TWO_TO_THE_128);
    }
    if |log| > n && d < loaded - 1 {
      assert log[n - loaded + 1 + d].offset == log[n].offset;
    }
  }
}
