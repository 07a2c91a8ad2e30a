/** Topics over many restarts: when the offsets on disk stay distinct, and when a topic can never
    take a record. */
module TopicRestarts {
  import opened Numbers
  import opened Sequences
  import opened RecordCodec
  import opened TopicLogs
  import opened TopicWindows

  // ---------------------------------------------------------------------------------------
  // Distinct offsets
  // ---------------------------------------------------------------------------------------

  /** The run ends with a restart. */
  predicate EndsInRestart(ops: seq<LogOp>) {
    ops != [] && ops[|ops| - 1].Restart?
  }

  /** Every insert that directly follows a restart finds at most one record loaded. */
  ghost predicate ShortReloads(capacity: nat, ops: seq<LogOp>) {
    ops != [] ==>
      var front, last := ops[..|ops| - 1], ops[|ops| - 1];
      && ShortReloads(capacity, front)
      && (EndsInRestart(front) && last.Insert? ==> Min(|LogRun(Fresh(capacity), front).io.log|, capacity) <= 1)
  }

  /** The window ends in the last record of the log. */
  ghost predicate InStep(s: LogState) {
    s.recent != [] && s.io.log != [] && Last(s.recent) == Last(s.io.log)
  }

  /** Where a run stands while every reload was short: the log is numbered from zero, and the topic
      is untouched, or just loaded, or its window ends in the last record. */
  ghost predicate Sound(s: LogState, capacity: nat, afterRestart: bool) {
    && s.Valid() && s.capacity == capacity && NumberedFromZero(s.io.log)
    && (s.io.log == [] ==> !s.io.exists_ && s.recent == [])
    && (s.io.log != [] ==> if afterRestart then JustLoaded(s) else InStep(s))
  }

  lemma {:induction false} ShortLoadInStep(s: LogState)
    requires JustLoaded(s) && s.io.log != [] && s.capacity >= 1 && Min(|s.io.log|, s.capacity) <= 1
    ensures InStep(s)
  {
    assert |LastN(s.io.log, s.capacity)| == 1;
  }

  lemma {:induction false} InsertStaysSound(s: LogState, capacity: nat, op: LogOp)
    requires Sound(s, capacity, false) && capacity >= 1 && op.Insert? && (op.openable || s.io.open)
    ensures Sound(LogStep(s, op), capacity, false)
  {
    var n := |s.io.log|;
    LogStepKeepsValid(s, op);
    if n > 0 {
      NextOfModulus(n - 1);
    } else {
      SmallRemainder(0, TWO_TO_THE_128);
    }
    assert NextNumber(s) == Ok(n % TWO_TO_THE_128);
    InsertEffect(s, op);
    var record := NewRecord(op.message, op.now, n % TWO_TO_THE_128);
    assert LogStep(s, op).io.log == s.io.log + [record];
  }

  lemma {:induction false} RestartStaysSound(s: LogState, capacity: nat, afterRestart: bool)
    requires Sound(s, capacity, afterRestart)
    ensures Sound(LogStep(s, Restart), capacity, true)
  {
    RestartLoads(s);
    LogStepKeepsValid(s, Restart);
    if s.io.log == [] {
      assert LastN(s.io.log, s.capacity) == [];
    }
  }

  lemma {:induction false} SoundRun(capacity: nat, ops: seq<LogOp>)
    requires capacity >= 1 && AllWritten(Fresh(capacity), ops) && ShortReloads(capacity, ops)
    ensures Sound(LogRun(Fresh(capacity), ops), capacity, EndsInRestart(ops))
  {
    if ops != [] {
      var front, last := ops[..|ops| - 1], ops[|ops| - 1];
      var s := LogRun(Fresh(capacity), front);
      SoundRun(capacity, front);
      if last.Restart? {
        RestartStaysSound(s, capacity, EndsInRestart(front));
      } else {
        if EndsInRestart(front) && s.io.log != [] {
          ShortLoadInStep(s);
        }
        assert NextNumber(s).Ok?;
        InsertStaysSound(s, capacity, last);
      }
    }
  }

  /** An insert after a reload of at least two records repeats an offset. */
  lemma {:induction false} LongReloadRepeats(s: LogState, op: LogOp)
    requires JustLoaded(s) && s.capacity >= 1 && NumberedFromZero(s.io.log) && |s.io.log| < TWO_TO_THE_128
    requires Min(|s.io.log|, s.capacity) >= 2 && op.Insert? && op.openable
    ensures !DistinctOffsets(LogStep(s, op).io.log)
  {
    var n, k := |s.io.log|, |s.io.log| - Min(|s.io.log|, s.capacity) + 1;
    LoadedNumber(s);
    InsertEffect(s, op);
    NextOfModulus(k - 1);
    var log := LogStep(s, op).io.log;
    assert log[k] == s.io.log[k] && log[k].offset == k % TWO_TO_THE_128 == log[n].offset;
  }

  lemma {:induction false} PrefixOfDistinct(a: seq<Record>, b: seq<Record>)
    requires a <= b && DistinctOffsets(b)
    ensures DistinctOffsets(a)
  {
    forall i, j | 0 <= i < j < |a| ensures a[i].offset != a[j].offset {
      assert a[i] == b[i] && a[j] == b[j];
    }
  }

  lemma {:induction false} DistinctNeedsShort(capacity: nat, ops: seq<LogOp>)
    requires capacity >= 1 && AllWritten(Fresh(capacity), ops)
    requires |LogRun(Fresh(capacity), ops).io.log| <= TWO_TO_THE_128
    requires DistinctOffsets(LogRun(Fresh(capacity), ops).io.log)
    ensures ShortReloads(capacity, ops)
  {
    if ops != [] {
      var front, last := ops[..|ops| - 1], ops[|ops| - 1];
      var s, after := LogRun(Fresh(capacity), front), LogRun(Fresh(capacity), ops);
      LogOnlyGrows(s, last);
      PrefixOfDistinct(s.io.log, after.io.log);
      DistinctNeedsShort(capacity, front);
      SoundRun(capacity, front);
      if EndsInRestart(front) && last.Insert? && Min(|s.io.log|, capacity) >= 2 {
        LoadedNumber(s);
        InsertEffect(s, last);
        LongReloadRepeats(s, last);
        assert false;
      }
    }
  }

  lemma {:induction false} LogOnlyGrows(s: LogState, op: LogOp)
    requires s.Valid()
    ensures s.io.log <= LogStep(s, op).io.log
  {
    if op.Restart? {
      RestartLoads(s);
    }
  }

  /** Over every run of inserts and restarts of a fresh topic whose writes succeed, with at most
      2^128 records, the offsets on disk are distinct if and only if every insert that directly
      follows a restart finds at most one record loaded; and then record i has offset i. */
  lemma {:induction false} DistinctIffShortReloads(capacity: nat, ops: seq<LogOp>)
    requires capacity >= 1 && AllWritten(Fresh(capacity), ops)
    requires |LogRun(Fresh(capacity), ops).io.log| <= TWO_TO_THE_128
    ensures DistinctOffsets(LogRun(Fresh(capacity), ops).io.log) <==> ShortReloads(capacity, ops)
    ensures ShortReloads(capacity, ops) ==> NumberedFromZero(LogRun(Fresh(capacity), ops).io.log)
  {
    if ShortReloads(capacity, ops) {
      SoundRun(capacity, ops);
      FromZero(LogRun(Fresh(capacity), ops).io.log);
    }
    if DistinctOffsets(LogRun(Fresh(capacity), ops).io.log) {
      DistinctNeedsShort(capacity, ops);
    }
  }

  // ---------------------------------------------------------------------------------------
  // Numbers that are positions
  // ---------------------------------------------------------------------------------------

  /** While the file is open, the number counted up from is that of the last record. */
  ghost predicate OpenInStep(s: LogState) {
    s.io.open ==> InStep(s)
  }

  /** After every step of the run record i of the log has offset i. */
  ghost predicate StaysNumbered(s: LogState, ops: seq<LogOp>)
    requires s.Valid()
  {
    && NumberedFromZero(LogRun(s, ops).io.log)
    && (ops != [] ==> StaysNumbered(s, ops[..|ops| - 1]))
  }

  /** Every insert of the run that opens the file has the position of its record as its number. */
  ghost predicate OpensAtEnd(s: LogState, ops: seq<LogOp>)
    requires s.Valid()
  {
    ops != [] ==>
      var front, last := ops[..|ops| - 1], ops[|ops| - 1];
      var before := LogRun(s, front);
      && OpensAtEnd(s, front)
      && (Opens(before, last) ==> NextNumber(before).value == |before.io.log| % TWO_TO_THE_128)
  }

  lemma {:induction false} AppendKeepsNumbered(log: seq<Record>, record: Record)
    requires NumberedFromZero(log)
    ensures NumberedFromZero(log + [record]) <==> record.offset == |log| % TWO_TO_THE_128
  {
    var longer := log + [record];
    assert longer[|log|] == record;
    assert forall i :: 0 <= i < |log| ==> longer[i] == log[i];
  }

  lemma {:induction false} WrittenInStep(s: LogState, op: LogOp, after: LogState)
    requires s.capacity >= 1 && Accepted(s, op, after) && OpenInStep(s)
    ensures OpenInStep(after)
  {
    PushedEnds(s.recent, NewRecord(op.message, op.now, NextNumber(s).value), s.capacity);
  }

  lemma {:induction false} InStepNumber(s: LogState)
    requires InStep(s) && NumberedFromZero(s.io.log)
    ensures NextNumber(s) == Ok(|s.io.log| % TWO_TO_THE_128)
  {
    NextOfModulus(|s.io.log| - 1);
  }

  lemma {:induction false} StepKeepsNumbered(s: LogState, op: LogOp)
    requires s.Valid() && s.capacity >= 1 && OpenInStep(s)
    ensures var after := LogStep(s, op);
            && OpenInStep(after) && after.capacity == s.capacity
            && (NumberedFromZero(s.io.log) ==>
                  (NumberedFromZero(after.io.log) <==>
                   (Opens(s, op) ==> NextNumber(s).value == |s.io.log| % TWO_TO_THE_128)))
  {
    if op.Restart? {
      RestartLoads(s);
    } else if NextNumber(s).Ok? {
      InsertEffect(s, op);
      WrittenInStep(s, op, LogStep(s, op));
      if NumberedFromZero(s.io.log) {
        AppendKeepsNumbered(s.io.log, NewRecord(op.message, op.now, NextNumber(s).value));
        if s.io.open {
          InStepNumber(s);
        }
      }
    }
  }

  /** Over every run of inserts and restarts, refused writes included, record i of the disk has offset
      i after every step if and only if every insert that opens the file has the position of its
      record as its number. A fresh topic and a just loaded one may start the run. */
  lemma {:induction false} NumberedIffOpensAtEnd(s: LogState, ops: seq<LogOp>)
    requires s.Valid() && s.capacity >= 1 && OpenInStep(s) && NumberedFromZero(s.io.log)
    ensures OpenInStep(LogRun(s, ops)) && LogRun(s, ops).capacity == s.capacity
    ensures StaysNumbered(s, ops) <==> OpensAtEnd(s, ops)
  {
    if ops != [] {
      var front, last := ops[..|ops| - 1], ops[|ops| - 1];
      NumberedIffOpensAtEnd(s, front);
      StepKeepsNumbered(LogRun(s, front), last);
    }
  }

  // ---------------------------------------------------------------------------------------
  // Topics that never take a record
  // ---------------------------------------------------------------------------------------

  /** The file exists and nothing can be loaded from it: it has no record, or none fits. */
  predicate Barren(s: LogState) {
    s.io.exists_ && s.recent == [] && (s.io.log == [] || s.capacity == 0)
  }

  lemma {:induction false} StaysBarren(s: LogState, op: LogOp)
    requires s.Valid() && Barren(s)
    ensures Barren(LogStep(s, op)) && LogStep(s, op).io.log == s.io.log
  {
    if op.Restart? {
      RestartLoads(s);
      assert LastN(s.io.log, s.capacity) == [];
    }
  }

  /** Such a topic never takes a record, whatever is inserted and however often it is restarted. */
  lemma {:induction false} BarrenForever(s: LogState, ops: seq<LogOp>)
    requires s.Valid() && Barren(s)
    ensures Barren(LogRun(s, ops)) && LogRun(s, ops).io.log == s.io.log
  {
    if ops != [] {
      BarrenForever(s, ops[..|ops| - 1]);
      StaysBarren(LogRun(s, ops[..|ops| - 1]), ops[|ops| - 1]);
    }
  }

  /** A just loaded topic never takes a record, in any run, if and only if its file exists and holds
      no record, or its window has no room. */
  lemma {:induction false} NeverTakesRecordsIff(start: LogState)
    requires JustLoaded(start)
    ensures (forall ops: seq<LogOp> :: LogRun(start, ops).io.log == start.io.log) <==>
            start.io.exists_ && (start.io.log == [] || start.capacity == 0)
  {
    if start.io.exists_ && (start.io.log == [] || start.capacity == 0) {
      assert LastN(start.io.log, start.capacity) == [];
      forall ops: seq<LogOp> ensures LogRun(start, ops).io.log == start.io.log {
        BarrenForever(start, ops);
      }
    } else {
      var op := LogOp.Insert(Message([], [], []), 0, true, 0);
      ReloadedAcceptsIff(start, op);
      InsertEffect(start, op);
      assert [op][..0] == [];
      assert LogRun(start, [op]) == LogStep(start, op);
      assert |LogRun(start, [op]).io.log| == |start.io.log| + 1;
    }
  }
}
