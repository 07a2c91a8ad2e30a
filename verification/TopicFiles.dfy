/** The log file and its reader, with the reader's cache (topics/topic_io/topic_io.cpp). */
module TopicFiles {
  import opened Numbers
  import opened Sequences
  import opened RecordCodec

  // ---------------------------------------------------------------------------------------
  // The file and the reader as values
  // ---------------------------------------------------------------------------------------

  /** `log` is every record written to the file; `flushed` counts the bytes of it that have left
      the stream's buffer, which is all that a reader can see. */
  datatype IoState = IoState(
    log: seq<Record>,
    exists_: bool,
    open: bool,
    flushed: nat,
    cache: seq<Record>)
  {
    ghost predicate Valid() {
      flushed <= |EncodeAll(log)| && (open ==> exists_) && (!exists_ ==> log == [])
    }
  }

  /** `openable` says whether the file can be opened for appending, and `flushTo` how many bytes
      the stream has let through afterwards. */
  datatype IoOp =
    | Write(record: Record, openable: bool, flushTo: nat)
    | Close
    | ReadAll
    | ReadHead(count: nat)
    | ReadTail(count: nat)

  /** What filling the cache from the file yields. */
  function Visible(s: IoState): seq<Record>
    requires s.Valid()
  {
    if s.exists_ then DecodeAll(EncodeAll(s.log)[..s.flushed]) else []
  }

  /** Reading fills the cache only when it is empty. */
  function Filled(s: IoState): IoState
    requires s.Valid()
  {
    if s.cache == [] then s.(cache := Visible(s)) else s
  }

  function FlushedTo(flushTo: nat, least: nat, most: nat): (n: nat)
    requires least <= most
    ensures least <= n <= most
    ensures least <= flushTo <= most ==> n == flushTo
  {
    if flushTo < least then least else if flushTo > most then most else flushTo
  }

  function IoStep(s: IoState, op: IoOp): (after: IoState)
    requires s.Valid()
  {
    match op
    case Write(record, openable, flushTo) =>
      if !s.open && !openable then s
      else
        var log := s.log + [record];
        EncodeAppended(s.log, record);
        s.(log := log, exists_ := true, open := true, flushed := FlushedTo(flushTo, s.flushed, |EncodeAll(log)|))
    case Close => s.(open := false, flushed := if s.open then |EncodeAll(s.log)| else s.flushed)
    case ReadAll => Filled(s)
    case ReadHead(_) => Filled(s)
    case ReadTail(_) => Filled(s)
  }

  /** What a read returns; nothing for the other operations. */
  function IoAnswer(s: IoState, op: IoOp): seq<Record>
    requires s.Valid()
  {
    match op
    case Write(_, _, _) => []
    case Close => []
    case ReadAll => Filled(s).cache
    case ReadHead(count) => FirstN(Filled(s).cache, count)
    case ReadTail(count) => Reverse(LastN(Filled(s).cache, count))
  }

  lemma {:induction false} IoStepKeepsValid(s: IoState, op: IoOp)
    requires s.Valid()
    ensures IoStep(s, op).Valid()
  {
    if op.Write? {
      EncodeAppended(s.log, op.record);
    }
  }

  ghost function IoRun(s: IoState, ops: seq<IoOp>): (after: IoState)
    requires s.Valid()
    ensures after.Valid()
  {
    if ops == [] then s
    else
      var before := IoRun(s, ops[..|ops| - 1]);
      IoStepKeepsValid(before, ops[|ops| - 1]);
      IoStep(before, ops[|ops| - 1])
  }

  // ---------------------------------------------------------------------------------------
  // The file and the reader as objects
  // ---------------------------------------------------------------------------------------

  class LogFile {
    var exists_: bool
    var written: seq<uint8>
    var flushed: nat
    ghost var log: seq<Record>

    ghost predicate Valid()
      reads this
    {
      written == EncodeAll(log) && flushed <= |written| && (!exists_ ==> log == [])
    }

    /** No file yet. */
    constructor ()
      ensures Valid() && !exists_ && log == []
    {
      exists_, written, flushed, log := false, [], 0, [];
    }

    /** A closed file left by an earlier process. */
    constructor Existing(bytes: seq<uint8>, ghost records: seq<Record>)
      requires bytes == EncodeAll(records)
      ensures Valid() && exists_ && log == records && flushed == |written|
    {
      exists_, written, flushed, log := true, bytes, |bytes|, records;
    }
  }

  /** One reader and writer of one file. */
  class TopicIO {
    const file: LogFile
    var vectorAllData: seq<Record>
    var sharedFileIsOpen: bool

    ghost predicate Valid()
      reads this, file
    {
      file.Valid() && (sharedFileIsOpen ==> file.exists_)
    }

    ghost function State(): (s: IoState)
      reads this, file
      requires Valid()
      ensures s.Valid()
    {
      IoState(file.log, file.exists_, sharedFileIsOpen, file.flushed, vectorAllData)
    }

    constructor (file: LogFile)
      requires file.Valid()
      ensures this.file == file && Valid()
      ensures State() == IoState(file.log, file.exists_, false, file.flushed, [])
    {
      this.file := file;
      vectorAllData := [];
      sharedFileIsOpen := false;
    }

    method FileExists() returns (found: bool)
      ensures found == file.exists_
    {
      return file.exists_;
    }

    /** The reading loop: the unread bytes get fewer with every record and every skip. */
    static method DecodeStream(bytes: seq<uint8>) returns (records: seq<Record>)
      ensures records == DecodeAll(bytes)
    {
      records := [];
      var unread := bytes;
      while true
        invariant records + DecodeAll(unread) == DecodeAll(bytes)
        decreases |unread|
      {
        match ReadRecord(unread) {
          case EndOfStream =>
            break;
          case Corrupt(rest) =>
            unread := rest;
          case Got(data, rest) =>
            records := records + [data];
            unread := rest;
        }
      }
    }

    method FillVector() returns (all: seq<Record>)
      requires Valid()
      modifies this`vectorAllData
      ensures Valid() && State() == old(State()).(cache := Visible(old(State())))
      ensures all == vectorAllData
    {
      vectorAllData := [];
      var found := FileExists();
      if !found {
        return vectorAllData;
      }
      vectorAllData := DecodeStream(file.written[..file.flushed]);
      return vectorAllData;
    }

    /** A file that cannot be opened leaves the record unwritten. */
    method WriteToDisk(data: Record, openable: bool, flushTo: nat)
      requires Valid()
      modifies this`sharedFileIsOpen, file
      ensures Valid() && State() == IoStep(old(State()), Write(data, openable, flushTo))
      ensures if old(sharedFileIsOpen) || openable
              then sharedFileIsOpen && file.exists_ && file.log == old(file.log) + [data]
              else !sharedFileIsOpen && file.log == old(file.log) && file.flushed == old(file.flushed)
      ensures (old(sharedFileIsOpen) || openable) && old(file.flushed) <= flushTo <= |file.written| ==>
                file.flushed == flushTo
    {
      if !sharedFileIsOpen {
        OpenSharedFile(openable);
      }
      if !sharedFileIsOpen {
        return;
      }
      EncodeAppended(file.log, data);
      file.log := file.log + [data];
      file.written := file.written + Encode(data);
      file.flushed := FlushedTo(flushTo, file.flushed, |file.written|);
    }

    /** Opening for appending creates the file. */
    method OpenSharedFile(openable: bool)
      requires Valid()
      modifies this`sharedFileIsOpen, file`exists_
      ensures Valid()
      ensures sharedFileIsOpen == (old(sharedFileIsOpen) || openable)
      ensures file.exists_ == (old(file.exists_) || openable)
    {
      if openable {
        sharedFileIsOpen := true;
        file.exists_ := true;
      }
    }

    method CloseSharedFile()
      requires Valid()
      modifies this`sharedFileIsOpen, file`flushed
      ensures Valid() && State() == IoStep(old(State()), Close)
    {
      if sharedFileIsOpen {
        file.flushed := |file.written|;
      }
      sharedFileIsOpen := false;
    }

    method ReadAllRecords() returns (records: seq<Record>)
      requires Valid()
      modifies this`vectorAllData
      ensures Valid() && State() == IoStep(old(State()), ReadAll)
      ensures records == IoAnswer(old(State()), ReadAll)
    {
      if vectorAllData == [] {
        var _ := FillVector();
      }
      return vectorAllData;
    }

    static method CopyFromHead(all: seq<Record>, fromHead: nat) returns (records: seq<Record>)
      ensures records == FirstN(all, fromHead)
      ensures |records| == if |all| < fromHead then |all| else fromHead
      ensures forall k :: 0 <= k < |records| ==> records[k] == all[k]
    {
      records := [];
      var count, it := 0, 0;
      while it != |all| && count < fromHead
        invariant count == it <= Min(|all|, fromHead)
        invariant records == all[..it]
        decreases |all| - it
      {
        records := records + [all[it]];
        count := count + 1;
        it := it + 1;
      }
    }

    /** `it` counts from the back, as a reverse iterator does. */
    static method CopyFromTail(all: seq<Record>, fromTail: nat) returns (records: seq<Record>)
      ensures records == Reverse(LastN(all, fromTail))
      ensures |records| == if |all| < fromTail then |all| else fromTail
      ensures forall k :: 0 <= k < |records| ==> records[k] == all[|all| - 1 - k]
    {
      records := [];
      var count, it := 0, 0;
      while it != |all| && count < fromTail
        invariant count == it <= Min(|all|, fromTail)
        invariant records == Reverse(all[|all| - it..])
        decreases |all| - it
      {
        assert all[|all| - it - 1..] == [all[|all| - it - 1]] + all[|all| - it..];
        records := records + [all[|all| - 1 - it]];
        count := count + 1;
        it := it + 1;
      }
    }

    method ReadRecordsFromHead(fromHead: nat) returns (records: seq<Record>)
      requires Valid()
      modifies this`vectorAllData
      ensures Valid() && State() == IoStep(old(State()), ReadHead(fromHead))
      ensures records == IoAnswer(old(State()), ReadHead(fromHead))
      ensures |records| == if |vectorAllData| < fromHead then |vectorAllData| else fromHead
      ensures forall k :: 0 <= k < |records| ==> records[k] == vectorAllData[k]
    {
      if vectorAllData == [] {
        var _ := FillVector();
      }
      records := CopyFromHead(vectorAllData, fromHead);
    }

    method ReadRecordsFromTail(fromTail: nat) returns (records: seq<Record>)
      requires Valid()
      modifies this`vectorAllData
      ensures Valid() && State() == IoStep(old(State()), ReadTail(fromTail))
      ensures records == IoAnswer(old(State()), ReadTail(fromTail))
      ensures |records| == if |vectorAllData| < fromTail then |vectorAllData| else fromTail
      ensures forall k :: 0 <= k < |records| ==> records[k] == vectorAllData[|vectorAllData| - 1 - k]
    {
      if vectorAllData == [] {
        var _ := FillVector();
      }
      records := CopyFromTail(vectorAllData, fromTail);
    }
  }

  // ---------------------------------------------------------------------------------------
  // The cache law
  // ---------------------------------------------------------------------------------------

  /** What a reader can see is a prefix of what was written. */
  lemma {:induction false} VisibleIsPrefix(s: IoState)
    requires s.Valid()
    ensures Visible(s) <= s.log
    ensures s.flushed == |EncodeAll(s.log)| ==> Visible(s) == s.log
  {
    DecodeCut(s.log, s.flushed);
  }

  /** Exactly: the records that lie wholly within the flushed bytes; and every read of an empty cache
      fills it with them. */
  lemma {:induction false} VisibleIsWhole(s: IoState, count: nat)
    requires s.Valid()
    ensures Visible(s) == s.log[..Whole(s.log, s.flushed)]
    ensures s.cache == [] ==>
              && IoStep(s, ReadAll).cache == s.log[..Whole(s.log, s.flushed)]
              && IoStep(s, ReadHead(count)).cache == s.log[..Whole(s.log, s.flushed)]
              && IoStep(s, ReadTail(count)).cache == s.log[..Whole(s.log, s.flushed)]
  {
    DecodeCut(s.log, s.flushed);
  }

  lemma {:induction false} CacheStep(s: IoState, op: IoOp)
    requires s.Valid() && s.cache <= s.log
    ensures IoStep(s, op).cache <= IoStep(s, op).log
    ensures s.log <= IoStep(s, op).log
    ensures s.cache != [] ==> IoStep(s, op).cache == s.cache
  {
    VisibleIsPrefix(s);
  }

  /** Over any interleaving of writes, flushes and reads the cache stays a prefix of the log, and
      once it holds anything it never changes again. */
  lemma {:induction false} CacheIsFrozenPrefix(s: IoState, ops: seq<IoOp>)
    requires s.Valid() && s.cache <= s.log
    ensures IoRun(s, ops).cache <= IoRun(s, ops).log
    ensures s.log <= IoRun(s, ops).log
    ensures s.cache != [] ==> IoRun(s, ops).cache == s.cache
  {
    if ops != [] {
      CacheIsFrozenPrefix(s, ops[..|ops| - 1]);
      CacheStep(IoRun(s, ops[..|ops| - 1]), ops[|ops| - 1]);
    }
  }

  /** Every read answers from the front or the back of the first `cached` records of the log:
      head(k) is the first min(k, cached) of them, tail(k) the last min(k, cached) reversed, and
      reading at least everything, the tail is the head reversed. The answer is the whole log
      exactly when `cached` is its length. */
  ghost predicate AnswersFrom(s: IoState, cached: nat, k: nat)
    requires s.Valid()
  {
    && cached <= |s.log|
    && IoAnswer(s, ReadAll) == s.log[..cached]
    && IoAnswer(s, ReadHead(k)) == FirstN(s.log[..cached], k)
    && IoAnswer(s, ReadTail(k)) == Reverse(LastN(s.log[..cached], k))
    && (k >= cached ==> IoAnswer(s, ReadTail(k)) == Reverse(IoAnswer(s, ReadHead(k))))
    && (IoAnswer(s, ReadAll) == s.log <==> cached == |s.log|)
  }

  lemma {:induction false} PrefixAnswers(s: IoState, k: nat)
    requires s.Valid() && s.cache <= s.log
    ensures AnswersFrom(s, |Filled(s).cache|, k)
  {
    var filled := Filled(s);
    assert filled.cache <= s.log by {
      VisibleIsPrefix(s);
    }
    AnswersWhenFilled(s, filled, k);
    PrefixFacts(s.log, filled.cache, k);
  }

  lemma {:induction false} AnswersWhenFilled(s: IoState, filled: IoState, count: nat)
    requires s.Valid() && Filled(s) == filled
    ensures IoAnswer(s, ReadAll) == filled.cache
    ensures IoAnswer(s, ReadHead(count)) == FirstN(filled.cache, count)
    ensures IoAnswer(s, ReadTail(count)) == Reverse(LastN(filled.cache, count))
    ensures IoStep(s, ReadAll) == IoStep(s, ReadHead(count)) == IoStep(s, ReadTail(count)) == filled
  {
  }

  lemma {:induction false} PrefixFacts(log: seq<Record>, all: seq<Record>, k: nat)
    requires all <= log
    ensures all == log[..|all|] && |all| <= |log|
    ensures k >= |all| ==> FirstN(all, k) == LastN(all, k)
    ensures all == log <==> |all| == |log|
  {
  }

  /** After any run of writes, flushes and reads, reads answer from one prefix of the log; once
      the cache holds anything, it is that prefix. */
  lemma {:induction false} ReadsAnswerFromPrefix(s: IoState, ops: seq<IoOp>, k: nat) returns (cached: nat)
    requires s.Valid() && s.cache <= s.log
    ensures AnswersFrom(IoRun(s, ops), cached, k)
    ensures s.cache != [] ==> cached == |s.cache|
  {
    CacheIsFrozenPrefix(s, ops);
    PrefixAnswers(IoRun(s, ops), k);
    cached := |Filled(IoRun(s, ops)).cache|;
  }

  /** The same, count by count: after any run there is one number of cached records, reading all gives
      that many from the front of the log, head(k) the first k of them and tail(k) the last k of them
      backwards, or all of them if they are fewer. */
  lemma {:induction false} ReadsCounted(s: IoState, ops: seq<IoOp>, k: nat) returns (cached: nat)
    requires s.Valid() && s.cache <= s.log
    ensures s.cache != [] ==> cached == |s.cache|
    ensures var end := IoRun(s, ops);
            var all, head, tail := IoAnswer(end, ReadAll), IoAnswer(end, ReadHead(k)), IoAnswer(end, ReadTail(k));
            && cached <= |end.log|
            && |all| == cached && |head| == |tail| == (if cached < k then cached else k)
            && (forall i :: 0 <= i < |all| ==> all[i] == end.log[i])
            && (forall i :: 0 <= i < |head| ==> head[i] == end.log[i])
            && (forall i :: 0 <= i < |tail| ==> tail[i] == end.log[cached - 1 - i])
  {
    cached := ReadsAnswerFromPrefix(s, ops, k);
    FirstNMeans(IoRun(s, ops).log[..cached], k);
    ReversedLastNMeans(IoRun(s, ops).log[..cached], k);
  }

  /** Reading the tail and then the head of a file whose bytes are all visible. */
  lemma {:induction false} TailThenHead(s: IoState, count: nat)
    requires s.Valid() && s.exists_ && s.cache == [] && s.flushed == |EncodeAll(s.log)|
    ensures IoAnswer(s, ReadTail(count)) == Reverse(LastN(s.log, count))
    ensures IoStep(s, ReadTail(count)) == s.(cache := s.log)
    ensures s.(cache := s.log).Valid() && IoAnswer(s.(cache := s.log), ReadHead(count)) == FirstN(s.log, count)
  {
    var filled := s.(cache := s.log);
    FillAll(s);
    AnswersWhenFilled(s, filled, count);
    FillAll(filled);
    AnswersWhenFilled(filled, filled, count);
  }

  lemma {:induction false} FillAll(s: IoState)
    requires s.Valid() && s.exists_ && (s.cache == [] || s.cache == s.log) && s.flushed == |EncodeAll(s.log)|
    ensures Filled(s) == s.(cache := s.log)
  {
    VisibleIsPrefix(s);
  }
}
