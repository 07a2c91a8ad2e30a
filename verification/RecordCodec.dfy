/** Log records and their bytes. Boost's archive format is not visible in the repository; this
    encoding stands in for it. It writes the fields in the order of the record's `serialize`,
    each either of fixed width or preceded by its length, after a signature that opens every
    archive, since each record is written as an archive of its own
    (topics/topic_public/topic_public_structure.h, topics/topic_io/topic_io.cpp). */
module RecordCodec {
  import opened Numbers

  /** Byte strings that fit in memory. */
  type Text = s: seq<uint8> | |s| < TWO_TO_THE_64

  datatype Record = Record(
    offset: uint128,
    timestamp: uint64,
    keys: Text,
    headers: Text,
    flags: int8,
    value: Text)

  const SIGNATURE: uint8 := 22

  /** A value and the unread bytes; or too few bytes; or bytes that are no archive, and what
      follows them. */
  datatype Parsed<+T> = Got(value: T, rest: seq<uint8>) | EndOfStream | Corrupt(rest: seq<uint8>) {
    predicate IsFailure() {
      !Got?
    }

    function PropagateFailure<U>(): Parsed<U>
      requires !Got?
    {
      match this
      case EndOfStream => EndOfStream
      case Corrupt(rest) => Corrupt(rest)
    }

    function Extract(): (T, seq<uint8>)
      requires Got?
    {
      (value, rest)
    }
  }

  // ---------------------------------------------------------------------------------------
  // Numbers of fixed width
  // ---------------------------------------------------------------------------------------

  function Pow256(width: nat): nat {
    if width == 0 then 1 else 256 * Pow256(width - 1)
  }

  lemma {:induction false} Widths()
    ensures Pow256(8) == TWO_TO_THE_64 && Pow256(16) == TWO_TO_THE_128
  {
    assert Pow256(2) == 0x1_0000;
    assert Pow256(4) == 0x1_0000_0000;
    assert Pow256(6) == 0x1_0000_0000_0000;
    assert Pow256(8) == TWO_TO_THE_64;
    assert Pow256(10) == 0x1_0000 * TWO_TO_THE_64;
    assert Pow256(12) == 0x1_0000_0000 * TWO_TO_THE_64;
    assert Pow256(14) == 0x1_0000_0000_0000 * TWO_TO_THE_64;
  }

  function Fixed(n: nat, width: nat): (bytes: seq<uint8>)
    ensures |bytes| == width
  {
    if width == 0 then [] else [n % 256] + Fixed(n / 256, width - 1)
  }

  function ValueOf(bytes: seq<uint8>): (n: nat)
    ensures n < Pow256(|bytes|)
  {
    if bytes == [] then 0 else bytes[0] + 256 * ValueOf(bytes[1..])
  }

  lemma {:induction false} FixedRoundTrip(n: nat, width: nat)
    requires n < Pow256(width)
    ensures ValueOf(Fixed(n, width)) == n
  {
    if width > 0 {
      FixedRoundTrip(n / 256, width - 1);
      assert Fixed(n, width)[1..] == Fixed(n / 256, width - 1);
    }
  }

  // ---------------------------------------------------------------------------------------
  // Writing
  // ---------------------------------------------------------------------------------------

  function EncodeText(s: Text): seq<uint8> {
    Fixed(|s|, 8) + s
  }

  function Encode(r: Record): (bytes: seq<uint8>)
    ensures |bytes| > 0
  {
    [SIGNATURE] + EncodeBody(r, [])
  }

  /** The fields of a record in order, and then `rest`. */
  function EncodeBody(r: Record, rest: seq<uint8>): seq<uint8> {
    EncodeStamps(r.offset, r.timestamp, EncodeTexts(r.keys, r.headers, EncodeFlagged(r.flags, r.value, rest)))
  }

  function EncodeStamps(offset: uint128, timestamp: uint64, rest: seq<uint8>): seq<uint8> {
    Fixed(offset, 16) + (Fixed(timestamp, 8) + rest)
  }

  function EncodeTexts(keys: Text, headers: Text, rest: seq<uint8>): seq<uint8> {
    EncodeText(keys) + (EncodeText(headers) + rest)
  }

  function EncodeFlagged(flags: int8, value: Text, rest: seq<uint8>): seq<uint8> {
    Fixed(flags + 128, 1) + (EncodeText(value) + rest)
  }

  /** The bytes of a record, field by field in the order in which it is serialized. */
  lemma {:induction false} EncodingLayout(r: Record)
    ensures var stamps := Fixed(r.offset, 16) + Fixed(r.timestamp, 8);
            var texts := (Fixed(|r.keys|, 8) + r.keys) + (Fixed(|r.headers|, 8) + r.headers);
            var flagged := Fixed(r.flags + 128, 1) + (Fixed(|r.value|, 8) + r.value);
            Encode(r) == [22] + stamps + texts + flagged
  {
    var stamps := Fixed(r.offset, 16) + Fixed(r.timestamp, 8);
    var texts := EncodeText(r.keys) + EncodeText(r.headers);
    var flagged := Fixed(r.flags + 128, 1) + EncodeText(r.value);
    assert EncodeFlagged(r.flags, r.value, []) == flagged;
    assert EncodeTexts(r.keys, r.headers, flagged) == texts + flagged;
    assert EncodeStamps(r.offset, r.timestamp, texts + flagged) == stamps + (texts + flagged);
  }

  function EncodeAll(records: seq<Record>): seq<uint8> {
    if records == [] then [] else Encode(records[0]) + EncodeAll(records[1..])
  }

  // ---------------------------------------------------------------------------------------
  // Reading
  // ---------------------------------------------------------------------------------------

  function Take(bytes: seq<uint8>, n: nat): (p: Parsed<seq<uint8>>)
    ensures p.Got? ==> |p.value| == n && |p.rest| == |bytes| - n
    ensures !p.Corrupt?
  {
    if |bytes| < n then EndOfStream else Got(bytes[..n], bytes[n..])
  }

  function ReadNumber(bytes: seq<uint8>, width: nat): (p: Parsed<nat>)
    ensures p.Got? ==> p.value < Pow256(width)
    ensures p.Got? ==> |p.rest| <= |bytes|
    ensures !p.Corrupt?
  {
    var (taken, rest) :- Take(bytes, width);
    Got(ValueOf(taken), rest)
  }

  function ReadText(bytes: seq<uint8>): (p: Parsed<Text>)
    ensures p.Got? ==> |p.rest| <= |bytes|
    ensures !p.Corrupt?
  {
    var (length, rest) :- ReadNumber(bytes, 8);
    Widths();
    Take(rest, length)
  }

  function ReadStamps(bytes: seq<uint8>): (p: Parsed<(uint128, uint64)>)
    ensures p.Got? ==> |p.rest| <= |bytes|
    ensures !p.Corrupt?
  {
    Widths();
    var (offset, afterOffset) :- ReadNumber(bytes, 16);
    var (timestamp, rest) :- ReadNumber(afterOffset, 8);
    Got((offset, timestamp), rest)
  }

  function ReadTexts(bytes: seq<uint8>): (p: Parsed<(Text, Text)>)
    ensures p.Got? ==> |p.rest| <= |bytes|
    ensures !p.Corrupt?
  {
    var (keys, afterKeys) :- ReadText(bytes);
    var (headers, rest) :- ReadText(afterKeys);
    Got((keys, headers), rest)
  }

  function ReadFlagged(bytes: seq<uint8>): (p: Parsed<(int8, Text)>)
    ensures p.Got? ==> |p.rest| <= |bytes|
    ensures !p.Corrupt?
  {
    var (flags, afterFlags) :- ReadNumber(bytes, 1);
    var (value, rest) :- ReadText(afterFlags);
    assert Pow256(1) == 256;
    Got((flags - 128, value), rest)
  }

  function ReadBody(bytes: seq<uint8>): (p: Parsed<Record>)
    ensures p.Got? ==> |p.rest| <= |bytes|
    ensures !p.Corrupt?
  {
    var (stamps, afterStamps) :- ReadStamps(bytes);
    var (texts, afterTexts) :- ReadTexts(afterStamps);
    var (flagged, rest) :- ReadFlagged(afterTexts);
    Got(Record(stamps.0, stamps.1, texts.0, texts.1, flagged.0, flagged.1), rest)
  }

  /** One archive: its signature, then the record. Whatever is read or skipped, the unread bytes
      get fewer. */
  function ReadRecord(bytes: seq<uint8>): (p: Parsed<Record>)
    ensures !p.EndOfStream? ==> |p.rest| < |bytes|
  {
    var (signature, body) :- Take(bytes, 1);
    if signature[0] == SIGNATURE then ReadBody(body) else Corrupt(body)
  }

  /** Read records until the stream ends; skip what is no archive. */
  function DecodeAll(bytes: seq<uint8>): seq<Record>
    decreases |bytes|
  {
    match ReadRecord(bytes)
    case Got(record, rest) => [record] + DecodeAll(rest)
    case EndOfStream => []
    case Corrupt(rest) => DecodeAll(rest)
  }

  // ---------------------------------------------------------------------------------------
  // Reading what was written
  // ---------------------------------------------------------------------------------------

  lemma {:induction false} NumberThenRest(n: nat, width: nat, rest: seq<uint8>)
    requires n < Pow256(width)
    ensures ReadNumber(Fixed(n, width) + rest, width) == Got(n, rest)
  {
    FixedRoundTrip(n, width);
    var all := Fixed(n, width) + rest;
    assert all[..width] == Fixed(n, width) && all[width..] == rest;
  }

  lemma {:induction false} TextThenRest(s: Text, rest: seq<uint8>)
    ensures ReadText(EncodeText(s) + rest) == Got(s, rest)
  {
    Widths();
    assert EncodeText(s) + rest == Fixed(|s|, 8) + (s + rest);
    NumberThenRest(|s|, 8, s + rest);
    assert (s + rest)[..|s|] == s && (s + rest)[|s|..] == rest;
  }

  lemma {:induction false} StampsThenRest(offset: uint128, timestamp: uint64, rest: seq<uint8>)
    ensures ReadStamps(EncodeStamps(offset, timestamp, rest)) == Got((offset, timestamp), rest)
  {
    Widths();
    NumberThenRest(offset, 16, Fixed(timestamp, 8) + rest);
    NumberThenRest(timestamp, 8, rest);
  }

  lemma {:induction false} TextsThenRest(keys: Text, headers: Text, rest: seq<uint8>)
    ensures ReadTexts(EncodeTexts(keys, headers, rest)) == Got((keys, headers), rest)
  {
    TextThenRest(keys, EncodeText(headers) + rest);
    TextThenRest(headers, rest);
  }

  lemma {:induction false} FlaggedThenRest(flags: int8, value: Text, rest: seq<uint8>)
    ensures ReadFlagged(EncodeFlagged(flags, value, rest)) == Got((flags, value), rest)
  {
    assert Pow256(1) == 256;
    NumberThenRest(flags + 128, 1, EncodeText(value) + rest);
    TextThenRest(value, rest);
  }

  lemma {:induction false} BodyThenRest(r: Record, rest: seq<uint8>)
    ensures ReadBody(EncodeBody(r, rest)) == Got(r, rest)
  {
    var flagged := EncodeFlagged(r.flags, r.value, rest);
    var texts := EncodeTexts(r.keys, r.headers, flagged);
    StampsThenRest(r.offset, r.timestamp, texts);
    TextsThenRest(r.keys, r.headers, flagged);
    FlaggedThenRest(r.flags, r.value, rest);
  }

  lemma {:induction false} StampsAppended(offset: uint128, timestamp: uint64, a: seq<uint8>, b: seq<uint8>)
    ensures EncodeStamps(offset, timestamp, a) + b == EncodeStamps(offset, timestamp, a + b)
  {
  }

  lemma {:induction false} TextsAppended(keys: Text, headers: Text, a: seq<uint8>, b: seq<uint8>)
    ensures EncodeTexts(keys, headers, a) + b == EncodeTexts(keys, headers, a + b)
  {
  }

  lemma {:induction false} FlaggedAppended(flags: int8, value: Text, a: seq<uint8>, b: seq<uint8>)
    ensures EncodeFlagged(flags, value, a) + b == EncodeFlagged(flags, value, a + b)
  {
  }

  lemma {:induction false} BodyAppended(r: Record, rest: seq<uint8>)
    ensures EncodeBody(r, []) + rest == EncodeBody(r, rest)
  {
    var flagged := EncodeFlagged(r.flags, r.value, []);
    StampsAppended(r.offset, r.timestamp, EncodeTexts(r.keys, r.headers, flagged), rest);
    TextsAppended(r.keys, r.headers, flagged, rest);
    FlaggedAppended(r.flags, r.value, [], rest);
    assert [] + rest == rest;
  }

  lemma {:induction false} SignatureThenBody(body: seq<uint8>)
    ensures ReadRecord([SIGNATURE] + body) == ReadBody(body)
  {
    assert ([SIGNATURE] + body)[1..] == body;
  }

  lemma {:induction false} RecordThenRest(r: Record, rest: seq<uint8>)
    ensures ReadRecord(Encode(r) + rest) == Got(r, rest)
  {
    var body := EncodeBody(r, []);
    Regroup([SIGNATURE], body, rest);
    BodyAppended(r, rest);
    SignatureThenBody(EncodeBody(r, rest));
    BodyThenRest(r, rest);
  }

  lemma {:induction false} Regroup(a: seq<uint8>, b: seq<uint8>, c: seq<uint8>)
    ensures (a + b) + c == a + (b + c)
  {
  }

  // ---------------------------------------------------------------------------------------
  // Reading a file that was cut
  // ---------------------------------------------------------------------------------------

  /** More bytes at the end do not change what was decided without them. */
  ghost predicate Extends<T(!new)>(short: Parsed<T>, long: Parsed<T>, more: seq<uint8>) {
    match short
    case Got(value, rest) => long == Got(value, rest + more)
    case Corrupt(rest) => long == Corrupt(rest + more)
    case EndOfStream => true
  }

  lemma {:induction false} TakeExtends(bytes: seq<uint8>, n: nat, more: seq<uint8>)
    ensures Extends(Take(bytes, n), Take(bytes + more, n), more)
  {
    if n <= |bytes| {
      assert (bytes + more)[..n] == bytes[..n] && (bytes + more)[n..] == bytes[n..] + more;
    }
  }

  lemma {:induction false} NumberExtends(bytes: seq<uint8>, width: nat, more: seq<uint8>)
    ensures Extends(ReadNumber(bytes, width), ReadNumber(bytes + more, width), more)
  {
    TakeExtends(bytes, width, more);
  }

  lemma {:induction false} TextExtends(bytes: seq<uint8>, more: seq<uint8>)
    ensures Extends(ReadText(bytes), ReadText(bytes + more), more)
  {
    NumberExtends(bytes, 8, more);
    var length := ReadNumber(bytes, 8);
    if length.Got? {
      TakeExtends(length.rest, length.value, more);
    }
  }

  lemma {:induction false} StampsExtend(bytes: seq<uint8>, more: seq<uint8>)
    ensures Extends(ReadStamps(bytes), ReadStamps(bytes + more), more)
  {
    NumberExtends(bytes, 16, more);
    var offset := ReadNumber(bytes, 16);
    if offset.Got? {
      NumberExtends(offset.rest, 8, more);
    }
  }

  lemma {:induction false} TextsExtend(bytes: seq<uint8>, more: seq<uint8>)
    ensures Extends(ReadTexts(bytes), ReadTexts(bytes + more), more)
  {
    TextExtends(bytes, more);
    var keys := ReadText(bytes);
    if keys.Got? {
      TextExtends(keys.rest, more);
    }
  }

  lemma {:induction false} FlaggedExtends(bytes: seq<uint8>, more: seq<uint8>)
    ensures Extends(ReadFlagged(bytes), ReadFlagged(bytes + more), more)
  {
    NumberExtends(bytes, 1, more);
    var flags := ReadNumber(bytes, 1);
    if flags.Got? {
      TextExtends(flags.rest, more);
    }
  }

  lemma {:induction false} BodyExtends(bytes: seq<uint8>, more: seq<uint8>)
    ensures Extends(ReadBody(bytes), ReadBody(bytes + more), more)
  {
    StampsExtend(bytes, more);
    var stamps := ReadStamps(bytes);
    if stamps.Got? {
      TextsExtend(stamps.rest, more);
      var texts := ReadTexts(stamps.rest);
      if texts.Got? {
        FlaggedExtends(texts.rest, more);
      }
    }
  }

  lemma {:induction false} RecordExtends(bytes: seq<uint8>, more: seq<uint8>)
    ensures Extends(ReadRecord(bytes), ReadRecord(bytes + more), more)
  {
    if bytes != [] {
      assert (bytes + more)[1..] == bytes[1..] + more;
      BodyExtends(bytes[1..], more);
    }
  }

  /** A record cut anywhere before its end reads as the end of the stream. */
  lemma {:induction false} CutRecord(r: Record, n: nat)
    requires n < |Encode(r)|
    ensures ReadRecord(Encode(r)[..n]) == EndOfStream
  {
    var short, more := Encode(r)[..n], Encode(r)[n..];
    assert short + more == Encode(r) == Encode(r) + [];
    RecordExtends(short, more);
    RecordThenRest(r, []);
  }

  /** How many records lie wholly within the first `n` bytes. */
  function Whole(records: seq<Record>, n: nat): (k: nat)
    ensures k <= |records|
  {
    if records == [] || n < |Encode(records[0])| then 0 else 1 + Whole(records[1..], n - |Encode(records[0])|)
  }

  lemma {:induction false} WholeIsMaximal(records: seq<Record>, n: nat)
    ensures var k := Whole(records, n);
            && (|EncodeAll(records[..k])| <= n)
            && (k < |records| ==> n < |EncodeAll(records[..k + 1])|)
  {
    if records == [] || n < |Encode(records[0])| {
      if records != [] {
        assert records[..1][1..] == [];
      }
    } else {
      WholeIsMaximal(records[1..], n - |Encode(records[0])|);
      var k := Whole(records[1..], n - |Encode(records[0])|);
      assert records[..k + 1][1..] == records[1..][..k];
      if k + 1 < |records| {
        assert records[..k + 2][1..] == records[1..][..k + 1];
      }
    }
  }

  /** Decoding a file cut at any byte returns exactly the records that lie wholly before the cut,
      in order; uncut, it returns all of them. */
  lemma {:induction false} DecodeCut(records: seq<Record>, n: nat)
    requires n <= |EncodeAll(records)|
    ensures DecodeAll(EncodeAll(records)[..n]) == records[..Whole(records, n)]
    ensures n == |EncodeAll(records)| ==> DecodeAll(EncodeAll(records)[..n]) == records
    decreases |records|
  {
    if records != [] {
      var first, tail := Encode(records[0]), EncodeAll(records[1..]);
      if n < |first| {
        assert EncodeAll(records)[..n] == first[..n];
        CutRecord(records[0], n);
      } else {
        var k := Whole(records[1..], n - |first|);
        DecodeCut(records[1..], n - |first|);
        DecodeFirst(records[0], tail[..n - |first|]);
        CutAfterFirst(first, tail, n);
        PrefixAfterFirst(records, k);
      }
    }
  }

  lemma {:induction false} CutAfterFirst(first: seq<uint8>, tail: seq<uint8>, n: nat)
    requires |first| <= n <= |first| + |tail|
    ensures (first + tail)[..n] == first + tail[..n - |first|]
  {
  }

  lemma {:induction false} PrefixAfterFirst(records: seq<Record>, k: nat)
    requires records != [] && k <= |records[1..]|
    ensures records[..1 + k] == [records[0]] + records[1..][..k]
    ensures [records[0]] + records[1..] == records
  {
  }

  lemma {:induction false} DecodeFirst(r: Record, rest: seq<uint8>)
    ensures DecodeAll(Encode(r) + rest) == [r] + DecodeAll(rest)
  {
    RecordThenRest(r, rest);
  }

  /** Decoding appended records returns exactly those records in order. */
  lemma {:induction false} DecodeAppended(records: seq<Record>, more: Record)
    ensures EncodeAll(records + [more]) == EncodeAll(records) + Encode(more)
    ensures DecodeAll(EncodeAll(records) + Encode(more)) == records + [more]
  {
    EncodeAppended(records, more);
    DecodeCut(records + [more], |EncodeAll(records + [more])|);
    assert EncodeAll(records + [more])[..|EncodeAll(records + [more])|] == EncodeAll(records) + Encode(more);
  }

  lemma {:induction false} EncodeAppended(records: seq<Record>, more: Record)
    ensures EncodeAll(records + [more]) == EncodeAll(records) + Encode(more)
  {
    if records == [] {
      assert records + [more] == [more] && [more][1..] == [];
    } else {
      assert (records + [more])[1..] == records[1..] + [more];
      EncodeAppended(records[1..], more);
    }
  }
}
