/** Base64 as the server computes it: a stream of bits cut anew, an alphabet, and padding
    (communication/http/rest_server.cpp); section 4 of RFC 4648 is the reference. */
module Base64 {
  import opened Numbers

  type Sextet = x: int | 0 <= x < 64

  // ---------------------------------------------------------------------------------------
  // Bits
  // ---------------------------------------------------------------------------------------

  function Pow2(width: nat): (p: nat)
    ensures p > 0
  {
    if width == 0 then 1 else 2 * Pow2(width - 1)
  }

  /** The lowest `width` bits of a number, most significant first. */
  function Bits(v: nat, width: nat): (bits: seq<bool>)
    ensures |bits| == width
    decreases v, width
  {
    if width == 0 then [] else Bits(v / 2, width - 1) + [v % 2 == 1]
  }

  function Value(bits: seq<bool>): (v: nat)
    ensures v < Pow2(|bits|)
  {
    if bits == [] then 0
    else 2 * Value(bits[..|bits| - 1]) + if bits[|bits| - 1] then 1 else 0
  }

  lemma {:induction false} ValueOfBits(v: nat, width: nat)
    requires v < Pow2(width)
    ensures Value(Bits(v, width)) == v
    decreases width
  {
    if width > 0 {
      ValueOfBits(v / 2, width - 1);
      assert Bits(v, width)[..width - 1] == Bits(v / 2, width - 1);
    }
  }

  lemma {:induction false} BitsOfValue(bits: seq<bool>)
    ensures Bits(Value(bits), |bits|) == bits
  {
    if bits != [] {
      BitsOfValue(bits[..|bits| - 1]);
      assert bits == bits[..|bits| - 1] + [bits[|bits| - 1]];
    }
  }

  function Zeros(n: nat): (bits: seq<bool>)
    ensures |bits| == n && forall i :: 0 <= i < n ==> !bits[i]
  {
    seq(n, i => false)
  }

  /** The bits of every number in turn. */
  function Flatten(xs: seq<nat>, width: nat): (bits: seq<bool>)
    ensures |bits| == |xs| * width
  {
    if xs == [] then [] else Bits(xs[0], width) + Flatten(xs[1..], width)
  }

  /** The bits in groups of `width`; bits that do not fill a group are dropped. */
  function Chunk(bits: seq<bool>, width: nat): (xs: seq<nat>)
    requires width > 0
    ensures forall i :: 0 <= i < |xs| ==> xs[i] < Pow2(width)
  {
    if |bits| < width then [] else [Value(bits[..width])] + Chunk(bits[width..], width)
  }

  // ---------------------------------------------------------------------------------------
  // The stream
  // ---------------------------------------------------------------------------------------

  /** The stream adaptor: it keeps the bits it has read and not yet emitted, reads another number
      when they do not fill an output, and at the end of the input either fills the last output
      with zeros or drops what is left. */
  function Regroup(input: seq<nat>, widthIn: nat, widthOut: nat, pending: seq<bool>, zeroFill: bool): seq<nat>
    requires widthOut > 0
    decreases |input|, |pending|
  {
    if |pending| >= widthOut then
      [Value(pending[..widthOut])] + Regroup(input, widthIn, widthOut, pending[widthOut..], zeroFill)
    else if input != [] then
      Regroup(input[1..], widthIn, widthOut, pending + Bits(input[0], widthIn), zeroFill)
    else if zeroFill && pending != [] then
      [Value(pending + Zeros(widthOut - |pending|))]
    else []
  }

  /** How many zeros make the number of bits a multiple of `width`. */
  function Missing(count: nat, width: nat): nat
    requires width > 0
    decreases count
  {
    if count == 0 then 0 else if count <= width then width - count else Missing(count - width, width)
  }

  /** A bit string, filled with zeros to whole groups if asked for. */
  function Filled(bits: seq<bool>, width: nat, zeroFill: bool): seq<bool>
    requires width > 0
  {
    bits + Zeros(if zeroFill then Missing(|bits|, width) else 0)
  }

  /** Streaming is cutting the whole bit string at once. */
  lemma {:induction false} RegroupIsChunk(
    input: seq<nat>, widthIn: nat, widthOut: nat, pending: seq<bool>, zeroFill: bool)
    requires widthOut > 0
    ensures Regroup(input, widthIn, widthOut, pending, zeroFill)
         == Chunk(Filled(pending + Flatten(input, widthIn), widthOut, zeroFill), widthOut)
    decreases |input|, |pending|
  {
    if |pending| >= widthOut {
      RegroupIsChunk(input, widthIn, widthOut, pending[widthOut..], zeroFill);
      ChunkFirst(pending, Flatten(input, widthIn), widthOut, zeroFill);
    } else if input != [] {
      var first := Bits(input[0], widthIn);
      RegroupIsChunk(input[1..], widthIn, widthOut, pending + first, zeroFill);
      FlattenOne(input, widthIn);
      Reassociate(pending, first, Flatten(input[1..], widthIn));
    } else {
      ChunkLast(pending, widthOut, zeroFill);
    }
  }

  lemma {:induction false} ChunkFirst(pending: seq<bool>, more: seq<bool>, width: nat, zeroFill: bool)
    requires 0 < width <= |pending|
    ensures Chunk(Filled(pending + more, width, zeroFill), width)
         == [Value(pending[..width])] + Chunk(Filled(pending[width..] + more, width, zeroFill), width)
  {
    var bits := Filled(pending + more, width, zeroFill);
    MissingStep(|pending + more|, width);
    assert bits[..width] == pending[..width];
    assert bits[width..] == Filled(pending[width..] + more, width, zeroFill);
  }

  lemma {:induction false} ChunkLast(pending: seq<bool>, width: nat, zeroFill: bool)
    requires |pending| < width
    ensures Chunk(Filled(pending + [], width, zeroFill), width)
         == if zeroFill && pending != [] then [Value(pending + Zeros(width - |pending|))] else []
  {
    assert pending + [] == pending;
    if zeroFill && pending != [] {
      var full := pending + Zeros(width - |pending|);
      assert full[..width] == full && full[width..] == [];
    } else {
      assert pending + Zeros(0) == pending;
    }
  }

  lemma {:induction false} MissingStep(count: nat, width: nat)
    requires width > 0 && count >= width
    ensures Missing(count, width) == Missing(count - width, width)
  {
  }

  lemma {:induction false} FlattenChunk(bits: seq<bool>, width: nat, n: nat)
    requires width > 0 && |bits| == n * width
    ensures Flatten(Chunk(bits, width), width) == bits && |Chunk(bits, width)| == n
    decreases n
  {
    if n > 0 {
      var front, rest := bits[..width], bits[width..];
      LessOne(n, width);
      FlattenChunk(rest, width, n - 1);
      assert Chunk(bits, width) == [Value(front)] + Chunk(rest, width);
      FlattenOne(Chunk(bits, width), width);
      BitsOfValue(front);
      assert bits == front + rest;
    }
  }

  lemma {:induction false} LessOne(n: nat, width: nat)
    requires n > 0
    ensures n * width - width == (n - 1) * width >= 0
  {
  }

  lemma {:induction false} ChunkFlatten(xs: seq<nat>, width: nat)
    requires width > 0 && forall i :: 0 <= i < |xs| ==> xs[i] < Pow2(width)
    ensures Chunk(Flatten(xs, width), width) == xs
  {
    if xs != [] {
      ChunkFlatten(xs[1..], width);
      var bits := Flatten(xs, width);
      assert bits[..width] == Bits(xs[0], width) && bits[width..] == Flatten(xs[1..], width);
      ValueOfBits(xs[0], width);
    }
  }

  lemma {:induction false} FlattenConcat(a: seq<nat>, b: seq<nat>, width: nat)
    ensures Flatten(a + b, width) == Flatten(a, width) + Flatten(b, width)
  {
    if a == [] {
      assert a + b == b;
    } else {
      assert (a + b)[1..] == a[1..] + b;
      FlattenConcat(a[1..], b, width);
    }
  }

  lemma {:induction false} FlattenZeros(zeros: seq<nat>, width: nat)
    requires forall i :: 0 <= i < |zeros| ==> zeros[i] == 0
    ensures Flatten(zeros, width) == Zeros(|zeros| * width)
  {
    if zeros != [] {
      FlattenZeros(zeros[1..], width);
      BitsOfZero(width);
      assert |zeros| * width == width + |zeros[1..]| * width;
    }
  }

  lemma {:induction false} BitsOfZero(width: nat)
    ensures Bits(0, width) == Zeros(width)
  {
    if width > 0 {
      BitsOfZero(width - 1);
    }
  }

  // ---------------------------------------------------------------------------------------
  // The alphabet
  // ---------------------------------------------------------------------------------------

  function CharOf(x: Sextet): (c: char)
    ensures c != '='
  {
    if x < 26 then ('A' as int + x) as char
    else if x < 52 then ('a' as int + x - 26) as char
    else if x < 62 then ('0' as int + x - 52) as char
    else if x == 62 then '+' else '/'
  }

  /** The decoder reads the padding character as zero bits, wherever it stands. */
  function SextetOf(c: char): Option<Sextet> {
    if 'A' <= c <= 'Z' then Some(c as int - 'A' as int)
    else if 'a' <= c <= 'z' then Some(c as int - 'a' as int + 26)
    else if '0' <= c <= '9' then Some(c as int - '0' as int + 52)
    else if c == '+' then Some(62)
    else if c == '/' then Some(63)
    else if c == '=' then Some(0)
    else None
  }

  lemma {:induction false} SextetOfChar(x: Sextet)
    ensures SextetOf(CharOf(x)) == Some(x)
  {
  }

  predicate AllValid(text: string) {
    forall i :: 0 <= i < |text| ==> SextetOf(text[i]).Some?
  }

  // ---------------------------------------------------------------------------------------
  // Encoding and decoding
  // ---------------------------------------------------------------------------------------

  function Characters(xs: seq<nat>): (text: string)
    requires forall i :: 0 <= i < |xs| ==> xs[i] < 64
    ensures |text| == |xs| && forall i :: 0 <= i < |xs| ==> text[i] == CharOf(xs[i])
  {
    seq(|xs|, i requires 0 <= i < |xs| => CharOf(xs[i]))
  }

  function Sextets(text: string): (xs: seq<nat>)
    requires AllValid(text)
    ensures |xs| == |text| && forall i :: 0 <= i < |text| ==> SextetOf(text[i]) == Some(xs[i])
  {
    seq(|text|, i requires 0 <= i < |text| => SextetOf(text[i]).value)
  }

  function Padding(size: nat): nat {
    (3 - size % 3) % 3
  }

  function Repeat(c: char, n: nat): (text: string)
    ensures |text| == n && forall i :: 0 <= i < n ==> text[i] == c
  {
    seq(n, i => c)
  }

  /** The six-bit groups of a byte string, as the stream yields them. */
  function SixBitGroups(val: seq<uint8>): (xs: seq<nat>)
    ensures forall i :: 0 <= i < |xs| ==> xs[i] < 64
    ensures xs == Chunk(Flatten(val, 8) + Zeros(Missing(|val| * 8, 6)), 6)
  {
    RegroupIsChunk(val, 8, 6, [], true);
    assert [] + Flatten(val, 8) == Flatten(val, 8);
    assert Pow2(6) == 64;
    Regroup(val, 8, 6, [], true)
  }

  function Encode64(val: seq<uint8>): string {
    Characters(SixBitGroups(val)) + Repeat('=', Padding(|val|))
  }

  function TrimNul(bytes: seq<uint8>): (trimmed: seq<uint8>)
    ensures trimmed <= bytes
    ensures trimmed != [] ==> trimmed[|trimmed| - 1] != 0
    ensures forall i :: |trimmed| <= i < |bytes| ==> bytes[i] == 0
  {
    if bytes != [] && bytes[|bytes| - 1] == 0 then TrimNul(bytes[..|bytes| - 1]) else bytes
  }

  datatype DecodeError = InvalidCharacter

  /** On texts whose length is 1 modulo 4 the program reads past the end. */
  function Decode64(text: string): Result<seq<uint8>, DecodeError>
    requires |text| % 4 != 1
  {
    if AllValid(text) then Ok(TrimNul(EightBitGroups(text))) else Err(InvalidCharacter)
  }

  function EightBitGroups(text: string): (bytes: seq<uint8>)
    requires AllValid(text)
    ensures bytes == Chunk(Flatten(Sextets(text), 6), 8)
  {
    RegroupIsChunk(Sextets(text), 6, 8, [], false);
    assert [] + Flatten(Sextets(text), 6) + Zeros(0) == Flatten(Sextets(text), 6);
    assert Pow2(8) == 256;
    var xs := Regroup(Sextets(text), 6, 8, [], false);
    assert forall i :: 0 <= i < |xs| ==> xs[i] < 256;
    xs
  }

  // ---------------------------------------------------------------------------------------
  // Shape of an encoding
  // ---------------------------------------------------------------------------------------

  lemma {:induction false} MissingOfBytes(n: nat)
    ensures Missing(n * 8, 6) == if n % 3 == 0 then 0 else if n % 3 == 1 then 4 else 2
    decreases n
  {
    if n >= 3 {
      MissingOfBytes(n - 3);
      MissingStep(n * 8, 6);
      MissingStep(n * 8 - 6, 6);
      MissingStep(n * 8 - 12, 6);
      MissingStep(n * 8 - 18, 6);
    } else if n == 2 {
      MissingStep(16, 6);
      MissingStep(10, 6);
    } else if n == 1 {
      MissingStep(8, 6);
    }
  }

  /** The number of six-bit groups in `n` bytes. */
  function GroupsIn(n: nat): nat {
    n / 3 * 4 + if n % 3 == 0 then 0 else n % 3 + 1
  }

  lemma {:induction false} CountBits(n: nat)
    ensures n * 8 + Missing(n * 8, 6) == GroupsIn(n) * 6
    ensures GroupsIn(n) + Padding(n) == (n + 2) / 3 * 4
  {
    MissingOfBytes(n);
  }

  lemma {:induction false} GroupCount(val: seq<uint8>)
    ensures |SixBitGroups(val)| == GroupsIn(|val|)
    ensures Flatten(SixBitGroups(val), 6) == Flatten(val, 8) + Zeros(Missing(|val| * 8, 6))
  {
    CountBits(|val|);
    FlattenChunk(Flatten(val, 8) + Zeros(Missing(|val| * 8, 6)), 6, GroupsIn(|val|));
  }

  /** An encoding is four characters for every three bytes begun, and the padding character stands
      at its last zero to two places and nowhere else. */
  lemma {:induction false} EncodingShape(val: seq<uint8>)
    ensures |Encode64(val)| == (|val| + 2) / 3 * 4
    ensures Padding(|val|) <= 2 && Padding(|val|) <= |Encode64(val)|
    ensures forall i :: 0 <= i < |Encode64(val)| ==>
              (Encode64(val)[i] == '=' <==> i >= |Encode64(val)| - Padding(|val|))
    ensures AllValid(Encode64(val))
  {
    GroupCount(val);
    CountBits(|val|);
    var xs := SixBitGroups(val);
    forall i | 0 <= i < |xs| ensures SextetOf(CharOf(xs[i])) == Some(xs[i]) {
      SextetOfChar(xs[i]);
    }
  }

  // ---------------------------------------------------------------------------------------
  // Round trip
  // ---------------------------------------------------------------------------------------

  lemma {:induction false} SextetsOfEncoding(val: seq<uint8>)
    requires AllValid(Encode64(val))
    ensures var zeros := seq(Padding(|val|), i => 0);
            Sextets(Encode64(val)) == SixBitGroups(val) + zeros
  {
    var xs := SixBitGroups(val);
    forall i | 0 <= i < |xs| ensures SextetOf(CharOf(xs[i])) == Some(xs[i]) {
      SextetOfChar(xs[i]);
    }
  }

  /** The decoder sees the bits of the input, followed by whole zero bytes. */
  lemma {:induction false} DecodedBits(val: seq<uint8>)
    requires AllValid(Encode64(val))
    ensures Flatten(Sextets(Encode64(val)), 6) == Flatten(val, 8) + Zeros(Padding(|val|) * 8)
  {
    var zeros: seq<nat> := seq(Padding(|val|), i => 0);
    SextetsOfEncoding(val);
    GroupCount(val);
    FlattenConcat(SixBitGroups(val), zeros, 6);
    FlattenZeros(zeros, 6);
    FillIsWholeBytes(|val|);
    ZerosAfterZeros(Flatten(val, 8), Missing(|val| * 8, 6), Padding(|val|) * 6, Padding(|val|) * 8);
  }

  lemma {:induction false} FillIsWholeBytes(n: nat)
    ensures Missing(n * 8, 6) + Padding(n) * 6 == Padding(n) * 8
  {
    MissingOfBytes(n);
  }

  lemma {:induction false} ZerosAfterZeros(bits: seq<bool>, m: nat, n: nat, total: nat)
    requires total == m + n
    ensures bits + Zeros(m) + Zeros(n) == bits + Zeros(total)
  {
  }

  lemma {:induction false} DecodedBytes(val: seq<uint8>)
    requires AllValid(Encode64(val))
    ensures var zeros: seq<uint8> := seq(Padding(|val|), i => 0);
            EightBitGroups(Encode64(val)) == val + zeros
  {
    var zeros: seq<uint8> := seq(Padding(|val|), i => 0);
    DecodedBits(val);
    FlattenConcat(val, zeros, 8);
    FlattenZeros(zeros, 8);
    assert Pow2(8) == 256;
    ChunkFlatten(val + zeros, 8);
  }

  lemma {:induction false} TrimZeros(bytes: seq<uint8>, zeros: seq<uint8>)
    requires forall i :: 0 <= i < |zeros| ==> zeros[i] == 0
    ensures TrimNul(bytes + zeros) == TrimNul(bytes)
  {
    if zeros == [] {
      assert bytes + zeros == bytes;
    } else {
      var shorter := zeros[..|zeros| - 1];
      assert (bytes + zeros)[..|bytes + zeros| - 1] == bytes + shorter;
      TrimZeros(bytes, shorter);
    }
  }

  /** Decoding an encoding gives the bytes without their trailing NULs, for every byte string; so
      it gives the bytes back exactly when they do not end in NUL. */
  lemma {:induction false} RoundTrip(val: seq<uint8>)
    ensures |Encode64(val)| % 4 != 1
    ensures Decode64(Encode64(val)) == Ok(TrimNul(val))
    ensures Decode64(Encode64(val)) == Ok(val) <==> (val == [] || val[|val| - 1] != 0)
  {
    EncodingShape(val);
    DecodedBytes(val);
    TrimZeros(val, seq(Padding(|val|), i => 0));
    FourTimes((|val| + 2) / 3);
  }

  lemma {:induction false} FourTimes(n: nat)
    ensures n * 4 % 4 == 0
  {
  }

  /** No two byte strings have the same encoding, trailing NULs or not. */
  lemma {:induction false} EncodingIsInjective(a: seq<uint8>, b: seq<uint8>)
    requires Encode64(a) == Encode64(b)
    ensures a == b
  {
    RoundTrip(a);
    RoundTrip(b);
    SameLength(a, b);
    var trimmed := TrimNul(a);
    assert trimmed == TrimNul(b);
    forall i | 0 <= i < |a| ensures a[i] == b[i] {
      if i < |trimmed| {
        assert a[i] == trimmed[i] == b[i];
      }
    }
  }

  /** The length of the input can be read off the length of the encoding and its padding. */
  lemma {:induction false} SameLength(a: seq<uint8>, b: seq<uint8>)
    requires Encode64(a) == Encode64(b)
    ensures |a| == |b|
  {
    EncodingShape(a);
    EncodingShape(b);
    PaddingIsUnique(Encode64(a), Padding(|a|), Padding(|b|));
    LengthFrom(|a|, |b|);
  }

  lemma {:induction false} PaddingIsUnique(text: string, a: nat, b: nat)
    requires a <= |text| && b <= |text|
    requires forall i :: 0 <= i < |text| ==> (text[i] == '=' <==> i >= |text| - a)
    requires forall i :: 0 <= i < |text| ==> (text[i] == '=' <==> i >= |text| - b)
    ensures a == b
  {
    if a > 0 {
      assert text[|text| - a] == '=';
    }
    if b > 0 {
      assert text[|text| - b] == '=';
    }
  }

  lemma {:induction false} LengthFrom(m: nat, n: nat)
    requires (m + 2) / 3 * 4 == (n + 2) / 3 * 4 && Padding(m) == Padding(n)
    ensures m == n
  {
  }

  /** The decoder takes the padding character for 'A' wherever it stands: it does not look at
      where padding belongs. */
  lemma {:induction false} PaddingDecodesAsA(text: string, plain: string)
    requires |text| == |plain| && |text| % 4 != 1
    requires forall i :: 0 <= i < |text| ==> plain[i] == if text[i] == '=' then 'A' else text[i]
    ensures Decode64(text) == Decode64(plain)
  {
    forall i | 0 <= i < |text| ensures SextetOf(text[i]) == SextetOf(plain[i]) {
    }
    assert AllValid(text) ==> AllValid(plain);
    assert AllValid(plain) ==> AllValid(text);
    if AllValid(text) {
      assert Sextets(text) == Sextets(plain);
    }
  }

  // ---------------------------------------------------------------------------------------
  // The definition by 24-bit groups
  // ---------------------------------------------------------------------------------------

  /** The four six-bit groups of a 24-bit number. */
  function Quad(v: nat): (xs: seq<nat>)
    ensures |xs| == 4 && forall i :: 0 <= i < 4 ==> xs[i] < 64
  {
    [v / 0x4_0000 % 64, v / 0x1000 % 64, v / 64 % 64, v % 64]
  }

  /** By 24-bit groups: three bytes make one, which is four characters; a last
      group of one or two bytes is filled with zero bits, and yields two or three characters and
      two or one padding characters. */
  function QuadEncoding(val: seq<uint8>): string {
    if |val| == 0 then ""
    else if |val| == 1 then Characters(Quad(Word(val[0], 0, 0))[..2]) + "=="
    else if |val| == 2 then Characters(Quad(Word(val[0], val[1], 0))[..3]) + "="
    else Characters(Quad(Word(val[0], val[1], val[2]))) + QuadEncoding(val[3..])
  }

  function Word(a: nat, b: nat, c: nat): nat {
    a * 0x1_0000 + b * 0x100 + c
  }

  /** The number without its lowest `low` bits. */
  function High(v: nat, low: nat): nat
    decreases v, low
  {
    if low == 0 then v else High(v / 2, low - 1)
  }

  lemma {:induction false} BitsSplit(v: nat, high: nat, low: nat)
    ensures Bits(v, high + low) == Bits(High(v, low), high) + Bits(v, low)
    decreases low
  {
    if low > 0 {
      BitsSplit(v / 2, high, low - 1);
    }
  }

  lemma {:induction false} HighAgain(v: nat, a: nat, b: nat)
    ensures High(High(v, a), b) == High(v, a + b)
    decreases a
  {
    if a > 0 {
      HighAgain(v / 2, a - 1, b);
    }
  }

  lemma {:induction false} ShiftTwo(v: nat)
    ensures High(v, 2) == v / 4
  {
    assert High(v, 2) == High(v / 2, 1) == High(v / 2 / 2, 0);
  }

  lemma {:induction false} ShiftSix(v: nat)
    ensures High(v, 6) == v / 64
  {
    ShiftTwo(v);
    ShiftTwo(v / 4);
    ShiftTwo(v / 16);
    HighAgain(v, 2, 2);
    HighAgain(v, 4, 2);
  }

  lemma {:induction false} ShiftMore(v: nat)
    ensures High(v, 12) == v / 0x1000 && High(v, 18) == v / 0x4_0000
  {
    ShiftSix(v);
    ShiftSix(v / 64);
    ShiftSix(v / 0x1000);
    HighAgain(v, 6, 6);
    HighAgain(v, 12, 6);
  }

  /** Higher parts of a number do not show in its lowest bits. */
  lemma {:induction false} LowBits(q: nat, r: nat, width: nat)
    ensures Bits(q * Pow2(width) + r, width) == Bits(r, width)
    decreases width
  {
    if width > 0 {
      var t := q * Pow2(width - 1);
      assert q * Pow2(width) == 2 * t;
      LowBits(q, r / 2, width - 1);
    }
  }

  lemma {:induction false} SextetValue(v: nat)
    ensures Value(Bits(v, 6)) == v % 64
  {
    assert Pow2(6) == 64;
    LowBits(v / 64, v % 64, 6);
    ValueOfBits(v % 64, 6);
  }

  lemma {:induction false} HighOfJoin(q: nat, r: nat, width: nat)
    requires r < Pow2(width)
    ensures High(q * Pow2(width) + r, width) == q
    decreases width
  {
    if width > 0 {
      var t := q * Pow2(width - 1);
      assert q * Pow2(width) == 2 * t;
      HighOfJoin(q, r / 2, width - 1);
    }
  }

  /** Writing two numbers side by side puts their bits side by side. */
  lemma {:induction false} JoinBits(q: nat, high: nat, r: nat, width: nat)
    requires r < Pow2(width)
    ensures Bits(q * Pow2(width) + r, high + width) == Bits(q, high) + Bits(r, width)
  {
    HighOfJoin(q, r, width);
    LowBits(q, r, width);
    BitsSplit(q * Pow2(width) + r, high, width);
  }

  /** The number of the bits of a, then b, then c, each of `width` bits. */
  function Joined(a: nat, b: nat, c: nat, width: nat): nat {
    (a * Pow2(width) + b) * Pow2(width) + c
  }

  /** The lowest 4u bits of a number, as four parts of u bits. */
  function FourParts(v: nat, u: nat): seq<bool> {
    Bits(High(v, 3 * u), u) + Bits(High(v, 2 * u), u) + Bits(High(v, u), u) + Bits(v, u)
  }

  /** Three numbers of one width side by side, when they have as many bits as four of another, are
      the four parts of their joined number side by side. */
  lemma {:induction false} ThreeIntoFour(a: nat, b: nat, c: nat, w: nat, u: nat)
    requires b < Pow2(w) && c < Pow2(w) && 3 * w == 4 * u
    ensures Bits(a, w) + Bits(b, w) + Bits(c, w) == FourParts(Joined(a, b, c, w), u)
  {
    var v := Joined(a, b, c, w);
    JoinBits(a, w, b, w);
    JoinBits(a * Pow2(w) + b, w + w, c, w);
    BitsSplit(v, 3 * u, u);
    BitsSplit(High(v, u), 2 * u, u);
    HighAgain(v, u, u);
    BitsSplit(High(v, 2 * u), u, u);
    HighAgain(v, 2 * u, u);
  }

  lemma {:induction false} ChunkOne(x: seq<bool>, rest: seq<bool>)
    requires |x| == 6
    ensures Chunk(x + rest, 6) == [Value(x)] + Chunk(rest, 6)
  {
    assert (x + rest)[..6] == x && (x + rest)[6..] == rest;
  }

  lemma {:induction false} ChunkFour(x0: seq<bool>, x1: seq<bool>, x2: seq<bool>, x3: seq<bool>, rest: seq<bool>)
    requires |x0| == |x1| == |x2| == |x3| == 6
    ensures Chunk(x0 + x1 + x2 + x3 + rest, 6) == [Value(x0), Value(x1), Value(x2), Value(x3)] + Chunk(rest, 6)
  {
    ChunkOne(x3, rest);
    ChunkOne(x2, x3 + rest);
    ChunkOne(x1, x2 + (x3 + rest));
    ChunkOne(x0, x1 + (x2 + (x3 + rest)));
    assert x0 + x1 + x2 + x3 + rest == x0 + (x1 + (x2 + (x3 + rest)));
  }

  /** Cutting the bits of three bytes in sixes gives the four groups of their 24-bit number. */
  lemma {:induction false} QuadOfBytes(a: uint8, b: uint8, c: uint8, rest: seq<bool>)
    ensures Chunk(Bits(a, 8) + Bits(b, 8) + Bits(c, 8) + rest, 6) == Quad(Word(a, b, c)) + Chunk(rest, 6)
  {
    var v := Word(a, b, c);
    JoinedIsWord(a, b, c);
    ThreeIntoFour(a, b, c, 8, 6);
    ChunkFour(Bits(High(v, 18), 6), Bits(High(v, 12), 6), Bits(High(v, 6), 6), Bits(v, 6), rest);
    QuadValues(v);
  }

  lemma {:induction false} JoinedIsWord(a: nat, b: nat, c: nat)
    ensures Pow2(8) == 256 && Joined(a, b, c, 8) == Word(a, b, c)
  {
    assert Pow2(8) == 256;
  }

  lemma {:induction false} QuadValues(v: nat)
    ensures [Value(Bits(High(v, 18), 6)), Value(Bits(High(v, 12), 6)), Value(Bits(High(v, 6), 6)), Value(Bits(v, 6))]
         == Quad(v)
  {
    ShiftSix(v);
    ShiftMore(v);
    SextetValue(High(v, 18));
    SextetValue(High(v, 12));
    SextetValue(High(v, 6));
    SextetValue(v);
  }

  lemma {:induction false} ChunkPrefix(bits: seq<bool>, width: nat, k: nat)
    requires width > 0 && k * width <= |bits|
    ensures k <= |Chunk(bits, width)| && Chunk(bits[..k * width], width) == Chunk(bits, width)[..k]
    decreases k
  {
    if k > 0 {
      assert k * width == width + (k - 1) * width;
      ChunkPrefix(bits[width..], width, k - 1);
      assert bits[..k * width][..width] == bits[..width];
      assert bits[..k * width][width..] == bits[width..][..(k - 1) * width];
    }
  }

  /** The six-bit groups of a byte string, cut from the whole bit string at once. */
  function GroupsOf(val: seq<uint8>): (xs: seq<nat>)
    ensures forall i :: 0 <= i < |xs| ==> xs[i] < 64
  {
    assert Pow2(6) == 64;
    Chunk(Flatten(val, 8) + Zeros(Missing(|val| * 8, 6)), 6)
  }

  lemma {:induction false} EncodeCutsGroups(val: seq<uint8>)
    ensures Encode64(val) == Characters(GroupsOf(val)) + Repeat('=', Padding(|val|))
  {
  }

  /** Three whole bytes in front of a string put their four groups in front of its groups. */
  lemma {:induction false} GroupsOfThree(val: seq<uint8>)
    requires |val| >= 3
    ensures GroupsOf(val) == Quad(Word(val[0], val[1], val[2])) + GroupsOf(val[3..])
  {
    var m := Missing(|val| * 8, 6);
    assert Missing(|val[3..]| * 8, 6) == m by {
      MissingOfBytes(|val|);
      MissingOfBytes(|val[3..]|);
    }
    ChunkThree(val, Zeros(m));
  }

  lemma {:induction false} ChunkThree(val: seq<uint8>, z: seq<bool>)
    requires |val| >= 3
    ensures Chunk(Flatten(val, 8) + z, 6) == Quad(Word(val[0], val[1], val[2])) + Chunk(Flatten(val[3..], 8) + z, 6)
  {
    FrontThree(val, 8, z);
    QuadOfBytes(val[0], val[1], val[2], Flatten(val[3..], 8) + z);
  }

  lemma {:induction false} FrontThree(val: seq<nat>, width: nat, z: seq<bool>)
    requires |val| >= 3
    ensures Flatten(val, width) + z
         == Bits(val[0], width) + Bits(val[1], width) + Bits(val[2], width) + (Flatten(val[3..], width) + z)
  {
    FlattenThree(val, width);
    Reassociate(Bits(val[0], width) + Bits(val[1], width) + Bits(val[2], width), Flatten(val[3..], width), z);
  }

  lemma {:induction false} FlattenThree(val: seq<nat>, width: nat)
    requires |val| >= 3
    ensures Flatten(val, width)
         == Bits(val[0], width) + Bits(val[1], width) + Bits(val[2], width) + Flatten(val[3..], width)
  {
    FlattenOne(val, width);
    FlattenOne(val[1..], width);
    FlattenOne(val[1..][1..], width);
    assert val[1..][0] == val[1] && val[1..][1..][0] == val[2] && val[1..][1..][1..] == val[3..];
  }

  lemma {:induction false} FlattenOne(val: seq<nat>, width: nat)
    requires val != []
    ensures Flatten(val, width) == Bits(val[0], width) + Flatten(val[1..], width)
  {
  }

  lemma {:induction false} Reassociate(a: seq<bool>, b: seq<bool>, c: seq<bool>)
    ensures (a + b) + c == a + (b + c)
  {
  }

  /** One byte left over: the first two groups of its 24-bit number. */
  lemma {:induction false} GroupsOfOne(a: uint8)
    ensures GroupsOf([a]) == Quad(Word(a, 0, 0))[..2]
  {
    var bits := Bits(a, 8);
    MissingOfBytes(1);
    FlattenOne([a], 8);
    assert Flatten([a], 8) == bits;
    BitsOfZero(8);
    QuadOfBytes(a, 0, 0, []);
    CutPadded(bits + Zeros(8), bits, Zeros(8), 12);
    ChunkPrefix(bits + Zeros(8) + Zeros(8) + [], 6, 2);
  }

  /** Two bytes left over: the first three groups of their 24-bit number. */
  lemma {:induction false} GroupsOfTwo(a: uint8, b: uint8)
    ensures GroupsOf([a, b]) == Quad(Word(a, b, 0))[..3]
  {
    var bits := Bits(a, 8) + Bits(b, 8);
    MissingOfBytes(2);
    FlattenTwo(a, b, 8);
    BitsOfZero(8);
    QuadOfBytes(a, b, 0, []);
    CutPadded(bits, bits, Zeros(8), 18);
    ChunkPrefix(bits + Zeros(8) + [], 6, 3);
  }

  lemma {:induction false} FlattenTwo(a: nat, b: nat, width: nat)
    ensures Flatten([a, b], width) == Bits(a, width) + Bits(b, width)
  {
    FlattenOne([a, b], width);
    assert [a, b][1..] == [b];
    FlattenOne([b], width);
  }

  /** Cutting a string after zeros that follow `bits` leaves `bits` and fewer zeros. */
  lemma {:induction false} CutPadded(front: seq<bool>, bits: seq<bool>, zeros: seq<bool>, n: nat)
    requires bits <= front && |bits| <= n <= |front| + |zeros|
    requires forall i :: |bits| <= i < |front| ==> !front[i]
    requires forall i :: 0 <= i < |zeros| ==> !zeros[i]
    ensures (front + zeros + [])[..n] == bits + Zeros(n - |bits|)
  {
  }

  /** The stream computes the encoding by 24-bit groups. */
  lemma {:induction false} EncodingByQuads(val: seq<uint8>)
    ensures Encode64(val) == QuadEncoding(val)
  {
    if |val| == 0 {
      NothingToEncode();
      assert val == [];
    } else if |val| == 1 {
      EncodingOfOne(val);
    } else if |val| == 2 {
      EncodingOfTwo(val);
    } else {
      EncodingOfThree(val);
      EncodingByQuads(val[3..]);
    }
  }

  lemma {:induction false} PaddingTexts()
    ensures Repeat('=', 2) == "==" && Repeat('=', 1) == "="
  {
  }

  lemma {:induction false} EncodingOfOne(val: seq<uint8>)
    requires |val| == 1
    ensures Encode64(val) == Characters(Quad(Word(val[0], 0, 0))[..2]) + "=="
  {
    assert val == [val[0]];
    GroupsOfOne(val[0]);
    PaddingTexts();
    EncodingFromGroups(val, Quad(Word(val[0], 0, 0))[..2], "==");
  }

  lemma {:induction false} EncodingFromGroups(val: seq<uint8>, groups: seq<nat>, padding: string)
    requires forall i :: 0 <= i < |groups| ==> groups[i] < 64
    requires GroupsOf(val) == groups && Repeat('=', Padding(|val|)) == padding
    ensures Encode64(val) == Characters(groups) + padding
  {
    EncodeCutsGroups(val);
  }

  lemma {:induction false} EncodingOfTwo(val: seq<uint8>)
    requires |val| == 2
    ensures Encode64(val) == Characters(Quad(Word(val[0], val[1], 0))[..3]) + "="
  {
    assert val == [val[0], val[1]];
    GroupsOfTwo(val[0], val[1]);
    PaddingTexts();
    EncodingFromGroups(val, Quad(Word(val[0], val[1], 0))[..3], "=");
  }

  lemma {:induction false} NothingToEncode()
    ensures Encode64([]) == ""
  {
    MissingOfBytes(0);
    GroupCount([]);
  }

  lemma {:induction false} EncodingOfThree(val: seq<uint8>)
    requires |val| >= 3
    ensures Encode64(val) == Characters(Quad(Word(val[0], val[1], val[2]))) + Encode64(val[3..])
  {
    EncodeCutsGroups(val);
    EncodeCutsGroups(val[3..]);
    GroupsOfThree(val);
    CharactersConcat(Quad(Word(val[0], val[1], val[2])), GroupsOf(val[3..]), Repeat('=', Padding(|val|)));
    PaddingOfThree(|val|);
  }

  lemma {:induction false} PaddingOfThree(n: nat)
    requires n >= 3
    ensures Padding(n) == Padding(n - 3)
  {
  }

  lemma {:induction false} CharactersConcat(a: seq<nat>, b: seq<nat>, tail: string)
    requires (forall i :: 0 <= i < |a| ==> a[i] < 64) && (forall i :: 0 <= i < |b| ==> b[i] < 64)
    ensures Characters(a + b) + tail == Characters(a) + (Characters(b) + tail)
  {
    assert Characters(a + b) == Characters(a) + Characters(b);
  }
}
