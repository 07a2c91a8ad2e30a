/** Section 4 of RFC 4648 in its own terms: Table 1 as it is printed, and arithmetic on bytes and on
    positions in that table. The definitions here share nothing with the encoder and the decoder
    (communication/http/rest_server.cpp) that they are compared with. */
module Rfc4648 {
  import opened Numbers
  import opened Base64

  /** Table 1, the base 64 alphabet, in order of value. */
  const ALPHABET := "ABCDEFGHIJKLMNOPQRSTUVWXYZabcdefghijklmnopqrstuvwxyz0123456789+/"

  // ---------------------------------------------------------------------------------------
  // The alphabet
  // ---------------------------------------------------------------------------------------

  lemma {:induction false} TableInRows()
    ensures "ABCDEFGHIJKLMNOPQRSTUVWXYZabcdefghijklmnopqrstuvwxyz0123456789+/"
         == "ABCDEFGHIJKLMNOPQRSTUVWXYZ" + "abcdefghijklmnopqrstuvwxyz" + "0123456789+/"
  {
  }

  lemma {:induction false} CharOfInRows(table: string, x: Sextet)
    requires table == "ABCDEFGHIJKLMNOPQRSTUVWXYZ" + "abcdefghijklmnopqrstuvwxyz" + "0123456789+/"
    ensures |table| == 64 && CharOf(x) == table[x]
  {
  }

  /** The encoder's character for each value is the one in Table 1. */
  lemma {:induction false} CharOfIsTable1(x: Sextet)
    ensures |ALPHABET| == 64
    ensures CharOf(x) == "ABCDEFGHIJKLMNOPQRSTUVWXYZabcdefghijklmnopqrstuvwxyz0123456789+/"[x]
  {
    TableInRows();
    CharOfInRows(ALPHABET, x);
  }

  /** A table of characters is the encoder's. */
  ghost predicate IsTable(table: string) {
    |table| == 64 && forall x: Sextet :: table[x] == CharOf(x)
  }

  lemma {:induction false} AlphabetIsTable()
    ensures IsTable(ALPHABET)
  {
    forall x: Sextet ensures |ALPHABET| == 64 && ALPHABET[x] == CharOf(x) {
      CharOfIsTable1(x);
    }
  }

  /** The decoder reads a character as a value if and only if Table 1 has it there, or it is the
      padding character and the value is 0. */
  lemma {:induction false} SextetOfIsTable1(c: char, x: Sextet)
    ensures SextetOf(c) == Some(x) <==>
            c == "ABCDEFGHIJKLMNOPQRSTUVWXYZabcdefghijklmnopqrstuvwxyz0123456789+/"[x] || (c == '=' && x == 0)
  {
    CharOfIsTable1(x);
    SextetOfCharOnly(c, x);
  }

  lemma {:induction false} SextetOfCharOnly(c: char, x: Sextet)
    ensures SextetOf(c) == Some(x) <==> c == CharOf(x) || (c == '=' && x == 0)
  {
  }

  // ---------------------------------------------------------------------------------------
  // Encoding
  // ---------------------------------------------------------------------------------------

  /** Three bytes are four characters of the table; a last group of one byte is two characters and two
      padding characters, one of two bytes is three and one. */
  function Encoded(val: seq<uint8>, table: string): string
    requires |table| == 64
  {
    if |val| == 0 then ""
    else if |val| == 1 then [table[val[0] / 4], table[val[0] % 4 * 16]] + "=="
    else if |val| == 2 then
      [table[val[0] / 4], table[val[0] % 4 * 16 + val[1] / 16], table[val[1] % 16 * 4]] + "="
    else
      [table[val[0] / 4], table[val[0] % 4 * 16 + val[1] / 16],
       table[val[1] % 16 * 4 + val[2] / 64], table[val[2] % 64]] + Encoded(val[3..], table)
  }

  lemma {:induction false} QuadOfWord(a: uint8, b: uint8, c: uint8)
    ensures Quad(Word(a, b, c)) == [a / 4, a % 4 * 16 + b / 16, b % 16 * 4 + c / 64, c % 64]
  {
    var v := Word(a, b, c);
    RemainderUnique(v, 1024 * a + 4 * b + c / 64, c % 64, 64);
    RemainderUnique(v, 16 * a + b / 16, b % 16 * 256 + c, 0x1000);
    RemainderUnique(v, a / 4, a % 4 * 0x1_0000 + b * 0x100 + c, 0x4_0000);
    RemainderUnique(1024 * a + 4 * b + c / 64, 16 * a + b / 16, b % 16 * 4 + c / 64, 64);
    RemainderUnique(16 * a + b / 16, a / 4, a % 4 * 16 + b / 16, 64);
    RemainderUnique(a / 4, 0, a / 4, 64);
  }

  lemma {:induction false} CharactersInTable(xs: seq<nat>, table: string)
    requires IsTable(table) && forall i :: 0 <= i < |xs| ==> xs[i] < 64
    ensures |Characters(xs)| == |xs| && forall i :: 0 <= i < |xs| ==> Characters(xs)[i] == table[xs[i]]
  {
  }

  lemma {:induction false} QuadCharacters(a: uint8, b: uint8, c: uint8, table: string)
    requires IsTable(table)
    ensures var q := Quad(Word(a, b, c));
            var text := [table[a / 4], table[a % 4 * 16 + b / 16], table[b % 16 * 4 + c / 64], table[c % 64]];
            Characters(q) == text && Characters(q[..3]) == text[..3] && Characters(q[..2]) == text[..2]
  {
    var q := Quad(Word(a, b, c));
    QuadOfWord(a, b, c);
    CharactersInTable(q, table);
    CharactersInTable(q[..3], table);
    CharactersInTable(q[..2], table);
  }

  lemma {:induction false} OneInTable(a: uint8, table: string)
    requires IsTable(table)
    ensures Characters(Quad(Word(a, 0, 0))[..2]) == [table[a / 4], table[a % 4 * 16]]
  {
    QuadCharacters(a, 0, 0, table);
  }

  lemma {:induction false} TwoInTable(a: uint8, b: uint8, table: string)
    requires IsTable(table)
    ensures Characters(Quad(Word(a, b, 0))[..3]) == [table[a / 4], table[a % 4 * 16 + b / 16], table[b % 16 * 4]]
  {
    QuadCharacters(a, b, 0, table);
  }

  lemma {:induction false} QuadsInTable(val: seq<uint8>, table: string)
    requires IsTable(table)
    ensures QuadEncoding(val) == Encoded(val, table)
  {
    if |val| == 1 {
      OneInTable(val[0], table);
    } else if |val| == 2 {
      TwoInTable(val[0], val[1], table);
    } else if |val| >= 3 {
      QuadCharacters(val[0], val[1], val[2], table);
      QuadsInTable(val[3..], table);
    }
  }

  /** The server encodes as section 4 of RFC 4648 says. */
  lemma {:induction false} EncodingIsRfc4648(val: seq<uint8>)
    ensures |ALPHABET| == 64 && Encode64(val) == Encoded(val, ALPHABET)
  {
    AlphabetIsTable();
    EncodingByQuads(val);
    QuadsInTable(val, ALPHABET);
  }

  // ---------------------------------------------------------------------------------------
  // Decoding
  // ---------------------------------------------------------------------------------------

  /** The value of a character: its place in the table, or none; the padding character counts as the
      first place. */
  ghost predicate Means(table: string, c: char, x: Sextet)
    requires |table| == 64
  {
    c == table[x] || (c == '=' && x == 0)
  }

  /** Four values are three bytes; a last block of two is one byte, one of three is two, and the
      bits left over are dropped. */
  function Decoded(xs: seq<nat>): (bytes: seq<uint8>)
    requires forall i :: 0 <= i < |xs| ==> xs[i] < 64
  {
    if |xs| < 2 then []
    else if |xs| == 2 then [xs[0] * 4 + xs[1] / 16]
    else if |xs| == 3 then [xs[0] * 4 + xs[1] / 16, xs[1] % 16 * 16 + xs[2] / 4]
    else [xs[0] * 4 + xs[1] / 16, xs[1] % 16 * 16 + xs[2] / 4, xs[2] % 4 * 64 + xs[3]] + Decoded(xs[4..])
  }

  lemma {:induction false} ByteValue(v: nat)
    ensures Value(Bits(v, 8)) == v % 256
  {
    assert Pow2(8) == 256;
    LowBits(v / 256, v % 256, 8);
    ValueOfBits(v % 256, 8);
  }

  lemma {:induction false} ChunkEight(x: seq<bool>, rest: seq<bool>)
    requires |x| == 8
    ensures Chunk(x + rest, 8) == [Value(x)] + Chunk(rest, 8)
  {
    assert (x + rest)[..8] == x && (x + rest)[8..] == rest;
  }

  lemma {:induction false} ChunkTwoEights(x: seq<bool>, y: seq<bool>, rest: seq<bool>)
    requires |x| == |y| == 8
    ensures Chunk(x + y + rest, 8) == [Value(x), Value(y)] + Chunk(rest, 8)
  {
    Reassociate(x, y, rest);
    ChunkEight(x, y + rest);
    ChunkEight(y, rest);
  }

  lemma {:induction false} ChunkThreeEights(x: seq<bool>, y: seq<bool>, z: seq<bool>, rest: seq<bool>)
    requires |x| == |y| == |z| == 8
    ensures Chunk(x + y + z + rest, 8) == [Value(x), Value(y), Value(z)] + Chunk(rest, 8)
  {
    Reassociate(x + y, z, rest);
    ChunkTwoEights(x, y, z + rest);
    ChunkEight(z, rest);
  }

  /** Two, three and four numbers of one width side by side, cut at another width. */
  lemma {:induction false} TwoIntoOne(a: nat, b: nat, w: nat, u: nat, left: nat)
    requires b < Pow2(w) && w + w == u + left
    ensures var v := a * Pow2(w) + b; Bits(a, w) + Bits(b, w) == Bits(High(v, left), u) + Bits(v, left)
  {
    JoinBits(a, w, b, w);
    BitsSplit(a * Pow2(w) + b, u, left);
  }

  lemma {:induction false} ThreeIntoTwo(a: nat, b: nat, c: nat, w: nat, u: nat, left: nat)
    requires b < Pow2(w) && c < Pow2(w) && w + w + w == u + u + left
    ensures var v := Joined(a, b, c, w);
            Bits(a, w) + Bits(b, w) + Bits(c, w) == Bits(High(v, left + u), u) + Bits(High(v, left), u) + Bits(v, left)
  {
    var v := Joined(a, b, c, w);
    JoinBits(a, w, b, w);
    JoinBits(a * Pow2(w) + b, w + w, c, w);
    BitsSplit(v, u + u, left);
    BitsSplit(High(v, left), u, u);
    HighAgain(v, left, u);
  }

  lemma {:induction false} FourIntoThree(a: nat, b: nat, c: nat, d: nat, w: nat, u: nat)
    requires b < Pow2(w) && c < Pow2(w) && d < Pow2(w) && 4 * w == 3 * u
    ensures var v := Joined(a, b, c, w) * Pow2(w) + d;
            var parts := Bits(High(v, u + u), u) + Bits(High(v, u), u) + Bits(v, u);
            Bits(a, w) + Bits(b, w) + Bits(c, w) + Bits(d, w) == parts
  {
    JoinFour(a, b, c, d, w, 3 * u);
    SplitThree(Joined(a, b, c, w) * Pow2(w) + d, u, 3 * u);
  }

  lemma {:induction false} JoinFour(a: nat, b: nat, c: nat, d: nat, w: nat, all: nat)
    requires b < Pow2(w) && c < Pow2(w) && d < Pow2(w) && all == 4 * w
    ensures Bits(a, w) + Bits(b, w) + Bits(c, w) + Bits(d, w) == Bits(Joined(a, b, c, w) * Pow2(w) + d, all)
  {
    JoinBits(a, w, b, w);
    JoinBits(a * Pow2(w) + b, w + w, c, w);
    JoinBits(Joined(a, b, c, w), w + w + w, d, w);
  }

  lemma {:induction false} SplitThree(v: nat, u: nat, all: nat)
    requires all == 3 * u
    ensures Bits(v, all) == Bits(High(v, u + u), u) + Bits(High(v, u), u) + Bits(v, u)
  {
    BitsSplit(v, u + u, u);
    BitsSplit(High(v, u), u, u);
    HighAgain(v, u, u);
  }

  lemma {:induction false} Shifts(v: nat)
    ensures High(v, 2) == v / 4 && High(v, 4) == v / 16 && High(v, 8) == v / 256
  {
    ShiftTwo(v);
    ShiftTwo(v / 4);
    HighAgain(v, 2, 2);
    ShiftTwo(v / 16);
    HighAgain(v, 4, 2);
    ShiftTwo(v / 64);
    HighAgain(v, 6, 2);
  }

  lemma {:induction false} TwoValues(a: nat, b: nat, w: nat, u: nat, left: nat)
    requires a < 64 && b < 64 && w == 6 && u == 8 && left == 4
    ensures Chunk(Bits(a, w) + Bits(b, w), u) == [a * 4 + b / 16]
  {
    var v := a * 64 + b;
    SixtyFour(w);
    TwoIntoOne(a, b, w, u, left);
    ChunkEight(Bits(High(v, left), u), Bits(v, left));
    ByteValue(High(v, left));
    Shifts(v);
    RemainderUnique(v, a * 4 + b / 16, b % 16, 16);
    RemainderUnique(a * 4 + b / 16, 0, a * 4 + b / 16, 256);
  }

  lemma {:induction false} SixtyFour(w: nat)
    requires w == 6
    ensures Pow2(w) == 64
  {
    assert Pow2(6) == 64;
  }

  lemma {:induction false} ThreeValues(a: nat, b: nat, c: nat, w: nat, u: nat, left: nat)
    requires a < 64 && b < 64 && c < 64 && w == 6 && u == 8 && left == 2
    ensures Chunk(Bits(a, w) + Bits(b, w) + Bits(c, w), u) == [a * 4 + b / 16, b % 16 * 16 + c / 4]
  {
    var v := Joined(a, b, c, w);
    JoinedValue(a, b, c, w);
    ThreeDigits(v, a, b, c, u, left);
    SixtyFour(w);
    ThreeIntoTwo(a, b, c, w, u, left);
    CutTwo(v, u, left);
  }

  lemma {:induction false} CutTwo(v: nat, u: nat, left: nat)
    requires u == 8 && left < 8
    ensures Chunk(Bits(High(v, left + u), u) + Bits(High(v, left), u) + Bits(v, left), u)
         == [High(v, left + u) % 256, High(v, left) % 256]
  {
    ChunkTwoEights(Bits(High(v, left + u), u), Bits(High(v, left), u), Bits(v, left));
    ByteValue(High(v, left + u));
    ByteValue(High(v, left));
  }

  lemma {:induction false} JoinedValue(a: nat, b: nat, c: nat, w: nat)
    requires w == 6
    ensures Joined(a, b, c, w) == (a * 64 + b) * 64 + c
  {
    SixtyFour(w);
  }

  lemma {:induction false} ThreeDigits(v: nat, a: nat, b: nat, c: nat, u: nat, left: nat)
    requires a < 64 && b < 64 && c < 64 && u == 8 && left == 2 && v == (a * 64 + b) * 64 + c
    ensures High(v, left + u) % 256 == a * 4 + b / 16 && High(v, left) % 256 == b % 16 * 16 + c / 4
  {
    Shifts(v);
    Shifts(v / 4);
    HighAgain(v, 2, 8);
    RemainderUnique(v, 1024 * a + 16 * b + c / 4, c % 4, 4);
    RemainderUnique(1024 * a + 16 * b + c / 4, 4 * a + b / 16, b % 16 * 16 + c / 4, 256);
    RemainderUnique(4 * a + b / 16, 0, 4 * a + b / 16, 256);
  }

  lemma {:induction false} FourValues(a: nat, b: nat, c: nat, d: nat, rest: seq<bool>, w: nat, u: nat)
    requires a < 64 && b < 64 && c < 64 && d < 64 && w == 6 && u == 8
    ensures Chunk(Bits(a, w) + Bits(b, w) + Bits(c, w) + Bits(d, w) + rest, u)
         == [a * 4 + b / 16, b % 16 * 16 + c / 4, c % 4 * 64 + d] + Chunk(rest, u)
  {
    var x, y, z := FourAsThree(a, b, c, d, w, u);
    CutThree(Bits(a, w) + Bits(b, w) + Bits(c, w) + Bits(d, w), x, y, z, rest);
  }

  lemma {:induction false} FourAsThree(a: nat, b: nat, c: nat, d: nat, w: nat, u: nat)
    returns (x: seq<bool>, y: seq<bool>, z: seq<bool>)
    requires a < 64 && b < 64 && c < 64 && d < 64 && w == 6 && u == 8
    ensures |x| == |y| == |z| == u && Bits(a, w) + Bits(b, w) + Bits(c, w) + Bits(d, w) == x + y + z
    ensures Value(x) == a * 4 + b / 16 && Value(y) == b % 16 * 16 + c / 4 && Value(z) == c % 4 * 64 + d
  {
    var v := Joined(a, b, c, w) * Pow2(w) + d;
    SixtyFour(w);
    FourIntoThree(a, b, c, d, w, u);
    ThreeByteValues(a, b, c, d, w, u);
    x, y, z := Bits(High(v, u + u), u), Bits(High(v, u), u), Bits(v, u);
  }

  lemma {:induction false} ThreeByteValues(a: nat, b: nat, c: nat, d: nat, w: nat, u: nat)
    requires a < 64 && b < 64 && c < 64 && d < 64 && w == 6 && u == 8
    ensures var v := Joined(a, b, c, w) * Pow2(w) + d;
            && Value(Bits(High(v, u + u), u)) == a * 4 + b / 16
            && Value(Bits(High(v, u), u)) == b % 16 * 16 + c / 4
            && Value(Bits(v, u)) == c % 4 * 64 + d
  {
    var v := Joined(a, b, c, w) * Pow2(w) + d;
    SixtyFour(w);
    JoinedValue(a, b, c, w);
    FourDigits(v, a, b, c, d, u);
    ByteValue(High(v, u + u));
    ByteValue(High(v, u));
    ByteValue(v);
  }

  lemma {:induction false} CutThree(all: seq<bool>, x: seq<bool>, y: seq<bool>, z: seq<bool>, rest: seq<bool>)
    requires |x| == |y| == |z| == 8 && all == x + y + z
    ensures Chunk(all + rest, 8) == [Value(x), Value(y), Value(z)] + Chunk(rest, 8)
  {
    ChunkThreeEights(x, y, z, rest);
  }

  lemma {:induction false} FourDigits(v: nat, a: nat, b: nat, c: nat, d: nat, u: nat)
    requires a < 64 && b < 64 && c < 64 && d < 64 && u == 8 && v == ((a * 64 + b) * 64 + c) * 64 + d
    ensures High(v, u + u) % 256 == a * 4 + b / 16
    ensures High(v, u) % 256 == b % 16 * 16 + c / 4
    ensures v % 256 == c % 4 * 64 + d
  {
    Shifts(v);
    Shifts(v / 256);
    HighAgain(v, 8, 8);
    RemainderUnique(v, 1024 * a + 16 * b + c / 4, c % 4 * 64 + d, 256);
    RemainderUnique(1024 * a + 16 * b + c / 4, 4 * a + b / 16, b % 16 * 16 + c / 4, 256);
    RemainderUnique(4 * a + b / 16, 0, 4 * a + b / 16, 256);
  }

  lemma {:induction false} FlattenFour(xs: seq<nat>, width: nat)
    requires |xs| >= 4
    ensures Flatten(xs, width)
         == Bits(xs[0], width) + Bits(xs[1], width) + Bits(xs[2], width) + Bits(xs[3], width) + Flatten(xs[4..], width)
  {
    FlattenThree(xs, width);
    FlattenOne(xs[3..], width);
    assert xs[3..][0] == xs[3] && xs[3..][1..] == xs[4..];
  }

  lemma {:induction false} LastThree(xs: seq<nat>, width: nat)
    requires |xs| == 3
    ensures Flatten(xs, width) == Bits(xs[0], width) + Bits(xs[1], width) + Bits(xs[2], width)
  {
    FlattenThree(xs, width);
    assert xs[3..] == [];
  }

  /** Cutting the bits of six-bit values in eights is the decoding by blocks. */
  lemma {:induction false} ChunksAreBlocks(xs: seq<nat>, w: nat, u: nat)
    requires |xs| % 4 != 1 && (forall i :: 0 <= i < |xs| ==> xs[i] < 64) && w == 6 && u == 8
    ensures Chunk(Flatten(xs, w), u) == Decoded(xs)
  {
    if |xs| >= 4 {
      ChunksAreBlocks(xs[4..], w, u);
      OneMoreBlock(xs, w, u);
    } else {
      LastBlock(xs, w, u);
    }
  }

  lemma {:induction false} OneMoreBlock(xs: seq<nat>, w: nat, u: nat)
    requires |xs| >= 4 && (forall i :: 0 <= i < |xs| ==> xs[i] < 64) && w == 6 && u == 8
    requires Chunk(Flatten(xs[4..], w), u) == Decoded(xs[4..])
    ensures Chunk(Flatten(xs, w), u) == Decoded(xs)
  {
    FirstBlock(xs, w, u);
    DecodedBlock(xs);
  }

  lemma {:induction false} DecodedBlock(xs: seq<nat>)
    requires |xs| >= 4 && forall i :: 0 <= i < |xs| ==> xs[i] < 64
    ensures Decoded(xs)
         == [xs[0] * 4 + xs[1] / 16, xs[1] % 16 * 16 + xs[2] / 4, xs[2] % 4 * 64 + xs[3]] + Decoded(xs[4..])
  {
  }

  lemma {:induction false} FirstBlock(xs: seq<nat>, w: nat, u: nat)
    requires |xs| >= 4 && (forall i :: 0 <= i < |xs| ==> xs[i] < 64) && w == 6 && u == 8
    ensures var bytes := [xs[0] * 4 + xs[1] / 16, xs[1] % 16 * 16 + xs[2] / 4, xs[2] % 4 * 64 + xs[3]];
            Chunk(Flatten(xs, w), u) == bytes + Chunk(Flatten(xs[4..], w), u)
  {
    BlockOf(Flatten(xs, w), xs[0], xs[1], xs[2], xs[3], Flatten(xs[4..], w), w, u) by {
      FlattenFour(xs, w);
    }
  }

  lemma {:induction false} BlockOf(
    bits: seq<bool>, a: nat, b: nat, c: nat, d: nat, rest: seq<bool>, w: nat, u: nat)
    requires a < 64 && b < 64 && c < 64 && d < 64 && w == 6 && u == 8
    requires bits == Bits(a, w) + Bits(b, w) + Bits(c, w) + Bits(d, w) + rest
    ensures Chunk(bits, u) == [a * 4 + b / 16, b % 16 * 16 + c / 4, c % 4 * 64 + d] + Chunk(rest, u)
  {
    FourValues(a, b, c, d, rest, w, u);
  }

  lemma {:induction false} LastBlock(xs: seq<nat>, w: nat, u: nat)
    requires |xs| < 4 && |xs| != 1 && (forall i :: 0 <= i < |xs| ==> xs[i] < 64) && w == 6 && u == 8
    ensures Chunk(Flatten(xs, w), u) == Decoded(xs)
  {
    if |xs| == 2 {
      assert xs == [xs[0], xs[1]];
      FlattenTwo(xs[0], xs[1], w);
      TwoValues(xs[0], xs[1], w, u, 4);
    } else if |xs| == 3 {
      LastThree(xs, w);
      ThreeValues(xs[0], xs[1], xs[2], w, u, 2);
    }
  }

  ghost predicate Meant(table: string, c: char)
    requires |table| == 64
  {
    exists x: Sextet :: Means(table, c, x)
  }

  /** Some value is meant by every character of the text. */
  ghost predicate Readable(table: string, text: string)
    requires |table| == 64
  {
    forall i :: 0 <= i < |text| ==> Meant(table, text[i])
  }

  /** The values are meant by the characters of the text, one by one. */
  ghost predicate Reads(table: string, text: string, xs: seq<nat>)
    requires |table| == 64
  {
    |xs| == |text| && forall i :: 0 <= i < |xs| ==> xs[i] < 64 && Means(table, text[i], xs[i])
  }

  /** For every text whose length is not 1 modulo 4, encoding or not, padded or not: it is refused if and
      only if some character is neither in Table 1 nor the padding character; otherwise there are
      values, one for each character by Table 1, that the server decodes block by block before it
      cuts off trailing NULs. */
  lemma {:induction false} DecodingByBlocks(text: string) returns (xs: seq<nat>)
    requires |text| % 4 != 1
    ensures |ALPHABET| == 64
    ensures Decode64(text).Ok? <==> Readable(ALPHABET, text)
    ensures Decode64(text).Ok? ==> Reads(ALPHABET, text, xs) && Decode64(text) == Ok(TrimNul(Decoded(xs)))
  {
    AlphabetIsTable();
    xs := DecodingInTable(text, ALPHABET);
  }

  lemma {:induction false} DecodingInTable(text: string, table: string) returns (xs: seq<nat>)
    requires |text| % 4 != 1 && IsTable(table)
    ensures Decode64(text).Ok? <==> Readable(table, text)
    ensures Decode64(text).Ok? ==> Reads(table, text, xs) && Decode64(text) == Ok(TrimNul(Decoded(xs)))
  {
    xs := if AllValid(text) then Sextets(text) else [];
    CharactersMean(text, table);
    if AllValid(text) {
      SextetsMean(text, table);
      ChunksAreBlocks(xs, 6, 8);
    }
  }

  lemma {:induction false} CharactersMean(text: string, table: string)
    requires IsTable(table)
    ensures AllValid(text) <==> Readable(table, text)
  {
    if AllValid(text) {
      ValidIsReadable(text, table);
    }
    if Readable(table, text) {
      ReadableIsValid(text, table);
    }
  }

  lemma {:induction false} ValidIsReadable(text: string, table: string)
    requires IsTable(table) && AllValid(text)
    ensures Readable(table, text)
  {
    forall i | 0 <= i < |text| ensures Meant(table, text[i]) {
      ValueIsMeant(text[i], table);
    }
  }

  lemma {:induction false} ValueIsMeant(c: char, table: string)
    requires IsTable(table) && SextetOf(c).Some?
    ensures Meant(table, c) && Means(table, c, SextetOf(c).value)
  {
    SextetOfCharOnly(c, SextetOf(c).value);
    var x: Sextet := SextetOf(c).value;
    assert table[x] == CharOf(x);
    assert Means(table, c, x);
  }

  lemma {:induction false} ReadableIsValid(text: string, table: string)
    requires IsTable(table) && Readable(table, text)
    ensures AllValid(text)
  {
    forall i | 0 <= i < |text| ensures SextetOf(text[i]).Some? {
      var x: Sextet :| Means(table, text[i], x);
      SextetOfCharOnly(text[i], x);
      assert SextetOf(text[i]) == Some(x);
    }
  }

  lemma {:induction false} SextetsMean(text: string, table: string)
    requires IsTable(table) && AllValid(text)
    ensures forall i :: 0 <= i < |text| ==> Sextets(text)[i] < 64 && Means(table, text[i], Sextets(text)[i])
  {
    forall i | 0 <= i < |text| ensures Sextets(text)[i] < 64 && Means(table, text[i], Sextets(text)[i]) {
      SextetOfCharOnly(text[i], SextetOf(text[i]).value);
    }
  }
}
