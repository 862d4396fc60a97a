/** Bytes, 64-bit lanes and 32-bit words, and the encodings between them. */
module Bytes {

  type byte = bv8
  type Lane = bv64
  type Word = bv32

  /** Addition in a field of characteristic two. */
  function Xor(a: Lane, b: Lane): Lane {
    a ^ b
  }

  /** A bit is set in the sum exactly when it is set in one of the two and not in both. */
  lemma XorBitwise(a: Lane, b: Lane)
    ensures Xor(a, b) == (a | b) & !(a & b)
  {}

  lemma XorIsZero(a: Lane, b: Lane)
    ensures Xor(a, b) == 0 <==> a == b
  {
    hide Xor;
    XorCancels(b, a);
    XorCancels(a, a);
  }

  lemma XorCancels(a: Lane, b: Lane)
    ensures Xor(Xor(a, b), a) == b
    ensures Xor(Xor(b, a), a) == b
    ensures Xor(a, Xor(b, a)) == b
    ensures Xor(0, a) == a
    ensures Xor(a, a) == 0
  {}

  /** A little-endian lane, the least significant byte first. */
  function LaneFromLe(b: seq<byte>): Lane
    requires |b| == 8
  {
    (b[0] as bv64) | ((b[1] as bv64) << 8) | ((b[2] as bv64) << 16) | ((b[3] as bv64) << 24)
    | ((b[4] as bv64) << 32) | ((b[5] as bv64) << 40) | ((b[6] as bv64) << 48) | ((b[7] as bv64) << 56)
  }

  function LaneToLe(lane: Lane): (b: seq<byte>)
    ensures |b| == 8
  {
    [(lane & 0xff) as byte, ((lane >> 8) & 0xff) as byte,
     ((lane >> 16) & 0xff) as byte, ((lane >> 24) & 0xff) as byte,
     ((lane >> 32) & 0xff) as byte, ((lane >> 40) & 0xff) as byte,
     ((lane >> 48) & 0xff) as byte, ((lane >> 56) & 0xff) as byte]
  }

  lemma LaneLeRoundTrip(lane: Lane)
    ensures LaneFromLe(LaneToLe(lane)) == lane
  {}

  lemma BytesLeRoundTrip(b: seq<byte>)
    requires |b| == 8
    ensures LaneToLe(LaneFromLe(b)) == b
  {
    BytesLeRoundTripAt(b[0], b[1], b[2], b[3], b[4], b[5], b[6], b[7]);
    assert b == [b[0], b[1], b[2], b[3], b[4], b[5], b[6], b[7]];
  }

  lemma BytesLeRoundTripAt(b0: byte, b1: byte, b2: byte, b3: byte, b4: byte, b5: byte, b6: byte, b7: byte)
    ensures LaneToLe(LaneFromLe([b0, b1, b2, b3, b4, b5, b6, b7])) == [b0, b1, b2, b3, b4, b5, b6, b7]
  {}

  function LanesFromLe(bytes: seq<byte>): (lanes: seq<Lane>)
    requires |bytes| % 8 == 0
    ensures |lanes| == |bytes| / 8
  {
    seq(|bytes| / 8, i requires 0 <= i < |bytes| / 8 => LaneOf(bytes, i))
  }

  function LanesToLe(lanes: seq<Lane>): (bytes: seq<byte>)
    ensures |bytes| == 8 * |lanes|
  {
    seq(8 * |lanes|, k requires 0 <= k < 8 * |lanes| => LaneToLe(lanes[k / 8])[k % 8])
  }

  lemma LanesRoundTrip(lanes: seq<Lane>)
    ensures LanesFromLe(LanesToLe(lanes)) == lanes
  {
    hide LaneFromLe, LaneToLe;
    forall i | 0 <= i < |lanes|
      ensures LanesFromLe(LanesToLe(lanes))[i] == lanes[i]
    {
      assert LanesToLe(lanes)[8 * i..8 * i + 8] == LaneToLe(lanes[i]);
      LaneLeRoundTrip(lanes[i]);
    }
  }

  lemma LaneBytesRoundTrip(bytes: seq<byte>)
    requires |bytes| % 8 == 0
    ensures LanesToLe(LanesFromLe(bytes)) == bytes
  {
    hide LaneFromLe, LaneToLe;
    forall k | 0 <= k < |bytes|
      ensures LanesToLe(LanesFromLe(bytes))[k] == bytes[k]
    {
      BytesLeRoundTrip(bytes[8 * (k / 8)..8 * (k / 8) + 8]);
    }
  }

  /** A slice of a concatenation lies in the part its bounds say. */
  lemma SliceOfConcat<T>(a: seq<T>, b: seq<T>, from: nat, upto: nat)
    requires from <= upto <= |a| + |b|
    ensures upto <= |a| ==> (a + b)[from..upto] == a[from..upto]
    ensures from >= |a| ==> (a + b)[from..upto] == b[from - |a|..upto - |a|]
  {}

  /** Lane i of a byte string. */
  function LaneOf(bytes: seq<byte>, i: nat): Lane
    requires 8 * i + 8 <= |bytes|
  {
    LaneFromLe(bytes[8 * i..8 * i + 8])
  }

  lemma LaneOfConcat(a: seq<byte>, b: seq<byte>, n: nat, i: nat)
    requires |a| == 8 * n && 8 * i + 8 <= |a| + |b|
    ensures LaneOf(a + b, i) == if i < n then LaneOf(a, i) else LaneOf(b, i - n)
  {
    hide LaneFromLe;
    SliceOfConcat(a, b, 8 * i, 8 * i + 8);
  }

  lemma LanesFromLeConcat(a: seq<byte>, b: seq<byte>)
    requires |a| % 8 == 0 && |b| % 8 == 0
    ensures LanesFromLe(a + b) == LanesFromLe(a) + LanesFromLe(b)
  {
    hide LaneOf;
    var n, m := |a| / 8, |b| / 8;
    assert |a| == 8 * n && |b| == 8 * m;
    forall i | 0 <= i < n + m
      ensures LanesFromLe(a + b)[i] == (LanesFromLe(a) + LanesFromLe(b))[i]
    {
      LaneOfConcat(a, b, n, i);
    }
  }

  /** A big-endian word, the most significant byte first. */
  function WordFromBe(b: seq<byte>): Word
    requires |b| == 4
  {
    ((b[0] as bv32) << 24) | ((b[1] as bv32) << 16) | ((b[2] as bv32) << 8) | (b[3] as bv32)
  }

  function WordToBe(word: Word): (b: seq<byte>)
    ensures |b| == 4
  {
    [((word >> 24) & 0xff) as byte, ((word >> 16) & 0xff) as byte,
     ((word >> 8) & 0xff) as byte, (word & 0xff) as byte]
  }

  lemma WordBeRoundTrip(word: Word)
    ensures WordFromBe(WordToBe(word)) == word
  {}

  lemma BytesBeRoundTrip(b: seq<byte>)
    requires |b| == 4
    ensures WordToBe(WordFromBe(b)) == b
  {
    BytesBeRoundTripAt(b[0], b[1], b[2], b[3]);
    assert b == [b[0], b[1], b[2], b[3]];
  }

  lemma BytesBeRoundTripAt(b0: byte, b1: byte, b2: byte, b3: byte)
    ensures WordToBe(WordFromBe([b0, b1, b2, b3])) == [b0, b1, b2, b3]
  {}

  function WordsFromBe(bytes: seq<byte>): (words: seq<Word>)
    requires |bytes| % 4 == 0
    ensures |words| == |bytes| / 4
  {
    seq(|bytes| / 4, i requires 0 <= i < |bytes| / 4 => WordAt(bytes, i))
  }

  function WordsToBe(words: seq<Word>): (bytes: seq<byte>)
    ensures |bytes| == 4 * |words|
  {
    seq(4 * |words|, k requires 0 <= k < 4 * |words| => WordToBe(words[k / 4])[k % 4])
  }

  lemma WordsRoundTrip(words: seq<Word>)
    ensures WordsFromBe(WordsToBe(words)) == words
  {
    hide WordFromBe, WordToBe;
    forall i | 0 <= i < |words|
      ensures WordsFromBe(WordsToBe(words))[i] == words[i]
    {
      assert WordsToBe(words)[4 * i..4 * i + 4] == WordToBe(words[i]);
      WordBeRoundTrip(words[i]);
    }
  }

  lemma WordBytesRoundTrip(bytes: seq<byte>)
    requires |bytes| % 4 == 0
    ensures WordsToBe(WordsFromBe(bytes)) == bytes
  {
    hide WordFromBe, WordToBe;
    forall k | 0 <= k < |bytes|
      ensures WordsToBe(WordsFromBe(bytes))[k] == bytes[k]
    {
      BytesBeRoundTrip(bytes[4 * (k / 4)..4 * (k / 4) + 4]);
    }
  }

  /** Word i of a byte string. */
  function WordAt(bytes: seq<byte>, i: nat): Word
    requires 4 * i + 4 <= |bytes|
  {
    WordFromBe(bytes[4 * i..4 * i + 4])
  }

  lemma WordAtConcat(a: seq<byte>, b: seq<byte>, n: nat, i: nat)
    requires |a| == 4 * n && 4 * i + 4 <= |a| + |b|
    ensures WordAt(a + b, i) == if i < n then WordAt(a, i) else WordAt(b, i - n)
  {
    hide WordFromBe;
    SliceOfConcat(a, b, 4 * i, 4 * i + 4);
  }

  lemma WordsFromBeConcat(a: seq<byte>, b: seq<byte>)
    requires |a| % 4 == 0 && |b| % 4 == 0
    ensures WordsFromBe(a + b) == WordsFromBe(a) + WordsFromBe(b)
  {
    hide WordAt;
    var n, m := |a| / 4, |b| / 4;
    assert |a| == 4 * n && |b| == 4 * m;
    forall i | 0 <= i < n + m
      ensures WordsFromBe(a + b)[i] == (WordsFromBe(a) + WordsFromBe(b))[i]
    {
      WordAtConcat(a, b, n, i);
    }
  }

  /** A little-endian word, the least significant byte first. */
  function WordFromLe(b: seq<byte>): Word
    requires |b| == 4
  {
    (b[0] as bv32) | ((b[1] as bv32) << 8) | ((b[2] as bv32) << 16) | ((b[3] as bv32) << 24)
  }

  function WordToLe(word: Word): (b: seq<byte>)
    ensures |b| == 4
  {
    [(word & 0xff) as byte, ((word >> 8) & 0xff) as byte,
     ((word >> 16) & 0xff) as byte, ((word >> 24) & 0xff) as byte]
  }

  lemma BytesOfLeWord(b: seq<byte>)
    requires |b| == 4
    ensures WordToLe(WordFromLe(b)) == b
  {
    BytesOfLeWordAt(b[0], b[1], b[2], b[3]);
    assert b == [b[0], b[1], b[2], b[3]];
  }

  lemma BytesOfLeWordAt(b0: byte, b1: byte, b2: byte, b3: byte)
    ensures WordToLe(WordFromLe([b0, b1, b2, b3])) == [b0, b1, b2, b3]
  {}
}
