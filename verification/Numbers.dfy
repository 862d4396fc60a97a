/** Bytes and words as numbers. */
module Numbers {
  import opened Bytes
  import opened PowersOfTwo

  function ByteNat(b: byte): (n: nat)
    ensures n < 0x100
  {
    b as nat
  }

  /** The number a byte string spells, most significant byte first. */
  function BeValue(bytes: seq<byte>): (value: nat) {
    if bytes == [] then 0 else 256 * BeValue(bytes[..|bytes| - 1]) + ByteNat(bytes[|bytes| - 1])
  }

  /** The number a byte string spells, least significant byte first. */
  function LeValue(bytes: seq<byte>): (value: nat) {
    if bytes == [] then 0 else ByteNat(bytes[0]) + 256 * LeValue(bytes[1..])
  }

  function WordNat(w: Word): (n: nat)
    ensures n < 0x1_0000_0000
  {
    w as nat
  }

  function LaneNat(lane: Lane): (n: nat)
    ensures n < 0x1_0000_0000_0000_0000
  {
    lane as nat
  }

  lemma PushedByte(x: bv32, b: bv8)
    requires x <= 0xff_ffff
    ensures ((x << 8) | (b as bv32)) as nat == 256 * (x as nat) + b as nat
  {}

  lemma WidenedByte(b: bv8)
    ensures (b as bv32) as nat == b as nat
  {}

  lemma ShiftedBytes(b0: bv8, b1: bv8, b2: bv8, b3: bv8)
    ensures ((b0 as bv32) << 24) | ((b1 as bv32) << 16) | ((b2 as bv32) << 8) | (b3 as bv32)
            == ((((((b0 as bv32) << 8) | (b1 as bv32)) << 8) | (b2 as bv32)) << 8) | (b3 as bv32)
    ensures b0 as bv32 <= 0xff
    ensures ((b0 as bv32) << 8) | (b1 as bv32) <= 0xffff
    ensures (((((b0 as bv32) << 8) | (b1 as bv32)) << 8) | (b2 as bv32)) <= 0xff_ffff
  {}

  lemma FourBytes(b0: bv8, b1: bv8, b2: bv8, b3: bv8)
    ensures (((b0 as bv32) << 24) | ((b1 as bv32) << 16) | ((b2 as bv32) << 8) | (b3 as bv32)) as nat
            == 256 * (256 * (256 * (b0 as nat) + b1 as nat) + b2 as nat) + b3 as nat
  {
    ShiftedBytes(b0, b1, b2, b3);
    WidenedByte(b0);
    PushedByte(b0 as bv32, b1);
    PushedByte(((b0 as bv32) << 8) | (b1 as bv32), b2);
    PushedByte(((((b0 as bv32) << 8) | (b1 as bv32)) << 8) | (b2 as bv32), b3);
  }

  /** A big-endian word has the value its bytes spell. */
  lemma WordNatOfBytes(b: seq<byte>)
    requires |b| == 4
    ensures WordNat(WordFromBe(b))
            == 256 * (256 * (256 * ByteNat(b[0]) + ByteNat(b[1])) + ByteNat(b[2])) + ByteNat(b[3])
  {
    FourBytes(b[0], b[1], b[2], b[3]);
  }

  /** The byte of a number, counted up from zero. */
  function NatByte(n: nat): byte
    requires n < 0x100
  {
    if n == 0 then 0 else NatByte(n - 1) + 1
  }

  lemma NextByte(b: bv8)
    requires b != 0xff
    ensures (b + 1) as nat == b as nat + 1
  {}

  lemma LastByte(b: bv8)
    ensures b == 0xff ==> b as nat == 0xff
    ensures b == 0 ==> b as nat == 0
  {}

  lemma {:induction false} NatByteValue(n: nat)
    requires n < 0x100
    ensures ByteNat(NatByte(n)) == n
  {
    if n == 0 {
      LastByte(NatByte(0));
    } else {
      NatByteValue(n - 1);
      LastByte(NatByte(n - 1));
      NextByte(NatByte(n - 1));
    }
  }

  lemma SameValue(a: bv8, b: bv8)
    requires a as nat == b as nat
    ensures a == b
  {}

  lemma ByteNatByte(b: byte)
    ensures NatByte(ByteNat(b)) == b
  {
    hide NatByte;
    NatByteValue(ByteNat(b));
    SameValue(NatByte(ByteNat(b)), b);
  }

  lemma ByteOrder(b: byte)
    ensures b < 0x80 <==> ByteNat(b) < 0x80
  {}

  lemma TwoBytes(bytes: seq<byte>)
    ensures |bytes| == 1 ==> BeValue(bytes) == ByteNat(bytes[0])
    ensures |bytes| == 2 ==> BeValue(bytes) == 256 * ByteNat(bytes[0]) + ByteNat(bytes[1])
  {
    hide ByteNat;
    if |bytes| == 1 {
      assert bytes[..0] == [];
    } else if |bytes| == 2 {
      assert bytes[..1][..0] == [];
      assert BeValue(bytes[..1]) == ByteNat(bytes[0]);
    }
  }

  /** The last `count` base-256 digits of a number, most significant first. */
  function BeDigits(n: nat, count: nat): (bytes: seq<byte>)
    ensures |bytes| == count
  {
    if count == 0 then [] else BeDigits(n / 256, count - 1) + [NatByte(n % 256)]
  }

  /** The same digits, least significant first. */
  function LeDigits(n: nat, count: nat): (bytes: seq<byte>)
    ensures |bytes| == count
  {
    if count == 0 then [] else [NatByte(n % 256)] + LeDigits(n / 256, count - 1)
  }

  lemma OneDigitLess(n: nat, count: nat)
    requires count > 0 && n < Pow2(8 * count)
    ensures n / 256 < Pow2(8 * (count - 1))
  {
    Pow2Eight();
    Pow2Add(8, 8 * (count - 1));
  }

  /** Enough digits spell the number. */
  lemma {:induction false} BeDigitsValue(n: nat, count: nat)
    requires n < Pow2(8 * count)
    ensures BeValue(BeDigits(n, count)) == n
  {
    hide NatByte, ByteNat;
    if count > 0 {
      OneDigitLess(n, count);
      BeDigitsValue(n / 256, count - 1);
      NatByteValue(n % 256);
      assert BeDigits(n, count)[..count - 1] == BeDigits(n / 256, count - 1);
    }
  }

  lemma {:induction false} LeDigitsValue(n: nat, count: nat)
    requires n < Pow2(8 * count)
    ensures LeValue(LeDigits(n, count)) == n
  {
    hide NatByte, ByteNat;
    if count > 0 {
      OneDigitLess(n, count);
      LeDigitsValue(n / 256, count - 1);
      NatByteValue(n % 256);
    }
  }

  /** Byte strings of one length that spell the same number are equal. */
  lemma {:induction false} LeValueDecides(a: seq<byte>, b: seq<byte>)
    requires |a| == |b| && LeValue(a) == LeValue(b)
    ensures a == b
  {
    hide ByteNat;
    if a != [] {
      LeValueDecides(a[1..], b[1..]);
      SameValue(a[0], b[0]) by { ByteNatIsNat(a[0]); ByteNatIsNat(b[0]); }
      assert a == [a[0]] + a[1..] && b == [b[0]] + b[1..];
    }
  }

  lemma ByteNatIsNat(b: byte)
    ensures ByteNat(b) == b as nat
  {}

  /** Up to eight bytes, filled up with zeros. */
  function Filled(bytes: seq<byte>, count: nat): (filled: seq<byte>)
    requires |bytes| <= count
    ensures |filled| == count
  {
    bytes + seq(count - |bytes|, _ => 0)
  }

  /** The bytes of a lane from the second on, moved down by one. */
  function LaneAbove(b: seq<byte>): bv64
    requires |b| == 8
  {
    LaneFromLe([b[1], b[2], b[3], b[4], b[5], b[6], b[7], 0])
  }

  lemma ShiftedLane(b: seq<byte>)
    requires |b| == 8
    ensures LaneFromLe(b) == (LaneAbove(b) << 8) | (b[0] as bv64)
    ensures LaneAbove(b) <= 0xff_ffff_ffff_ffff
  {}

  lemma PushedLaneByte(x: bv64, b: bv8)
    requires x <= 0xff_ffff_ffff_ffff
    ensures ((x << 8) | (b as bv64)) as nat == 256 * (x as nat) + b as nat
  {}

  lemma ZeroLane()
    ensures LaneFromLe([0, 0, 0, 0, 0, 0, 0, 0]) as nat == 0
  {}

  /** The lowest byte of a lane is its first. */
  lemma LaneStep(b: seq<byte>)
    requires |b| == 8
    ensures LaneNat(LaneFromLe(b)) == ByteNat(b[0]) + 256 * LaneNat(LaneFromLe(b[1..] + [0]))
  {
    ShiftedLane(b);
    assert b[1..] + [0] == [b[1], b[2], b[3], b[4], b[5], b[6], b[7], 0];
    PushedLaneByte(LaneAbove(b), b[0]);
    hide LaneFromLe;
  }

  lemma {:induction false} LaneValueFilled(bytes: seq<byte>)
    requires |bytes| <= 8
    ensures LaneNat(LaneFromLe(Filled(bytes, 8))) == LeValue(bytes)
  {
    hide LaneFromLe, LaneNat, ByteNat;
    var filled := Filled(bytes, 8);
    if bytes == [] {
      assert filled == [0, 0, 0, 0, 0, 0, 0, 0];
      LaneNatIsNat();
    } else {
      LaneStep(filled);
      assert filled[1..] + [0] == Filled(bytes[1..], 8);
      LaneValueFilled(bytes[1..]);
    }
  }

  lemma LaneNatIsNat()
    ensures LaneNat(LaneFromLe([0, 0, 0, 0, 0, 0, 0, 0])) == 0
  {
    ZeroLane();
  }

  /** A little-endian lane has the value its bytes spell. */
  lemma LaneValue(bytes: seq<byte>)
    requires |bytes| == 8
    ensures LaneNat(LaneFromLe(bytes)) == LeValue(bytes)
  {
    LaneValueFilled(bytes);
    assert Filled(bytes, 8) == bytes;
  }

  /** The bytes of a lane spell its value. */
  lemma LaneBytesValue(lane: Lane)
    ensures LeValue(LaneToLe(lane)) == LaneNat(lane)
  {
    hide LaneFromLe, LaneToLe;
    LaneValue(LaneToLe(lane));
    LaneLeRoundTrip(lane);
  }

  lemma OrBackwards(b0: byte, b1: byte, b2: byte, b3: byte)
    ensures (b0 as bv32) | ((b1 as bv32) << 8) | ((b2 as bv32) << 16) | ((b3 as bv32) << 24)
            == ((b3 as bv32) << 24) | ((b2 as bv32) << 16) | ((b1 as bv32) << 8) | (b0 as bv32)
  {}

  lemma ReversedWord(bytes: seq<byte>)
    requires |bytes| == 4
    ensures WordFromLe(bytes) == WordFromBe([bytes[3], bytes[2], bytes[1], bytes[0]])
  {
    OrBackwards(bytes[0], bytes[1], bytes[2], bytes[3]);
  }

  /** A little-endian word has the value its bytes spell. */
  lemma WordLeValue(bytes: seq<byte>)
    requires |bytes| == 4
    ensures WordNat(WordFromLe(bytes)) == LeValue(bytes)
  {
    hide WordFromLe, WordFromBe, WordNat, ByteNat;
    var reversed := [bytes[3], bytes[2], bytes[1], bytes[0]];
    ReversedWord(bytes);
    WordNatOfBytes(reversed);
    FourLeBytes(bytes);
  }

  lemma FourLeBytes(bytes: seq<byte>)
    requires |bytes| == 4
    ensures LeValue(bytes)
            == ByteNat(bytes[0]) + 256 * (ByteNat(bytes[1]) + 256 * (ByteNat(bytes[2]) + 256 * ByteNat(bytes[3])))
  {
    hide ByteNat;
    assert LeValue(bytes[1..]) == ByteNat(bytes[1]) + 256 * LeValue(bytes[1..][1..]);
    assert LeValue(bytes[1..][1..]) == ByteNat(bytes[2]) + 256 * LeValue(bytes[1..][1..][1..]);
    assert LeValue(bytes[1..][1..][1..]) == ByteNat(bytes[3]) + 256 * LeValue(bytes[1..][1..][1..][1..]);
    assert bytes[1..][1..][1..][1..] == [];
  }

  /** A 32-bit number as a word. */
  function NatWord(n: nat): Word
    requires n < 0x1_0000_0000
  {
    WordFromBe(BeDigits(n, 4))
  }

  lemma BeWordValue(bytes: seq<byte>)
    requires |bytes| == 4
    ensures WordNat(WordFromBe(bytes)) == BeValue(bytes)
  {
    hide ByteNat, WordNat, WordFromBe;
    WordNatOfBytes(bytes);
    assert bytes[..3][..2] == bytes[..2] && bytes[..2][..1] == bytes[..1] && bytes[..1][..0] == [];
    assert BeValue(bytes[..1]) == ByteNat(bytes[0]);
    assert BeValue(bytes[..2]) == 256 * BeValue(bytes[..1]) + ByteNat(bytes[1]);
    assert BeValue(bytes[..3]) == 256 * BeValue(bytes[..2]) + ByteNat(bytes[2]);
  }

  lemma NatWordValue(n: nat)
    requires n < 0x1_0000_0000
    ensures WordNat(NatWord(n)) == n
  {
    hide WordFromBe, WordNat, BeDigits, BeValue;
    Pow2Values();
    BeDigitsValue(n, 4);
    BeWordValue(BeDigits(n, 4));
  }

  lemma QuotientIsUnique(d: nat, n: nat, q: nat, r: nat)
    requires n == d * q + r && r < d
    ensures n / d == q && n % d == r
  {
    var p, s := n / d, n % d;
    assert n == d * p + s;
    if p > q {
      AtLeastOneMore(d, q, p);
    } else if p < q {
      AtLeastOneMore(d, p, q);
    }
  }

  lemma AtLeastOneMore(d: nat, a: nat, b: nat)
    requires a < b
    ensures d * a + d <= d * b
  {
    assert d * b == d * a + d * (b - a);
    assert d * (b - a) == d + d * (b - a - 1);
  }

  /** Digits split where a number does. */
  lemma {:induction false} BeDigitsSplit(n: nat, q: nat, r: nat, high: nat, low: nat)
    requires n == Pow2(8 * low) * q + r && r < Pow2(8 * low)
    ensures BeDigits(n, high + low) == BeDigits(q, high) + BeDigits(r, low)
  {
    hide NatByte;
    if low == 0 {
      assert Pow2(0) == 1 && BeDigits(r, 0) == [];
    } else {
      Pow2Eight();
      Pow2Add(8, 8 * (low - 1));
      hide Pow2;
      var less := Pow2(8 * (low - 1));
      assert n == 256 * (less * q) + r by { DoubledProduct(less, q); }
      assert n / 256 == less * q + r / 256 && n % 256 == r % 256;
      BeDigitsSplit(n / 256, q, r / 256, high, low - 1);
      assert BeDigits(r, low) == BeDigits(r / 256, low - 1) + [NatByte(r % 256)];
      assert BeDigits(n, high + low) == BeDigits(n / 256, high + (low - 1)) + [NatByte(n % 256)];
    }
  }

  lemma DoubledProduct(a: nat, b: nat)
    ensures (256 * a) * b == 256 * (a * b)
  {}

  /** The value of a byte string splits at any point. */
  lemma {:induction false} BeValueSplits(a: seq<byte>, b: seq<byte>)
    ensures BeValue(a + b) == BeValue(a) * Pow2(8 * |b|) + BeValue(b)
  {
    hide ByteNat, Pow2;
    if b == [] {
      Pow2Zero();
      assert a + b == a;
    } else {
      var init, last := b[..|b| - 1], ByteNat(b[|b| - 1]);
      BeValueSplits(a, init);
      assert (a + b)[..|a + b| - 1] == a + init;
      assert BeValue(a + b) == 256 * BeValue(a + init) + last;
      EightMoreBits(8 * |init|);
      PushDigit(BeValue(a), Pow2(8 * |init|), BeValue(init), last, Pow2(8 * |b|));
    }
  }

  lemma EightMoreBits(k: nat)
    ensures Pow2(k + 8) == 0x100 * Pow2(k)
  {
    Pow2Add(8, k);
    Pow2Values();
  }

  lemma PushDigit(v: nat, p: nat, x: nat, last: nat, q: nat)
    requires q == 0x100 * p
    ensures 0x100 * (v * p + x) + last == v * q + (0x100 * x + last)
  {
    assert v * (0x100 * p) == 0x100 * (v * p);
  }

  /** The bits of a byte, least significant first. */
  function ByteBits(b: byte): (bits: seq<bool>)
    ensures |bits| == 8
  {
    [b & 0x01 != 0, b & 0x02 != 0, b & 0x04 != 0, b & 0x08 != 0,
     b & 0x10 != 0, b & 0x20 != 0, b & 0x40 != 0, b & 0x80 != 0]
  }

  /** The number bits spell, least significant first. */
  function BitsValue(bits: seq<bool>): nat {
    if bits == [] then 0 else BitNat(bits[0]) + 2 * BitsValue(bits[1..])
  }

  /** The bits of a byte string, byte by byte. */
  function Bits(bytes: seq<byte>): (bits: seq<bool>)
    ensures |bits| == 8 * |bytes|
  {
    if bytes == [] then [] else ByteBits(bytes[0]) + Bits(bytes[1..])
  }

  lemma ByteIsItsBits(b: byte)
    ensures ByteNat(b)
            == (if b & 0x80 != 0 then 128 else 0) + (if b & 0x40 != 0 then 64 else 0)
             + (if b & 0x20 != 0 then 32 else 0) + (if b & 0x10 != 0 then 16 else 0)
             + (if b & 0x08 != 0 then 8 else 0) + (if b & 0x04 != 0 then 4 else 0)
             + (if b & 0x02 != 0 then 2 else 0) + (if b & 0x01 != 0 then 1 else 0)
  {}

  function BitNat(bit: bool): nat {
    if bit then 1 else 0
  }

  lemma EightBits(bits: seq<bool>)
    requires |bits| == 8
    ensures BitsValue(bits)
            == BitNat(bits[0]) + 2 * BitNat(bits[1]) + 4 * BitNat(bits[2]) + 8 * BitNat(bits[3])
             + 16 * BitNat(bits[4]) + 32 * BitNat(bits[5]) + 64 * BitNat(bits[6]) + 128 * BitNat(bits[7])
  {
    BitsFrom(bits, 0);
    BitsFrom(bits, 1);
    BitsFrom(bits, 2);
    BitsFrom(bits, 3);
    BitsFrom(bits, 4);
    BitsFrom(bits, 5);
    BitsFrom(bits, 6);
    BitsFrom(bits, 7);
    assert bits[0..] == bits && BitsValue(bits[8..]) == 0;
    hide BitNat, BitsValue;
  }

  lemma BitsFrom(bits: seq<bool>, k: nat)
    requires k < |bits|
    ensures BitsValue(bits[k..]) == BitNat(bits[k]) + 2 * BitsValue(bits[k + 1..])
  {
    assert bits[k..][1..] == bits[k + 1..];
  }

  /** The bits of a byte spell it. */
  lemma ByteBitsValue(b: byte)
    ensures BitsValue(ByteBits(b)) == ByteNat(b)
  {
    hide BitsValue, ByteNat;
    EightBits(ByteBits(b));
    ByteIsItsBits(b);
  }

  lemma FirstBits(bytes: seq<byte>)
    requires bytes != []
    ensures Bits(bytes) == ByteBits(bytes[0]) + Bits(bytes[1..])
  {}

  lemma ThreeParts<T>(a: seq<T>, b: seq<T>, c: seq<T>)
    ensures a + (b + c) == (a + b) + c
  {}

  lemma {:induction false} BitsConcat(a: seq<byte>, b: seq<byte>)
    ensures Bits(a + b) == Bits(a) + Bits(b)
  {
    if a == [] {
      assert a + b == b && Bits(a) == [];
    } else {
      hide ByteBits, Bits;
      BitsConcat(a[1..], b);
      assert (a + b)[1..] == a[1..] + b;
      FirstBits(a);
      FirstBits(a + b);
      ThreeParts(ByteBits(a[0]), Bits(a[1..]), Bits(b));
    }
  }

  lemma {:induction false} BitsOfZeros(n: nat)
    ensures Bits(seq(n, _ => 0)) == seq(8 * n, _ => false)
  {
    if n > 0 {
      var zeros: seq<byte> := seq(n, _ => 0);
      BitsOfZeros(n - 1);
      assert zeros[1..] == seq(n - 1, _ => 0);
      assert ByteBits(0) == seq(8, _ => false);
      assert seq(8 * n, _ => false) == seq(8, _ => false) + seq(8 * (n - 1), _ => false);
    }
  }

  lemma BitsOfByte(b: byte)
    ensures Bits([b]) == ByteBits(b)
  {
    assert [b][1..] == [];
  }

  lemma {:induction false} LeValueBound(bytes: seq<byte>)
    ensures LeValue(bytes) < Pow2(8 * |bytes|)
  {
    hide ByteNat;
    if bytes != [] {
      LeValueBound(bytes[1..]);
      EightMoreBits(8 * (|bytes| - 1));
    }
  }

  lemma {:induction false} BeValueBound(bytes: seq<byte>)
    ensures BeValue(bytes) < Pow2(8 * |bytes|)
  {
    hide ByteNat;
    if bytes != [] {
      BeValueBound(bytes[..|bytes| - 1]);
      EightMoreBits(8 * (|bytes| - 1));
    }
  }

  lemma {:induction false} LeValueSplits(a: seq<byte>, b: seq<byte>)
    ensures LeValue(a + b) == LeValue(a) + Pow2(8 * |a|) * LeValue(b)
  {
    hide ByteNat, Pow2;
    if a == [] {
      Pow2Zero();
      assert a + b == b;
    } else {
      LeValueSplits(a[1..], b);
      assert (a + b)[1..] == a[1..] + b;
      assert LeValue(a + b) == ByteNat(a[0]) + 256 * LeValue(a[1..] + b);
      EightMoreBits(8 * (|a| - 1));
      DoubledProduct(Pow2(8 * (|a| - 1)), LeValue(b));
    }
  }

  lemma {:induction false} ZerosSpellNothing(count: nat)
    ensures LeValue(seq(count, _ => 0)) == 0
  {
    if count > 0 {
      var zeros: seq<byte> := seq(count, _ => 0);
      ZerosSpellNothing(count - 1);
      assert zeros[1..] == seq(count - 1, _ => 0);
      LastByte(0);
    }
  }

  /** Zeros behind the last byte do not count. */
  lemma FilledValue(bytes: seq<byte>, count: nat)
    requires |bytes| <= count
    ensures LeValue(Filled(bytes, count)) == LeValue(bytes)
  {
    hide LeValue;
    ZerosSpellNothing(count - |bytes|);
    LeValueSplits(bytes, seq(count - |bytes|, _ => 0));
  }

  /** The number words spell, least significant first. */
  function WordsValue(words: seq<Word>): (value: nat) {
    if words == [] then 0 else WordNat(words[0]) + 0x1_0000_0000 * WordsValue(words[1..])
  }
}
