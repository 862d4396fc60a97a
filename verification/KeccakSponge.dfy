/**
 * Keccak-256 as a sponge over an arbitrary permutation: sections 4 and 5.1 of
 * FIPS 202, with the original Keccak domain byte 0x01.
 */
module KeccakSponge {
  import opened Bytes
  import opened Numbers

  const RATE_BYTES: nat := 136
  const RATE_LANES: nat := 17
  const LANE_BYTES: nat := 8
  const STATE_LANES: nat := 25
  const DIGEST_LANES: nat := 4
  const DOMAIN_SEPARATOR: byte := 0x01
  const FINAL_BIT: byte := 0x80

  /** Keccak[c] of section 5.2 of FIPS 202 with a capacity of twice the 256 bits of the digest. */
  lemma SpongeParameters()
    ensures 8 * LANE_BYTES * STATE_LANES == 1600 && 8 * RATE_BYTES == 1600 - 2 * 256
    ensures LANE_BYTES * RATE_LANES == RATE_BYTES && 8 * LANE_BYTES * DIGEST_LANES == 256
  {}

  type State = s: seq<Lane> | |s| == STATE_LANES witness seq(STATE_LANES, _ => 0)
  type Permutation = State -> State

  function ZeroState(): State {
    seq(STATE_LANES, _ => 0)
  }

  /** One call of the permutation: its input and its output. */
  datatype Call = Call(input: State, output: State)

  function NumBlocks(messageLen: nat): (n: nat)
    ensures n >= 1
  {
    messageLen / RATE_BYTES + 1
  }

  /** A padded length is whole blocks, and so whole lanes. */
  lemma PaddedLength(messageLen: nat)
    ensures messageLen + (RATE_BYTES - messageLen % RATE_BYTES) == RATE_BYTES * NumBlocks(messageLen)
  {}

  lemma LanesInBlocks(n: nat)
    ensures RATE_BYTES * n % LANE_BYTES == 0 && RATE_BYTES * n / LANE_BYTES == RATE_LANES * n
  {
    assert RATE_BYTES * n == LANE_BYTES * (RATE_LANES * n);
  }

  /** The message with the pad10*1 rule and the domain byte applied to it. */
  function Pad(message: seq<byte>): (padded: seq<byte>)
    ensures |padded| == RATE_BYTES * NumBlocks(|message|)
    ensures |padded| % LANE_BYTES == 0 && |padded| / LANE_BYTES == RATE_LANES * NumBlocks(|message|)
    ensures message <= padded
  {
    PaddedLength(|message|);
    LanesInBlocks(NumBlocks(|message|));
    PadWith(message, RATE_BYTES - |message| % RATE_BYTES)
  }

  /** The domain byte, zeros and the final bit, in q bytes. */
  function PadWith(message: seq<byte>, q: nat): (padded: seq<byte>)
    requires q > 0
    ensures |padded| == |message| + q && message <= padded
  {
    if q == 1 then message + [DOMAIN_SEPARATOR | FINAL_BIT]
    else message + [DOMAIN_SEPARATOR] + seq(q - 2, _ => 0) + [FINAL_BIT]
  }

  lemma MarkerBits()
    ensures Bits([DOMAIN_SEPARATOR]) == [true] + seq(7, _ => false)
    ensures Bits([FINAL_BIT]) == seq(7, _ => false) + [true]
    ensures Bits([DOMAIN_SEPARATOR | FINAL_BIT]) == [true] + seq(6, _ => false) + [true]
  {
    BitsOfByte(DOMAIN_SEPARATOR);
    BitsOfByte(FINAL_BIT);
    BitsOfByte(DOMAIN_SEPARATOR | FINAL_BIT);
  }

  /**
   * The pad10*1 rule of section 5.1 of FIPS 202, bit by bit, for messages of any
   * length: a one, as few zeros as reach a whole block, and a one.
   */
  lemma PadIsStandard(message: seq<byte>)
    ensures var zeros := |Bits(Pad(message))| - |Bits(message)| - 2;
            && 0 <= zeros < 8 * RATE_BYTES && |Bits(Pad(message))| % (8 * RATE_BYTES) == 0
            && Bits(Pad(message)) == Bits(message) + [true] + seq(zeros, _ => false) + [true]
  {
    hide Bits;
    MarkerBits();
    PaddedLength(|message|);
    var q := RATE_BYTES - |message| % RATE_BYTES;
    var zeros := 8 * q - 2;
    if q == 1 {
      BitsConcat(message, [DOMAIN_SEPARATOR | FINAL_BIT]);
    } else {
      var fill: seq<byte> := seq(q - 2, _ => 0);
      BitsConcat(message + [DOMAIN_SEPARATOR] + fill, [FINAL_BIT]);
      BitsConcat(message + [DOMAIN_SEPARATOR], fill);
      BitsConcat(message, [DOMAIN_SEPARATOR]);
      BitsOfZeros(q - 2);
      assert seq(7, _ => false) + seq(8 * (q - 2), _ => false) + seq(7, _ => false) == seq(zeros, _ => false);
    }
  }

  /** Lane i of a byte string has the value its eight bytes spell, least significant first. */
  lemma LanesSpell(bytes: seq<byte>, i: nat)
    requires |bytes| % LANE_BYTES == 0 && LANE_BYTES * i + LANE_BYTES <= |bytes|
    ensures LaneNat(LanesFromLe(bytes)[i]) == LeValue(bytes[LANE_BYTES * i..LANE_BYTES * i + LANE_BYTES])
  {
    hide LaneFromLe, LaneNat, LeValue;
    LaneValue(bytes[LANE_BYTES * i..LANE_BYTES * i + LANE_BYTES]);
  }

  /** Written out, it has those bytes. */
  lemma LaneBytesSpell(lanes: seq<Lane>, i: nat)
    requires i < |lanes|
    ensures LeValue(LanesToLe(lanes)[LANE_BYTES * i..LANE_BYTES * i + LANE_BYTES]) == LaneNat(lanes[i])
  {
    hide LanesToLe, LanesFromLe, LaneNat, LeValue;
    LanesRoundTrip(lanes);
    LanesSpell(LanesToLe(lanes), i);
  }

  function Absorb(state: State, block: seq<Lane>): State
    requires |block| == RATE_LANES
  {
    seq(STATE_LANES, i requires 0 <= i < STATE_LANES => if i < RATE_LANES then Xor(state[i], block[i]) else state[i])
  }

  function Block(lanes: seq<Lane>, b: nat): (block: seq<Lane>)
    requires RATE_LANES * (b + 1) <= |lanes|
    ensures |block| == RATE_LANES
  {
    lanes[RATE_LANES * b..RATE_LANES * (b + 1)]
  }

  /** The state after absorbing the first n blocks. */
  function Absorbed(f: Permutation, lanes: seq<Lane>, n: nat): State
    requires RATE_LANES * n <= |lanes|
  {
    if n == 0 then ZeroState() else f(Absorb(Absorbed(f, lanes, n - 1), Block(lanes, n - 1)))
  }

  function PaddedLanes(message: seq<byte>): (lanes: seq<Lane>)
    ensures |lanes| == RATE_LANES * NumBlocks(|message|)
  {
    LanesFromLe(Pad(message))
  }

  function Keccak256(f: Permutation, message: seq<byte>): (digest: seq<byte>)
    ensures |digest| == 32
  {
    LanesToLe(Absorbed(f, PaddedLanes(message), NumBlocks(|message|))[..DIGEST_LANES])
  }

  /** The permutation calls the sponge makes on a message, in order. */
  function SpongeCalls(f: Permutation, message: seq<byte>): (calls: seq<Call>)
    ensures |calls| == NumBlocks(|message|)
  {
    seq(NumBlocks(|message|), b requires 0 <= b < NumBlocks(|message|) => SpongeCall(f, PaddedLanes(message), b))
  }

  function SpongeCall(f: Permutation, lanes: seq<Lane>, b: nat): Call
    requires RATE_LANES * (b + 1) <= |lanes|
  {
    Call(Absorb(Absorbed(f, lanes, b), Block(lanes, b)), Absorbed(f, lanes, b + 1))
  }

  /** The value the program requires in lane i of the last absorbed block. */
  function PadLane(messageLen: nat, i: nat): Lane
  {
    var first := FirstPadLane(messageLen);
    (if i == first then DOMAIN_SEPARATOR as bv64 else 0)
    | (if i == RATE_LANES - 1 then 0x8000_0000_0000_0000 else 0)
  }

  /** The first lane of the last block that holds no message byte. */
  function FirstPadLane(messageLen: nat): (first: nat)
    ensures first < RATE_LANES
  {
    (messageLen % RATE_BYTES) / LANE_BYTES
  }

  /** The lanes the padding adds to a message of whole lanes. */
  function PadLanes(messageLen: nat): (lanes: seq<Lane>)
  {
    var first := FirstPadLane(messageLen);
    seq(RATE_LANES - first, k requires 0 <= k < RATE_LANES - first => PadLane(messageLen, first + k))
  }

  lemma LanesLeft(messageLen: nat)
    requires messageLen % LANE_BYTES == 0
    ensures RATE_BYTES - messageLen % RATE_BYTES == LANE_BYTES * (RATE_LANES - FirstPadLane(messageLen))
  {
    var blocks, lanes := messageLen / RATE_BYTES, messageLen / LANE_BYTES;
    assert messageLen == LANE_BYTES * lanes;
    assert messageLen % RATE_BYTES == messageLen - RATE_BYTES * blocks;
    assert messageLen % RATE_BYTES == LANE_BYTES * (lanes - RATE_LANES * blocks);
  }

  /** The bytes padding adds to a message of whole lanes. */
  function PadBytes(messageLen: nat): (bytes: seq<byte>)
    requires messageLen % LANE_BYTES == 0
    ensures |bytes| == LANE_BYTES * (RATE_LANES - FirstPadLane(messageLen))
  {
    LanesLeft(messageLen);
    [DOMAIN_SEPARATOR] + seq(RATE_BYTES - messageLen % RATE_BYTES - 2, _ => 0) + [FINAL_BIT]
  }

  /** Byte j of the padding. */
  lemma PadByteAt(messageLen: nat, j: nat)
    requires messageLen % LANE_BYTES == 0 && j < |PadBytes(messageLen)|
    ensures PadBytes(messageLen)[j]
            == if j == 0 then DOMAIN_SEPARATOR else if j == |PadBytes(messageLen)| - 1 then FINAL_BIT else 0
  {
    hide FirstPadLane;
    LanesLeft(messageLen);
  }

  /** The eight bytes of lane k of the padding. */
  lemma PadBytesOfLane(messageLen: nat, k: nat)
    requires messageLen % LANE_BYTES == 0 && k < RATE_LANES - FirstPadLane(messageLen)
    ensures var head: byte := if k == 0 then DOMAIN_SEPARATOR else 0;
            var tail: byte := if k == RATE_LANES - FirstPadLane(messageLen) - 1 then FINAL_BIT else 0;
            PadBytes(messageLen)[8 * k..8 * k + 8] == [head, 0, 0, 0, 0, 0, 0, tail]
  {
    hide PadBytes, FirstPadLane;
    var bytes, b := PadBytes(messageLen), PadBytes(messageLen)[8 * k..8 * k + 8];
    var head: byte := if k == 0 then DOMAIN_SEPARATOR else 0;
    var tail: byte := if k == RATE_LANES - FirstPadLane(messageLen) - 1 then FINAL_BIT else 0;
    forall i | 0 <= i < 8
      ensures b[i] == [head, 0, 0, 0, 0, 0, 0, tail][i]
    {
      PadByteAt(messageLen, 8 * k + i);
      assert b[i] == bytes[8 * k + i];
    }
  }

  lemma PadBytesAsLanes(messageLen: nat)
    requires messageLen % LANE_BYTES == 0
    ensures LanesFromLe(PadBytes(messageLen)) == PadLanes(messageLen)
  {
    hide LaneFromLe, PadLane, PadBytes, FirstPadLane;
    forall k | 0 <= k < RATE_LANES - FirstPadLane(messageLen)
      ensures LaneOf(PadBytes(messageLen), k) == PadLane(messageLen, FirstPadLane(messageLen) + k)
    {
      PadBytesOfLane(messageLen, k);
      PadLaneFromBytes(messageLen, k);
    }
  }

  lemma PadLaneFromBytes(messageLen: nat, k: nat)
    requires k < RATE_LANES - FirstPadLane(messageLen)
    ensures var head: byte := if k == 0 then DOMAIN_SEPARATOR else 0;
            var tail: byte := if k == RATE_LANES - FirstPadLane(messageLen) - 1 then FINAL_BIT else 0;
            LaneFromLe([head, 0, 0, 0, 0, 0, 0, tail]) == PadLane(messageLen, FirstPadLane(messageLen) + k)
  {}

  /**
   * Byte-level padding and the program's lane-level padding agree: the padded
   * message is the message's own lanes followed by the required pad lanes, of
   * which the last block holds the lanes from the first pad lane on.
   */
  lemma PaddingRefinesBytes(message: seq<byte>)
    requires |message| % LANE_BYTES == 0
    ensures PaddedLanes(message) == LanesFromLe(message) + PadLanes(|message|)
    ensures |message| / LANE_BYTES == RATE_LANES * (NumBlocks(|message|) - 1) + FirstPadLane(|message|)
  {
    LanesLeft(|message|);
    assert Pad(message) == message + PadBytes(|message|);
    LanesFromLeConcat(message, PadBytes(|message|));
    PadBytesAsLanes(|message|);
  }
}
