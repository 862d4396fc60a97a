/** Every table that satisfies the Keccak circuit holds a message that hashes to the published digest. */
module KeccakSoundness {
  import opened Bytes
  import opened Circuits
  import opened KeccakRows
  import opened KeccakSponge
  import opened KeccakCircuit

  function StateAt(t: Table, r: nat): State
    requires r < |t| && Wide(t, WIDTH)
  {
    t[r][..STATE_LANES]
  }

  /**
   * What a mounted permutation chiplet guarantees, and the only thing trusted about
   * it: for each block it was mounted for, if its service marks the two service
   * rows, what it passes on the second is the permutation of the first.
   */
  ghost predicate ChipletContract(h: Height, f: Permutation, p: Program, t: Table)
    requires WellFormed(p) && Wide(t, |p.columns|)
  {
    forall i, j, b ::
      && 0 <= i < |p.services| && 0 <= j < |p.chiplets| && |p.services[i].columns| == STATE_LANES
      && 0 <= b < p.chiplets[j].blocks && OutputRow(h, b) < |t|
      && t[InputRow(h, b)][p.services[i].selector] == 1 && t[OutputRow(h, b)][p.services[i].selector] == 1 ==>
        ServiceCells(p.services[i], t[OutputRow(h, b)]) == f(ServiceCells(p.services[i], t[InputRow(h, b)]))
  }

  /** Every block is permuted. */
  ghost predicate BlocksPermute(h: Height, f: Permutation, t: Table, numBlocks: nat)
    requires |t| > InputRow(h, numBlocks) && Wide(t, WIDTH)
  {
    forall b :: 0 <= b < numBlocks ==>
      (BlockFits(h, b, numBlocks); StateAt(t, OutputRow(h, b)) == f(StateAt(t, InputRow(h, b))))
  }

  lemma PermutationServiceCells(t: Table, r: nat)
    requires r < |t| && Wide(t, WIDTH)
    ensures ServiceIn(PermutationService(), WIDTH) && ServiceCells(PermutationService(), t[r]) == StateAt(t, r)
  {}

  /** For the circuit's own service and chiplet the contract speaks of every block. */
  lemma ContractMeaning(h: Height, f: Permutation, t: Table, rows: nat, numBlocks: nat, messageLen: nat)
    requires numBlocks > 0 && |t| > InputRow(h, numBlocks) && Wide(t, WIDTH) && GatesAreFixed(h, t, numBlocks)
    requires WellFormed(ProgramFor(h, rows, numBlocks, messageLen))
    ensures ChipletContract(h, f, ProgramFor(h, rows, numBlocks, messageLen), t) <==> BlocksPermute(h, f, t, numBlocks)
  {
    var p := ProgramFor(h, rows, numBlocks, messageLen);
    assert p.services == [PermutationService()] && p.chiplets == [Chiplet(rows, numBlocks)];
    assert |p.columns| == WIDTH;
    hide InputRow, OutputRow, ServiceCells, StateAt, ProgramFor, IsServiceRow, IsOutputRow, IsSeamRow;
    forall b | 0 <= b < numBlocks
      ensures InputRow(h, b) < OutputRow(h, b) < |t|
      ensures t[InputRow(h, b)][SELECTOR] == 1 && t[OutputRow(h, b)][SELECTOR] == 1
      ensures ServiceCells(p.services[0], t[OutputRow(h, b)]) == StateAt(t, OutputRow(h, b))
      ensures ServiceCells(p.services[0], t[InputRow(h, b)]) == StateAt(t, InputRow(h, b))
    {
      BlockFits(h, b, numBlocks);
      ServiceRowsOfBlock(h, numBlocks, b);
      PermutationServiceCells(t, OutputRow(h, b));
      PermutationServiceCells(t, InputRow(h, b));
    }
    if ChipletContract(h, f, p, t) {
      forall b | 0 <= b < numBlocks
        ensures StateAt(t, OutputRow(h, b)) == f(StateAt(t, InputRow(h, b)))
      {
        assert b < p.chiplets[0].blocks && t[OutputRow(h, b)][p.services[0].selector] == 1;
      }
    }
  }

  /** All the lanes a table absorbs, block after block. */
  function AbsorbedLanes(h: Height, t: Table, numBlocks: nat): (lanes: seq<Lane>)
    requires |t| > InputRow(h, numBlocks) && Wide(t, WIDTH)
    ensures |lanes| == RATE_LANES * numBlocks
  {
    seq(RATE_LANES * numBlocks, k requires 0 <= k < RATE_LANES * numBlocks =>
      BlockFits(h, k / RATE_LANES, numBlocks);
      AbsorbedLane(h, t, k / RATE_LANES, k % RATE_LANES))
  }

  /** The message a table holds: the absorbed lanes before the padding. */
  function ExtractedMessage(h: Height, t: Table, messageLen: nat): (message: seq<byte>)
    requires messageLen % LANE_BYTES == 0
    requires |t| > InputRow(h, NumBlocks(messageLen)) && Wide(t, WIDTH)
    ensures |message| == messageLen
  {
    LanesToLe(AbsorbedLanes(h, t, NumBlocks(messageLen))[..messageLen / LANE_BYTES])
  }

  function StateBefore(h: Height, t: Table, b: nat): State
    requires InputRow(h, b) < |t| && Wide(t, WIDTH)
  {
    if b == 0 then ZeroState()
    else
      NextBlock(h, b - 1);
      StateAt(t, OutputRow(h, b - 1))
  }

  lemma AbsorbedLaneFits(h: Height, t: Table, b: nat, i: nat)
    requires InputRow(h, b) < |t| && Wide(t, WIDTH) && i < RATE_LANES
    ensures Xor(StateBefore(h, t, b)[i], AbsorbedLane(h, t, b, i)) == t[InputRow(h, b)][i]
  {
    hide Xor, InputRow;
    FirstBlock(h);
    if b > 0 {
      NextBlock(h, b - 1);
    }
    XorCancels(StateBefore(h, t, b)[i], t[InputRow(h, b)][i]);
    XorCancels(t[InputRow(h, b)][i], StateBefore(h, t, b)[i]);
  }

  lemma InputIsAbsorbed(h: Height, t: Table, numBlocks: nat, b: nat)
    requires b < numBlocks && InputRow(h, b) < |t| && |t| > InputRow(h, numBlocks) && Wide(t, WIDTH)
    requires CapacityIsChained(h, t, numBlocks)
    ensures StateAt(t, InputRow(h, b)) == Absorb(StateBefore(h, t, b), Block(AbsorbedLanes(h, t, numBlocks), b))
  {
    hide Xor, AbsorbedLane, InputRow;
    var before, lanes := StateBefore(h, t, b), AbsorbedLanes(h, t, numBlocks);
    forall i | 0 <= i < STATE_LANES
      ensures StateAt(t, InputRow(h, b))[i] == Absorb(before, Block(lanes, b))[i]
    {
      if i < RATE_LANES {
        assert (RATE_LANES * b + i) / RATE_LANES == b && (RATE_LANES * b + i) % RATE_LANES == i;
        assert Block(lanes, b)[i] == AbsorbedLane(h, t, b, i);
        AbsorbedLaneFits(h, t, b, i);
      } else if b > 0 {
        NextBlock(h, b - 1);
        assert t[OutputRow(h, b - 1) + 1][i] == t[OutputRow(h, b - 1)][i];
      } else {
        FirstBlock(h);
      }
    }
  }

  /** By induction over the blocks, each output row holds the sponge state after its block. */
  lemma {:induction false} OutputIsSpongeState(h: Height, f: Permutation, t: Table, numBlocks: nat, b: nat)
    requires b < numBlocks && |t| > InputRow(h, numBlocks) && Wide(t, WIDTH)
    requires CapacityIsChained(h, t, numBlocks) && BlocksPermute(h, f, t, numBlocks)
    ensures OutputRow(h, b) < |t|
    ensures StateAt(t, OutputRow(h, b)) == Absorbed(f, AbsorbedLanes(h, t, numBlocks), b + 1)
  {
    hide Absorb, AbsorbedLanes, CapacityIsChained, StateAt, InputRow;
    BlockFits(h, b, numBlocks);
    if b > 0 {
      OutputIsSpongeState(h, f, t, numBlocks, b - 1);
    }
    InputIsAbsorbed(h, t, numBlocks, b);
    assert StateAt(t, OutputRow(h, b)) == f(StateAt(t, InputRow(h, b)));
  }

  /** The absorbed lanes are the padded lanes of the extracted message. */
  lemma AbsorbedIsPaddedMessage(h: Height, t: Table, messageLen: nat)
    requires messageLen % LANE_BYTES == 0
    requires |t| > InputRow(h, NumBlocks(messageLen)) && Wide(t, WIDTH)
    requires LastBlockIsPadded(h, t, NumBlocks(messageLen), messageLen)
    ensures AbsorbedLanes(h, t, NumBlocks(messageLen)) == PaddedLanes(ExtractedMessage(h, t, messageLen))
  {
    hide Xor, PadLane, AbsorbedLane, LanesFromLe, LanesToLe, Pad, InputRow;
    var n := NumBlocks(messageLen);
    var lanes, own := AbsorbedLanes(h, t, n), messageLen / LANE_BYTES;
    var message := ExtractedMessage(h, t, messageLen);
    PaddingRefinesBytes(message);
    LanesRoundTrip(lanes[..own]);
    BlockFits(h, n - 1, n);
    forall k | 0 <= k < |PadLanes(messageLen)|
      ensures lanes[own + k] == PadLanes(messageLen)[k]
    {
      var i := FirstPadLane(messageLen) + k;
      assert (own + k) / RATE_LANES == n - 1 && (own + k) % RATE_LANES == i;
      assert AbsorbedLane(h, t, n - 1, i) == PadLane(messageLen, i);
    }
    assert lanes[own..] == PadLanes(messageLen);
    assert lanes == lanes[..own] + lanes[own..];
  }

  /**
   * Soundness: a table that satisfies the circuit of a length, under the chiplet
   * contract, holds a message of exactly that length, and the published cells are
   * its Keccak-256 digest.
   */
  lemma Soundness(h: Height, f: Permutation, t: Table, rows: nat, messageLen: nat, public: seq<Cell>, edge: Edge)
    requires messageLen % LANE_BYTES == 0 && rows > InputRow(h, NumBlocks(messageLen))
    requires WellFormed(ProgramFor(h, rows, NumBlocks(messageLen), messageLen))
    requires Satisfies(ProgramFor(h, rows, NumBlocks(messageLen), messageLen), t, public, edge)
    requires Wide(t, WIDTH) && ChipletContract(h, f, ProgramFor(h, rows, NumBlocks(messageLen), messageLen), t)
    ensures |t| == rows && |ExtractedMessage(h, t, messageLen)| == messageLen
    ensures Keccak256(f, ExtractedMessage(h, t, messageLen)) == LanesToLe(public)
  {
    hide PadLane, FirstPadLane, ProgramFor, LanesFromLe, LanesToLe, Pad, AbsorbedLanes, InputRow;
    hide ChipletContract, BlocksPermute, CapacityIsChained, LastBlockIsPadded, GatesAreFixed;
    var n := NumBlocks(messageLen);
    CircuitMeaning(h, t, rows, n, messageLen, public, edge);
    ContractMeaning(h, f, t, rows, n, messageLen);
    OutputIsSpongeState(h, f, t, n, n - 1);
    AbsorbedIsPaddedMessage(h, t, messageLen);
    assert StateAt(t, OutputRow(h, n - 1))[..DIGEST_LANES] == public;
  }
}
