/** The table the Keccak prover writes satisfies the circuit, and gives the message back. */
module KeccakCompleteness {
  import opened Bytes
  import opened Circuits
  import opened KeccakRows
  import opened KeccakSponge
  import opened KeccakCircuit
  import opened KeccakSoundness
  import opened KeccakTrace

  /** The first four lanes of the last output. */
  function DigestLanes(calls: seq<Call>): (lanes: seq<Lane>)
    requires |calls| > 0
    ensures |lanes| == DIGEST_LANES
  {
    calls[|calls| - 1].output[..DIGEST_LANES]
  }

  /** Calls chain: the state before block b is the output of the call before it. */
  function StateBefore(calls: seq<Call>, b: nat): State
    requires b <= |calls|
  {
    if b == 0 then ZeroState() else calls[b - 1].output
  }

  lemma CallsChain(f: Permutation, message: seq<byte>, b: nat)
    requires b < NumBlocks(|message|)
    ensures StateBefore(SpongeCalls(f, message), b) == Absorbed(f, PaddedLanes(message), b)
    ensures SpongeCalls(f, message)[b].output == Absorbed(f, PaddedLanes(message), b + 1)
    ensures SpongeCalls(f, message)[b].output == f(SpongeCalls(f, message)[b].input)
    ensures forall i :: RATE_LANES <= i < STATE_LANES ==>
      SpongeCalls(f, message)[b].input[i] == StateBefore(SpongeCalls(f, message), b)[i]
    ensures forall i :: 0 <= i < RATE_LANES ==>
      SpongeCalls(f, message)[b].input[i]
      == Xor(StateBefore(SpongeCalls(f, message), b)[i], PaddedLanes(message)[RATE_LANES * b + i])
  {
    hide PaddedLanes, Xor;
    var lanes := PaddedLanes(message);
    assert forall i :: 0 <= i < RATE_LANES ==> Block(lanes, b)[i] == lanes[RATE_LANES * b + i];
  }

  lemma BlockRowCells(h: Height, call: Call, offset: nat)
    requires offset < h
    ensures var row := BlockRow(h, call, offset);
            && row[SELECTOR] == Flag(offset == 0 || offset == h - 1)
            && row[OUT_GATE] == Flag(offset == h - 1)
            && row[PAD_SEAM] == 0
            && (offset == 0 ==> row[..STATE_LANES] == call.input)
            && (offset == h - 1 ==> row[..STATE_LANES] == call.output)
  {}

  lemma CapacityRowCells(output: State)
    ensures var row := CapacityRow(output);
            && row[SELECTOR] == 0 && row[OUT_GATE] == 0 && row[PAD_SEAM] == 0
            && row[RATE_LANES..STATE_LANES] == output[RATE_LANES..]
  {}

  /** Row r has the gates of its place, the lanes of its call, and after the last block the last capacity. */
  predicate HoldsCalls(h: Height, calls: seq<Call>, r: nat, row: Row)
    requires 0 < |calls|
  {
    var n := |calls|;
    && |row| == WIDTH
    && row[SELECTOR] == Flag(IsServiceRow(h, n, r))
    && row[OUT_GATE] == Flag(IsOutputRow(h, n, r))
    && (IsServiceRow(h, n, r) ==>
          (RowsBefore(h, r, n);
           row[..STATE_LANES] == if IsOutputRow(h, n, r) then calls[r / h].output else calls[r / h].input))
    && (r == InputRow(h, n) ==> row[RATE_LANES..STATE_LANES] == calls[n - 1].output[RATE_LANES..])
  }

  /** A row before the seam is marked. */
  lemma CarriedRow(h: Height, calls: seq<Call>, rows: nat, r: nat)
    requires 0 < |calls| && InputRow(h, |calls|) < rows && r < rows
    ensures var row := WithCapacity(h, BlocksTable(h, calls, |calls|, rows), calls)[r];
            HoldsCalls(h, calls, r, row) && row[PAD_SEAM] == 0
  {
    hide BlockRow, CapacityRow, InputRow;
    var n := |calls|;
    RowsBefore(h, r, n);
    if r < InputRow(h, n) {
      BlockOfRow(h, r);
      BlockRowCells(h, calls[r / h], r % h);
    } else if r == InputRow(h, n) {
      CapacityRowCells(calls[n - 1].output);
    }
  }

  lemma HostRow(h: Height, calls: seq<Call>, rows: nat, r: nat)
    requires 0 < |calls| && InputRow(h, |calls|) < rows && r < rows
    ensures HoldsCalls(h, calls, r, HostTable(h, calls, rows)[r])
    ensures HostTable(h, calls, rows)[r][PAD_SEAM] == Flag(IsSeamRow(h, |calls|, r))
  {
    hide InputRow, BlocksTable, CapacityRow, IsServiceRow, IsOutputRow;
    var n := |calls|;
    var carried := WithCapacity(h, BlocksTable(h, calls, n, rows), calls);
    CarriedRow(h, calls, rows, r);
    assert HostTable(h, calls, rows)[r] == if IsSeamRow(h, n, r) then carried[r][PAD_SEAM := 1] else carried[r];
    assert carried[r][PAD_SEAM := 1][..STATE_LANES] == carried[r][..STATE_LANES];
    assert carried[r][PAD_SEAM := 1][RATE_LANES..STATE_LANES] == carried[r][RATE_LANES..STATE_LANES];
  }

  lemma HostTableIsShaped(h: Height, calls: seq<Call>, rows: nat)
    requires 0 < |calls| && InputRow(h, |calls|) < rows
    ensures Shaped(HostTable(h, calls, rows), rows, Layout())
    ensures GatesAreFixed(h, HostTable(h, calls, rows), |calls|)
  {
    hide HostTable, IsServiceRow, IsOutputRow, IsSeamRow, InputRow;
    var t := HostTable(h, calls, rows);
    forall r | 0 <= r < rows
      ensures |t[r]| == WIDTH
      ensures t[r][SELECTOR] == Flag(IsServiceRow(h, |calls|, r))
      ensures t[r][OUT_GATE] == Flag(IsOutputRow(h, |calls|, r))
      ensures t[r][PAD_SEAM] == Flag(IsSeamRow(h, |calls|, r))
    {
      HostRow(h, calls, rows, r);
    }
  }

  lemma ServiceRows(h: Height, calls: seq<Call>, rows: nat, b: nat)
    requires b < |calls| && InputRow(h, |calls|) < rows
    requires Wide(HostTable(h, calls, rows), WIDTH)
    ensures InputRow(h, b) < OutputRow(h, b) < rows
    ensures StateAt(HostTable(h, calls, rows), InputRow(h, b)) == calls[b].input
    ensures StateAt(HostTable(h, calls, rows), OutputRow(h, b)) == calls[b].output
  {
    hide HostTable, InputRow, IsServiceRow, IsOutputRow;
    BlockFits(h, b, |calls|);
    ServiceRowsOfBlock(h, |calls|, b);
    HostRow(h, calls, rows, InputRow(h, b));
    HostRow(h, calls, rows, OutputRow(h, b));
  }

  /** The cells of the lanes of a service row, one lane at a time. */
  lemma StateCells(h: Height, calls: seq<Call>, rows: nat, b: nat, i: nat)
    requires b < |calls| && InputRow(h, |calls|) < rows && i < STATE_LANES
    requires Wide(HostTable(h, calls, rows), WIDTH)
    ensures InputRow(h, b) < OutputRow(h, b) < rows
    ensures HostTable(h, calls, rows)[InputRow(h, b)][i] == calls[b].input[i]
    ensures HostTable(h, calls, rows)[OutputRow(h, b)][i] == calls[b].output[i]
    ensures b > 0 ==> HostTable(h, calls, rows)[InputRow(h, b) - 1][i] == StateBefore(calls, b)[i]
  {
    hide HostTable, InputRow;
    ServiceRows(h, calls, rows, b);
    assert StateAt(HostTable(h, calls, rows), InputRow(h, b))[i] == calls[b].input[i];
    assert StateAt(HostTable(h, calls, rows), OutputRow(h, b))[i] == calls[b].output[i];
    if b > 0 {
      NextBlock(h, b - 1);
      ServiceRows(h, calls, rows, b - 1);
      assert StateAt(HostTable(h, calls, rows), OutputRow(h, b - 1))[i] == calls[b - 1].output[i];
    }
  }

  lemma AbsorbedLanesOfHostTable(h: Height, f: Permutation, message: seq<byte>, rows: nat)
    requires rows > InputRow(h, NumBlocks(|message|))
    requires Wide(HostTable(h, SpongeCalls(f, message), rows), WIDTH)
    ensures AbsorbedLanes(h, HostTable(h, SpongeCalls(f, message), rows), NumBlocks(|message|)) == PaddedLanes(message)
  {
    hide HostTable, PaddedLanes, SpongeCalls, Absorbed, StateBefore, Xor, InputRow, AbsorbedLane;
    var n, calls, lanes := NumBlocks(|message|), SpongeCalls(f, message), PaddedLanes(message);
    var t := HostTable(h, calls, rows);
    forall k | 0 <= k < RATE_LANES * n
      ensures AbsorbedLanes(h, t, n)[k] == lanes[k]
    {
      var b, i := k / RATE_LANES, k % RATE_LANES;
      StateCells(h, calls, rows, b, i);
      CallsChain(f, message, b);
      AbsorbedLaneCancels(h, t, calls, b, i, lanes[k]);
    }
  }

  lemma AbsorbedLaneCancels(h: Height, t: Table, calls: seq<Call>, b: nat, i: nat, lane: Lane)
    requires b < |calls| && i < RATE_LANES && InputRow(h, b) < |t| && Wide(t, WIDTH)
    requires t[InputRow(h, b)][i] == Xor(StateBefore(calls, b)[i], lane)
    requires b > 0 ==> t[InputRow(h, b) - 1][i] == StateBefore(calls, b)[i]
    ensures AbsorbedLane(h, t, b, i) == lane
  {
    hide Xor, InputRow;
    FirstBlock(h);
    XorCancels(StateBefore(calls, b)[i], lane);
    XorCancels(lane, StateBefore(calls, b)[i]);
  }

  lemma HostTableCarries(h: Height, f: Permutation, message: seq<byte>, rows: nat)
    requires rows > InputRow(h, NumBlocks(|message|))
    requires Wide(HostTable(h, SpongeCalls(f, message), rows), WIDTH)
    ensures CapacityIsChained(h, HostTable(h, SpongeCalls(f, message), rows), NumBlocks(|message|))
  {
    hide HostTable, PaddedLanes, SpongeCalls, Absorbed, Xor, InputRow;
    FirstBlock(h);
    var n, calls := NumBlocks(|message|), SpongeCalls(f, message);
    var t := HostTable(h, calls, rows);
    forall i | RATE_LANES <= i < STATE_LANES
      ensures t[0][i] == 0
    {
      StateCells(h, calls, rows, 0, i);
      CallsChain(f, message, 0);
    }
    forall b, i | 0 <= b < n && RATE_LANES <= i < STATE_LANES
      ensures OutputRow(h, b) + 1 < |t| && t[OutputRow(h, b) + 1][i] == t[OutputRow(h, b)][i]
    {
      BlockFits(h, b, n);
      StateCells(h, calls, rows, b, i);
      if b + 1 < n {
        StateCells(h, calls, rows, b + 1, i);
        CallsChain(f, message, b + 1);
      } else {
        HostRow(h, calls, rows, InputRow(h, n));
        assert t[InputRow(h, n)][i] == t[InputRow(h, n)][RATE_LANES..STATE_LANES][i - RATE_LANES];
      }
    }
  }

  lemma HostTableIsPadded(h: Height, t: Table, message: seq<byte>)
    requires |message| % LANE_BYTES == 0 && |t| > InputRow(h, NumBlocks(|message|)) && Wide(t, WIDTH)
    requires AbsorbedLanes(h, t, NumBlocks(|message|)) == PaddedLanes(message)
    ensures LastBlockIsPadded(h, t, NumBlocks(|message|), |message|)
    ensures ExtractedMessage(h, t, |message|) == message
  {
    hide PaddedLanes, PadLane, AbsorbedLane, LanesFromLe, LanesToLe, InputRow;
    var n, first := NumBlocks(|message|), FirstPadLane(|message|);
    var lanes := AbsorbedLanes(h, t, n);
    PaddingRefinesBytes(message);
    BlockFits(h, n - 1, n);
    forall i | first <= i < RATE_LANES
      ensures AbsorbedLane(h, t, n - 1, i) == PadLane(|message|, i)
    {
      var k := RATE_LANES * (n - 1) + i;
      assert k / RATE_LANES == n - 1 && k % RATE_LANES == i;
      assert lanes[k] == AbsorbedLane(h, t, n - 1, i);
      assert lanes[k] == PadLanes(|message|)[i - first];
    }
    assert lanes[..|message| / LANE_BYTES] == LanesFromLe(message);
    LaneBytesRoundTrip(message);
  }

  /**
   * Completeness: for every message of whole lanes the written table satisfies the
   * circuit of its length under its own digest, meets the chiplet contract, and
   * extraction gives the message back.
   */
  lemma Completeness(h: Height, f: Permutation, message: seq<byte>, rows: nat, edge: Edge)
    requires |message| % LANE_BYTES == 0 && rows > InputRow(h, NumBlocks(|message|))
    ensures var n, calls := NumBlocks(|message|), SpongeCalls(f, message);
            var t, p := HostTable(h, calls, rows), ProgramFor(h, rows, n, |message|);
            && WellFormed(p) && Satisfies(p, t, DigestLanes(calls), edge)
            && Wide(t, |p.columns|) && ChipletContract(h, f, p, t)
            && ExtractedMessage(h, t, |message|) == message
            && LanesToLe(DigestLanes(calls)) == Keccak256(f, message)
  {
    hide HostTable, PaddedLanes, ProgramFor, PadLane, LanesToLe, AbsorbedLanes, Absorbed, InputRow, GatesAreFixed;
    hide SpongeCalls, CapacityIsChained, LastBlockIsPadded, ExtractedMessage, ChipletContract;
    var n, calls := NumBlocks(|message|), SpongeCalls(f, message);
    var t := HostTable(h, calls, rows);
    HostTableIsShaped(h, calls, rows);
    AbsorbedLanesOfHostTable(h, f, message, rows);
    HostTableCarries(h, f, message, rows);
    HostTableIsPadded(h, t, message);
    ServiceRows(h, calls, rows, n - 1);
    CallsChain(f, message, n - 1);
    assert t[OutputRow(h, n - 1)][..DIGEST_LANES] == StateAt(t, OutputRow(h, n - 1))[..DIGEST_LANES];
    CircuitMeaning(h, t, rows, n, |message|, DigestLanes(calls), edge);
    HostTablePermutes(h, f, message, rows);
    ContractMeaning(h, f, t, rows, n, |message|);
  }

  lemma HostTablePermutes(h: Height, f: Permutation, message: seq<byte>, rows: nat)
    requires rows > InputRow(h, NumBlocks(|message|))
    requires Wide(HostTable(h, SpongeCalls(f, message), rows), WIDTH)
    ensures BlocksPermute(h, f, HostTable(h, SpongeCalls(f, message), rows), NumBlocks(|message|))
  {
    hide HostTable, PaddedLanes, SpongeCalls, Absorbed, InputRow, StateAt, StateBefore;
    var n, calls := NumBlocks(|message|), SpongeCalls(f, message);
    var t := HostTable(h, calls, rows);
    forall b | 0 <= b < n
      ensures OutputRow(h, b) < |t| && InputRow(h, b) < |t|
      ensures StateAt(t, OutputRow(h, b)) == f(StateAt(t, InputRow(h, b)))
    {
      ServiceRows(h, calls, rows, b);
      CallsChain(f, message, b);
    }
  }
}
