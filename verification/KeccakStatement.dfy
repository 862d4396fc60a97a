/** The Keccak statement of a message length: its row count, its capacity, and what its proofs mean. */
module KeccakStatement {
  import opened Bytes
  import opened Numbers
  import opened PowersOfTwo
  import opened Circuits
  import opened Errors
  import Cancellation
  import opened KeccakRows
  import opened KeccakSponge
  import opened KeccakCircuit
  import opened KeccakSoundness
  import opened KeccakTrace
  import opened KeccakCompleteness

  const DIGEST_BYTES: nat := 32

  /** The height of a block in the library, fixed by the published capacities. */
  const BLOCK_ROWS: Height := 25

  datatype Statement = Statement(program: Program, rows: nat)

  function NumRows(h: Height, messageLen: nat): (rows: nat)
    ensures rows >= MIN_ROWS
  {
    var rounded := NextPow2(InputRow(h, NumBlocks(messageLen)));
    if rounded < MIN_ROWS then MIN_ROWS else rounded
  }

  /** The blocks always fit, and the row count is a power of two. */
  lemma BlocksFitTheRows(h: Height, messageLen: nat)
    ensures InputRow(h, NumBlocks(messageLen)) <= NumRows(h, messageLen)
    ensures Pow2(Log2(NumRows(h, messageLen))) == NumRows(h, messageLen)
  {
    hide InputRow;
    var used := InputRow(h, NumBlocks(messageLen));
    NextPow2Least(used);
    NextPow2OfLog2(used);
    Pow2Values();
    Log2OfPow2(8);
  }

  /**
   * If the height of a block is no power of two, the blocks never fill the table: a
   * row is left after the last block, so the row that carries the last capacity
   * exists and no gated row is the last row.
   */
  lemma BlocksLeaveARow(h: Height, messageLen: nat)
    requires !IsPow2(h)
    ensures InputRow(h, NumBlocks(messageLen)) < NumRows(h, messageLen)
    ensures Pow2(Log2(NumRows(h, messageLen))) == NumRows(h, messageLen)
  {
    BlocksFitTheRows(h, messageLen);
    if NumRows(h, messageLen) == InputRow(h, NumBlocks(messageLen)) {
      FactorOfPow2(h, NumBlocks(messageLen), Log2(NumRows(h, messageLen)));
    }
  }

  /** A height that is a power of two fills a table: 256 blocks are a power of two rows. */
  lemma BlocksMayFill(h: Height)
    requires IsPow2(h)
    ensures NumBlocks(255 * RATE_BYTES) == 256
    ensures InputRow(h, 256) == NumRows(h, 255 * RATE_BYTES)
  {
    var j: nat :| h == Pow2(j);
    Pow2Eight();
    Pow2Product(j, 8, h, 256);
    RowsFit(h, 255 * RATE_BYTES, j + 8);
    Pow2Monotone(8, j + 8);
    BlocksFitTheRows(h, 255 * RATE_BYTES);
  }

  /** The exact condition on the height: a row is left for every message if and only if it is no power of two. */
  lemma RowIsLeftExactly(h: Height)
    ensures (forall messageLen: nat :: InputRow(h, NumBlocks(messageLen)) < NumRows(h, messageLen)) <==> !IsPow2(h)
  {
    hide InputRow, NumRows, IsPow2;
    if IsPow2(h) {
      BlocksMayFill(h);
      assert InputRow(h, NumBlocks(255 * RATE_BYTES)) == NumRows(h, 255 * RATE_BYTES);
    } else {
      forall messageLen: nat
        ensures InputRow(h, NumBlocks(messageLen)) < NumRows(h, messageLen)
      {
        BlocksLeaveARow(h, messageLen);
      }
    }
  }

  lemma LibraryHeight()
    ensures !IsPow2(BLOCK_ROWS)
  {
    OddIsNoPow2(BLOCK_ROWS);
  }

  /** A message of rows fits 2^k rows when its blocks do and k is at least the minimum. */
  lemma RowsFit(h: Height, messageLen: nat, k: nat)
    ensures NumRows(h, messageLen) <= Pow2(k) <==> 8 <= k && InputRow(h, NumBlocks(messageLen)) <= Pow2(k)
  {
    NextPow2Fits(InputRow(h, NumBlocks(messageLen)), k);
    Pow2Values();
    if k < 8 {
      Pow2Strict(k, 8);
    } else {
      Pow2Monotone(8, k);
    }
  }

  /** No 64-bit length overflows the row count. */
  lemma RowCountFitsAWord(messageLen: nat)
    requires messageLen < WORD_LIMIT
    ensures BLOCK_ROWS * NumBlocks(messageLen) < WORD_LIMIT && NumRows(BLOCK_ROWS, messageLen) < WORD_LIMIT
  {
    Pow2Values();
    RowsFit(BLOCK_ROWS, messageLen, 62);
  }

  /** The longest message the table of 2^logRows rows holds, or zero when a checked step fails. */
  function Capacity(logRows: nat): nat
  {
    if logRows >= 64 then 0
    else
      var bytes := Pow2(logRows) / BLOCK_ROWS * RATE_BYTES;
      if bytes >= WORD_LIMIT || bytes < LANE_BYTES then 0 else bytes - LANE_BYTES
  }

  ghost predicate IsThreshold(logRows: nat, capacity: nat) {
    forall messageLen: nat :: messageLen % LANE_BYTES == 0 && messageLen < WORD_LIMIT ==>
      (NumRows(BLOCK_ROWS, messageLen) <= Pow2(logRows) <==> messageLen <= capacity)
  }

  /** With p rows, p / 25 whole blocks fit, and the last of them keeps one lane for the padding. */
  lemma BlocksFit(p: nat, messageLen: nat)
    requires p >= BLOCK_ROWS && messageLen % LANE_BYTES == 0
    ensures BLOCK_ROWS * NumBlocks(messageLen) <= p <==> messageLen <= p / BLOCK_ROWS * RATE_BYTES - LANE_BYTES
  {
    var blocks := p / BLOCK_ROWS;
    assert BLOCK_ROWS * NumBlocks(messageLen) <= p <==> NumBlocks(messageLen) <= blocks;
    assert NumBlocks(messageLen) <= blocks <==> messageLen < blocks * RATE_BYTES;
  }

  /** One lane less than q whole blocks still takes q blocks, the padding included. */
  lemma OneLaneLess(q: nat)
    requires q >= 1
    ensures NumBlocks(q * RATE_BYTES - LANE_BYTES) == q && (q * RATE_BYTES - LANE_BYTES) % LANE_BYTES == 0
  {
    assert q * RATE_BYTES - LANE_BYTES == RATE_BYTES * (q - 1) + (RATE_BYTES - LANE_BYTES);
  }

  lemma BlockBounds(p: nat)
    requires 256 <= p <= 0x2000_0000_0000_0000
    ensures 10 <= p / BLOCK_ROWS && p / BLOCK_ROWS * RATE_BYTES < WORD_LIMIT
  {}

  lemma CapacityInRange(logRows: nat)
    requires 8 <= logRows <= 61
    ensures Capacity(logRows) == Pow2(logRows) / BLOCK_ROWS * RATE_BYTES - LANE_BYTES
    ensures Capacity(logRows) % LANE_BYTES == 0 && Capacity(logRows) < WORD_LIMIT
    ensures NumBlocks(Capacity(logRows)) == Pow2(logRows) / BLOCK_ROWS
  {
    Pow2Values();
    Pow2Monotone(8, logRows);
    Pow2Monotone(logRows, 61);
    hide Pow2, NumBlocks;
    BlockBounds(Pow2(logRows));
    OneLaneLess(Pow2(logRows) / BLOCK_ROWS);
  }

  lemma CapacityOutOfRange(logRows: nat)
    requires logRows >= 62
    ensures Capacity(logRows) == 0
  {
    Pow2Values();
    Pow2Monotone(62, logRows);
    hide Pow2;
    assert Pow2(logRows) / BLOCK_ROWS >= 0x4000_0000_0000_0000 / BLOCK_ROWS;
  }

  /** The capacity is the exact threshold of its row count for these exponents and no others. */
  lemma CapacityIsThreshold(logRows: nat)
    ensures IsThreshold(logRows, Capacity(logRows)) <==> 8 <= logRows <= 61
    ensures NumRows(BLOCK_ROWS, Capacity(logRows)) == Pow2(logRows) <==> 8 <= logRows <= 61
  {
    Pow2Values();
    hide Pow2, NumRows, NumBlocks, Capacity;
    if 8 <= logRows <= 61 {
      Pow2Monotone(8, logRows);
      CapacityInRange(logRows);
      forall messageLen: nat | messageLen % LANE_BYTES == 0
        ensures NumRows(BLOCK_ROWS, messageLen) <= Pow2(logRows) <==> messageLen <= Capacity(logRows)
      {
        RowsFit(BLOCK_ROWS, messageLen, logRows);
        BlocksFit(Pow2(logRows), messageLen);
      }
      CapacityFillsItsRows(logRows);
    } else if logRows < 8 {
      Pow2Strict(logRows, 8);
      assert NumRows(BLOCK_ROWS, 0) > Pow2(logRows);
    } else {
      Pow2Monotone(62, logRows);
      CapacityOutOfRange(logRows);
      SmallestStatement();
      assert NumRows(BLOCK_ROWS, LANE_BYTES) <= Pow2(logRows);
    }
  }

  lemma SmallestStatement()
    ensures NumRows(BLOCK_ROWS, 0) == NumRows(BLOCK_ROWS, LANE_BYTES) == MIN_ROWS
  {
    Pow2Values();
    RowsFit(BLOCK_ROWS, 0, 8);
    RowsFit(BLOCK_ROWS, LANE_BYTES, 8);
  }

  lemma CapacityFillsItsRows(logRows: nat)
    requires 8 <= logRows <= 61
    ensures NumRows(BLOCK_ROWS, Capacity(logRows)) == Pow2(logRows)
  {
    Pow2Values();
    hide NumRows, NumBlocks, Capacity;
    CapacityInRange(logRows);
    Pow2Monotone(8, logRows);
    RowsFit(BLOCK_ROWS, Capacity(logRows), logRows);
    if logRows > 8 {
      Pow2Monotone(8, logRows - 1);
      RowsFit(BLOCK_ROWS, Capacity(logRows), logRows - 1);
      assert Pow2(logRows) == 2 * Pow2(logRows - 1);
      assert BLOCK_ROWS * (Pow2(logRows) / BLOCK_ROWS) > Pow2(logRows) - BLOCK_ROWS;
      NumRowsIsPow2(BLOCK_ROWS, Capacity(logRows), logRows);
    }
  }

  lemma NumRowsIsPow2(h: Height, messageLen: nat, k: nat)
    requires k > 0 && Pow2(k - 1) < NumRows(h, messageLen) <= Pow2(k)
    ensures NumRows(h, messageLen) == Pow2(k)
  {
    BlocksFitTheRows(h, messageLen);
    var j := Log2(NumRows(h, messageLen));
    assert NumRows(h, messageLen) == Pow2(j);
    hide NumRows;
    if j < k {
      Pow2Monotone(j, k - 1);
    } else if j > k {
      Pow2Strict(k, j);
    }
  }

  function StatementFor(h: Height, messageLen: nat): Option<Statement>
  {
    if messageLen % LANE_BYTES != 0 then None
    else
      var rows := NumRows(h, messageLen);
      Some(Statement(ProgramFor(h, rows, NumBlocks(messageLen), messageLen), rows))
  }

  /** `builds` says whether the library builds the circuit; it is asked only for a valid length. */
  method NewStatement(h: Height, messageLen: nat, builds: bool) returns (r: Option<Statement>)
    ensures r == if builds then StatementFor(h, messageLen) else None
  {
    if messageLen % LANE_BYTES != 0 {
      return None;
    }
    if !builds {
      return None;
    }
    var rows := NumRows(h, messageLen);
    var program := BuildProgram(h, rows, NumBlocks(messageLen), messageLen);
    r := Some(Statement(program, rows));
  }

  /** What the prover hands to the proof system. */
  datatype Job = Job(statement: Statement, public: seq<Cell>, table: Table)

  /**
   * A prove call up to the proof system. A requested token stops it; else it refuses a
   * message off the lane grid, or all when the statement cannot be built, and no other.
   * Its table runs out of rows only for blocks that fill it, which those of the library
   * never do.
   */
  method Prove(h: Height, f: Permutation, message: seq<byte>, builds: bool, cancel: Option<Cancellation.CancelToken>)
    returns (r: Result<Job, ProveError>)
    ensures r == if Cancellation.IsRequested(cancel) then Err(ProveError.Cancelled)
                 else if |message| % LANE_BYTES != 0 || !builds then Err(ProveError.InvalidInput)
                 else if InputRow(h, NumBlocks(|message|)) == NumRows(h, |message|) then Err(Witness)
                 else (BlocksFitTheRows(h, |message|);
                       var calls, rows := SpongeCalls(f, message), NumRows(h, |message|);
                       Ok(Job(StatementFor(h, |message|).value, DigestLanes(calls), HostTable(h, calls, rows))))
  {
    var stop := Cancellation.EnsureNotCancelled(cancel);
    if stop.Some? {
      return Err(stop.value);
    }
    var statement := NewStatement(h, |message|, builds);
    if statement.None? {
      return Err(ProveError.InvalidInput);
    }
    hide InputRow, NumRows, HostTable, ProgramFor, PaddedLanes;
    BlocksFitTheRows(h, |message|);
    var calls := SpongeCalls(f, message);
    var trace := BuildTrace(h, calls, statement.value.rows);
    match trace
    case Some(table) => r := Ok(Job(statement.value, DigestLanes(calls), table));
    case None => r := Err(Witness);
  }

  /** The statement and public lanes a verifier rebuilds from a digest and a length. */
  function VerifierView(h: Height, digest: seq<byte>, messageLen: nat): Result<(Statement, seq<Cell>), VerifyError>
  {
    if |digest| != DIGEST_BYTES then Err(VerifyError.InvalidInput)
    else match StatementFor(h, messageLen)
         case Some(statement) => Ok((statement, LanesFromLe(digest)))
         case None => Err(VerifyError.InvalidInput)
  }

  /** Prover and verifier build the same statement and the same public lanes. */
  lemma VerifierRebuildsProverStatement(h: Height, f: Permutation, message: seq<byte>)
    requires |message| % LANE_BYTES == 0
    ensures VerifierView(h, Keccak256(f, message), |message|)
            == Ok((StatementFor(h, |message|).value, DigestLanes(SpongeCalls(f, message))))
  {
    hide LanesFromLe, LanesToLe, PaddedLanes, ProgramFor, NumRows;
    CallsChain(f, message, NumBlocks(|message|) - 1);
    LanesRoundTrip(DigestLanes(SpongeCalls(f, message)));
  }

  /** A table a proof system would accept for a digest and a length, under the chiplet contract. */
  ghost predicate Accepts(h: Height, f: Permutation, digest: seq<byte>, messageLen: nat, t: Table, edge: Edge)
  {
    match VerifierView(h, digest, messageLen)
    case Ok((statement, public)) =>
      && WellFormed(statement.program)
      && Satisfies(statement.program, t, public, edge)
      && Wide(t, |statement.program.columns|)
      && ChipletContract(h, f, statement.program, t)
    case Err(_) => false
  }

  lemma AcceptedTableHoldsPreimage(h: Height, f: Permutation, digest: seq<byte>, messageLen: nat, t: Table, edge: Edge)
    requires !IsPow2(h) && Accepts(h, f, digest, messageLen, t, edge)
    ensures messageLen % LANE_BYTES == 0 && |t| > InputRow(h, NumBlocks(messageLen)) && Wide(t, WIDTH)
    ensures |ExtractedMessage(h, t, messageLen)| == messageLen
    ensures Keccak256(f, ExtractedMessage(h, t, messageLen)) == digest
  {
    hide LanesFromLe, LanesToLe, PaddedLanes, NumRows, Satisfies, ExtractedMessage, Keccak256, InputRow;
    hide ChipletContract, IsPow2;
    BlocksLeaveARow(h, messageLen);
    Soundness(h, f, t, NumRows(h, messageLen), messageLen, LanesFromLe(digest), edge);
    LaneBytesRoundTrip(digest);
  }

  lemma HonestTableIsAccepted(h: Height, f: Permutation, message: seq<byte>, edge: Edge)
    requires !IsPow2(h) && |message| % LANE_BYTES == 0
    ensures InputRow(h, NumBlocks(|message|)) < NumRows(h, |message|)
    ensures var t := HostTable(h, SpongeCalls(f, message), NumRows(h, |message|));
            Accepts(h, f, Keccak256(f, message), |message|, t, edge)
  {
    hide LanesFromLe, LanesToLe, PaddedLanes, NumRows, ExtractedMessage, Keccak256, InputRow, ChipletContract;
    hide Satisfies, HostTable, IsPow2;
    BlocksLeaveARow(h, |message|);
    Completeness(h, f, message, NumRows(h, |message|), edge);
    VerifierRebuildsProverStatement(h, f, message);
  }

  /**
   * The meaning of the circuit: a digest and a length are provable exactly when
   * some message of that length, in whole lanes, has that Keccak-256 digest, for
   * blocks of any height that leaves a row after them.
   */
  lemma ProvableIffPreimageExists(h: Height, f: Permutation, digest: seq<byte>, messageLen: nat, edge: Edge)
    requires !IsPow2(h)
    ensures (exists t :: Accepts(h, f, digest, messageLen, t, edge))
            <==> messageLen % LANE_BYTES == 0
                 && exists message: seq<byte> :: |message| == messageLen && Keccak256(f, message) == digest
  {
    hide Accepts, ExtractedMessage, Keccak256, NumRows, InputRow, HostTable, IsPow2;
    if t :| Accepts(h, f, digest, messageLen, t, edge) {
      AcceptedTableHoldsPreimage(h, f, digest, messageLen, t, edge);
    }
    if message: seq<byte> :|
      messageLen % LANE_BYTES == 0 && |message| == messageLen && Keccak256(f, message) == digest
    {
      HonestTableIsAccepted(h, f, message, edge);
    }
  }

  lemma ByteOfLane(lanes: seq<Lane>, i: nat, j: nat)
    requires i < |lanes| && j < LANE_BYTES
    ensures LanesToLe(lanes)[LANE_BYTES * i + j] == LaneToLe(lanes[i])[j]
  {
    hide LaneToLe;
    var k := LANE_BYTES * i + j;
    assert k / LANE_BYTES == i && k % LANE_BYTES == j;
  }

  /** Writes the lanes of a digest out as bytes, lane by lane. */
  method DigestBytes(lanes: seq<Lane>) returns (out: array<byte>)
    requires |lanes| == DIGEST_LANES
    ensures fresh(out) && out[..] == LanesToLe(lanes)
    ensures forall i :: 0 <= i < DIGEST_LANES ==>
      LeValue(out[LANE_BYTES * i..LANE_BYTES * i + LANE_BYTES]) == LaneNat(lanes[i])
  {
    hide LaneToLe, LanesToLe, LeValue, LaneNat;
    ghost var bytes := LanesToLe(lanes);
    out := new byte[DIGEST_BYTES](_ => 0);
    for i := 0 to DIGEST_LANES
      invariant forall k :: 0 <= k < LANE_BYTES * i ==> out[k] == bytes[k]
    {
      var chunk := LaneToLe(lanes[i]);
      for j := 0 to LANE_BYTES
        invariant forall k :: 0 <= k < LANE_BYTES * i + j ==> out[k] == bytes[k]
      {
        ByteOfLane(lanes, i, j);
        out[LANE_BYTES * i + j] := chunk[j];
      }
    }
    assert out[..] == bytes;
    forall i | 0 <= i < DIGEST_LANES
      ensures LeValue(out[LANE_BYTES * i..LANE_BYTES * i + LANE_BYTES]) == LaneNat(lanes[i])
    {
      LaneBytesSpell(lanes, i);
      assert out[LANE_BYTES * i..LANE_BYTES * i + LANE_BYTES] == bytes[LANE_BYTES * i..LANE_BYTES * i + LANE_BYTES];
    }
  }

  /** The exported hash: the first lanes of the last call's output, as bytes. */
  method HashMessage(f: Permutation, message: seq<byte>) returns (digest: seq<byte>)
    ensures digest == Keccak256(f, message)
    ensures forall i :: 0 <= i < DIGEST_LANES ==>
      LeValue(digest[LANE_BYTES * i..LANE_BYTES * i + LANE_BYTES])
      == LaneNat(Absorbed(f, PaddedLanes(message), NumBlocks(|message|))[i])
  {
    hide LanesToLe, PaddedLanes, Absorbed, SpongeCalls, KeccakCompleteness.StateBefore, LeValue, LaneNat;
    var calls := SpongeCalls(f, message);
    CallsChain(f, message, |calls| - 1);
    var out := DigestBytes(DigestLanes(calls));
    digest := out[..];
    assert forall i :: 0 <= i < DIGEST_LANES ==>
      digest[LANE_BYTES * i..LANE_BYTES * i + LANE_BYTES] == out[LANE_BYTES * i..LANE_BYTES * i + LANE_BYTES];
  }
}
