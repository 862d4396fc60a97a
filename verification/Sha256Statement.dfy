/** The SHA-256 statement of a message length: its row count, its capacity, and what its proofs mean. */
module Sha256Statement {
  import opened Bytes
  import opened PowersOfTwo
  import opened Circuits
  import opened Errors
  import Cancellation
  import opened Sha256Hash
  import opened Sha256Circuit
  import opened Sha256Soundness
  import opened Sha256Trace
  import opened Sha256Completeness

  const MIN_ROWS: nat := 256

  datatype Statement = Statement(program: Program, rows: nat)

  function NumBlocks(messageLen: nat): (n: nat)
    ensures n >= 1
  {
    messageLen / BLOCK_BYTES + 1
  }

  function NumRows(messageLen: nat): (rows: nat)
    ensures rows >= MIN_ROWS
  {
    var rounded := NextPow2(NumBlocks(messageLen) * ROWS_PER_BLOCK);
    if rounded < MIN_ROWS then MIN_ROWS else rounded
  }

  /** The blocks fit the table, a power of two of rows, though they may fill it. */
  lemma BlocksFitTheRows(messageLen: nat)
    ensures ROWS_PER_BLOCK * NumBlocks(messageLen) <= NumRows(messageLen)
    ensures Pow2(Log2(NumRows(messageLen))) == NumRows(messageLen)
  {
    var used := NumBlocks(messageLen) * ROWS_PER_BLOCK;
    NextPow2Least(used);
    NextPow2OfLog2(used);
    Pow2Values();
    Log2OfPow2(8);
  }

  lemma RowsFit(messageLen: nat, k: nat)
    ensures NumRows(messageLen) <= Pow2(k) <==> 8 <= k && ROWS_PER_BLOCK * NumBlocks(messageLen) <= Pow2(k)
  {
    NextPow2Fits(NumBlocks(messageLen) * ROWS_PER_BLOCK, k);
    Pow2Values();
    if k < 8 {
      Pow2Strict(k, 8);
    } else {
      Pow2Monotone(8, k);
    }
  }

  /** No 64-bit length overflows the row count. */
  lemma RowCountFitsAWord(messageLen: nat)
    requires messageLen < WORD_LIMIT
    ensures NumBlocks(messageLen) * ROWS_PER_BLOCK < WORD_LIMIT && NumRows(messageLen) < WORD_LIMIT
  {
    Pow2Values();
    RowsFit(messageLen, 62);
  }

  /** The longest message the table of 2^logRows rows holds, or zero when a checked step fails. */
  function Capacity(logRows: nat): nat
  {
    if logRows >= 64 then 0
    else
      var blocks := Pow2(logRows) / ROWS_PER_BLOCK;
      if blocks < 1 || (blocks - 1) * BLOCK_BYTES >= WORD_LIMIT then 0 else (blocks - 1) * BLOCK_BYTES
  }

  ghost predicate IsThreshold(logRows: nat, capacity: nat) {
    forall messageLen: nat :: messageLen % BLOCK_BYTES == 0 && messageLen < WORD_LIMIT ==>
      (NumRows(messageLen) <= Pow2(logRows) <==> messageLen <= capacity)
  }

  lemma OneBlockLess(q: nat)
    requires 1 <= q <= 0x0400_0000_0000_0000
    ensures NumBlocks((q - 1) * BLOCK_BYTES) == q && (q - 1) * BLOCK_BYTES < WORD_LIMIT
    ensures (q - 1) * BLOCK_BYTES % BLOCK_BYTES == 0
  {}

  lemma FourFewerBits(k: nat)
    requires k >= 4
    ensures Pow2(k) == ROWS_PER_BLOCK * Pow2(k - 4)
  {
    Pow2Add(4, k - 4);
    assert Pow2(4) == 16;
  }

  lemma CapacityInRange(logRows: nat)
    requires 8 <= logRows <= 62
    ensures Capacity(logRows) == (Pow2(logRows) / ROWS_PER_BLOCK - 1) * BLOCK_BYTES
    ensures Capacity(logRows) % BLOCK_BYTES == 0
    ensures ROWS_PER_BLOCK * NumBlocks(Capacity(logRows)) == Pow2(logRows)
  {
    Pow2Values();
    Pow2Monotone(8, logRows);
    Pow2Monotone(logRows, 62);
    hide Pow2, NumBlocks;
    FourFewerBits(logRows);
    assert Pow2(logRows) / ROWS_PER_BLOCK == Pow2(logRows - 4);
    OneBlockLess(Pow2(logRows - 4));
  }

  lemma CapacityOutOfRange(logRows: nat)
    requires logRows >= 63
    ensures Capacity(logRows) == 0
  {
    Pow2Values();
    Pow2Monotone(63, logRows);
    hide Pow2;
    assert Pow2(logRows) / ROWS_PER_BLOCK >= 0x0800_0000_0000_0000;
  }

  /** The capacity is the exact threshold of its row count for these exponents and no others. */
  lemma CapacityIsThreshold(logRows: nat)
    ensures IsThreshold(logRows, Capacity(logRows)) <==> 8 <= logRows <= 62
    ensures NumRows(Capacity(logRows)) == Pow2(logRows) <==> 8 <= logRows <= 62
  {
    Pow2Values();
    hide Pow2, NumRows, Capacity;
    if 8 <= logRows <= 62 {
      Pow2Monotone(8, logRows);
      CapacityInRange(logRows);
      forall messageLen: nat | messageLen % BLOCK_BYTES == 0
        ensures NumRows(messageLen) <= Pow2(logRows) <==> messageLen <= Capacity(logRows)
      {
        RowsFit(messageLen, logRows);
      }
      CapacityFillsItsRows(logRows);
    } else if logRows < 8 {
      Pow2Strict(logRows, 8);
      assert NumRows(0) > Pow2(logRows);
    } else {
      Pow2Monotone(63, logRows);
      CapacityOutOfRange(logRows);
      SmallestStatement();
      assert NumRows(BLOCK_BYTES) <= Pow2(logRows);
    }
  }

  lemma SmallestStatement()
    ensures NumRows(0) == NumRows(BLOCK_BYTES) == MIN_ROWS
  {
    Pow2Values();
    RowsFit(0, 8);
    RowsFit(BLOCK_BYTES, 8);
  }

  lemma CapacityFillsItsRows(logRows: nat)
    requires 8 <= logRows <= 62
    ensures NumRows(Capacity(logRows)) == Pow2(logRows)
  {
    CapacityInRange(logRows);
    RowsFit(Capacity(logRows), logRows);
    BlocksFitTheRows(Capacity(logRows));
  }

  function StatementFor(messageLen: nat): Option<Statement>
  {
    if messageLen % BLOCK_BYTES != 0 then None
    else Some(Statement(ProgramFor(NumRows(messageLen), NumBlocks(messageLen), messageLen), NumRows(messageLen)))
  }

  /** `builds` says whether the library builds the chiplet and the circuit; it is asked only for a valid length. */
  method NewStatement(messageLen: nat, builds: bool) returns (r: Option<Statement>)
    ensures r == if builds then StatementFor(messageLen) else None
  {
    if messageLen % BLOCK_BYTES != 0 {
      return None;
    }
    if !builds {
      return None;
    }
    var rows := NumRows(messageLen);
    var program := BuildProgram(rows, NumBlocks(messageLen), messageLen);
    r := Some(Statement(program, rows));
  }

  /** What the prover hands to the proof system. */
  datatype Job = Job(statement: Statement, public: seq<Cell>, table: Table)

  function MessageCalls(compress: Compression, message: seq<byte>): (calls: seq<Call>)
    ensures |calls| == PaddedBlocks(|message|)
  {
    Calls(compress, PaddedWords(message), PaddedBlocks(|message|))
  }

  /**
   * A prove call up to the proof system. A requested token stops it; else it refuses a
   * message off the block grid, or all when the statement cannot be built, and no other, and
   * its table never runs out of rows.
   */
  method Prove(compress: Compression, message: seq<byte>, builds: bool, cancel: Option<Cancellation.CancelToken>)
    returns (r: Result<Job, ProveError>)
    ensures r == if Cancellation.IsRequested(cancel) then Err(ProveError.Cancelled)
                 else if |message| % BLOCK_BYTES != 0 || !builds then Err(ProveError.InvalidInput)
                 else (var calls := MessageCalls(compress, message);
                       Ok(Job(StatementFor(|message|).value, DigestCells(compress, calls),
                              HostTable(compress, calls, NumRows(|message|)))))
  {
    var stop := Cancellation.EnsureNotCancelled(cancel);
    if stop.Some? {
      return Err(stop.value);
    }
    var statement := NewStatement(|message|, builds);
    if statement.None? {
      return Err(ProveError.InvalidInput);
    }
    BlocksFitTheRows(|message|);
    var calls := Sha256Calls(compress, message);
    assert |calls| == NumBlocks(|message|);
    var trace := BuildTrace(compress, calls, statement.value.rows);
    match trace
    case Some(table) => r := Ok(Job(statement.value, DigestCells(compress, calls), table));
    case None => r := Err(Witness);
  }

  /** The statement and public words a verifier rebuilds from a digest and a length. */
  function VerifierView(digest: seq<byte>, messageLen: nat): Result<(Statement, seq<Cell>), VerifyError>
  {
    if |digest| != DIGEST_BYTES then Err(VerifyError.InvalidInput)
    else
      var public := EmbedAll(WordsFromBe(digest));
      match StatementFor(messageLen)
      case Some(statement) => Ok((statement, public))
      case None => Err(VerifyError.InvalidInput)
  }

  /** Prover and verifier build the same statement and the same public words. */
  lemma VerifierRebuildsProverStatement(compress: Compression, message: seq<byte>)
    requires |message| % BLOCK_BYTES == 0
    ensures VerifierView(Sha256(compress, message), |message|)
            == Ok((StatementFor(|message|).value, DigestCells(compress, MessageCalls(compress, message))))
  {
    hide WordsFromBe, WordsToBe, EmbedAll, PaddedWords, ProgramFor, NumRows;
    var calls := MessageCalls(compress, message);
    WordsRoundTrip(compress(calls[|calls| - 1].hIn, calls[|calls| - 1].block));
  }

  /** A table a proof system would accept for a digest and a length, under the chiplet contract. */
  ghost predicate Accepts(compress: Compression, digest: seq<byte>, messageLen: nat, t: Table, edge: Edge)
  {
    match VerifierView(digest, messageLen)
    case Ok((statement, public)) =>
      && WellFormed(statement.program)
      && Satisfies(statement.program, t, public, edge)
      && Wide(t, |statement.program.columns|)
      && ChipletContract(compress, statement.program, t)
    case Err(_) => false
  }

  lemma AcceptedTableHoldsPreimage(compress: Compression, digest: seq<byte>, messageLen: nat, t: Table, edge: Edge)
    requires Accepts(compress, digest, messageLen, t, edge)
    ensures messageLen % BLOCK_BYTES == 0 && |t| >= ROWS_PER_BLOCK * NumBlocks(messageLen) && Wide(t, WIDTH)
    ensures |ExtractedMessage(t, messageLen)| == messageLen
    ensures Sha256(compress, ExtractedMessage(t, messageLen)) == digest
  {
    hide WordsFromBe, WordsToBe, EmbedAll, WordsOf, PaddedWords, NumRows, Satisfies;
    hide ExtractedMessage, Sha256, ChipletContract, Iv, PaddingBlock;
    BlocksFitTheRows(messageLen);
    assert PaddedBlocks(messageLen) == NumBlocks(messageLen);
    Soundness(compress, t, NumRows(messageLen), messageLen, EmbedAll(WordsFromBe(digest)), edge);
    WordsOfEmbedAll(WordsFromBe(digest));
    WordBytesRoundTrip(digest);
  }

  lemma HonestTableIsAccepted(compress: Compression, message: seq<byte>, edge: Edge)
    requires |message| % BLOCK_BYTES == 0
    ensures Accepts(compress, Sha256(compress, message), |message|,
                    HostTable(compress, MessageCalls(compress, message), NumRows(|message|)), edge)
  {
    hide WordsFromBe, WordsToBe, EmbedAll, WordsOf, PaddedWords, ProgramFor, NumRows, ExtractedMessage, Sha256;
    BlocksFitTheRows(|message|);
    assert PaddedBlocks(|message|) == NumBlocks(|message|);
    Completeness(compress, message, NumRows(|message|), edge);
    VerifierRebuildsProverStatement(compress, message);
  }

  /**
   * The meaning of the circuit: a digest and a length are provable exactly when
   * some message of that length, in whole blocks, has that SHA-256 digest.
   */
  lemma ProvableIffPreimageExists(compress: Compression, digest: seq<byte>, messageLen: nat, edge: Edge)
    ensures (exists t :: Accepts(compress, digest, messageLen, t, edge))
            <==> messageLen % BLOCK_BYTES == 0
                 && exists message: seq<byte> :: |message| == messageLen && Sha256(compress, message) == digest
  {
    hide Accepts, ExtractedMessage, Sha256, NumRows;
    if t :| Accepts(compress, digest, messageLen, t, edge) {
      AcceptedTableHoldsPreimage(compress, digest, messageLen, t, edge);
    }
    if message: seq<byte> :|
      messageLen % BLOCK_BYTES == 0 && |message| == messageLen && Sha256(compress, message) == digest
    {
      HonestTableIsAccepted(compress, message, edge);
    }
  }
}
