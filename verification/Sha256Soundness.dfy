/** Every table that satisfies the SHA-256 circuit holds a message that hashes to the published digest. */
module Sha256Soundness {
  import opened Bytes
  import opened Circuits
  import opened Sha256Hash
  import opened Sha256Circuit

  /** The first words a service passes are a hash value, the next a block, the last the hash value after it. */
  predicate PassesCompression(compress: Compression, cells: seq<Cell>)
    requires |cells| == BLOCK_COLUMNS
  {
    WordsOf(cells[H_OUT..]) == compress(WordsOf(cells[H_IN..MSG]), WordsOf(cells[MSG..H_OUT]))
  }

  /**
   * What a mounted compression chiplet guarantees, and the only thing trusted about
   * it: on each row its service marks, up to the rows of the blocks it was mounted
   * for, what the service passes is a hash value, a block and their compression.
   */
  ghost predicate ChipletContract(compress: Compression, p: Program, t: Table)
    requires WellFormed(p) && Wide(t, |p.columns|)
  {
    forall i, j, r ::
      && 0 <= i < |p.services| && 0 <= j < |p.chiplets| && |p.services[i].columns| == BLOCK_COLUMNS
      && 0 <= r < |t| && r < ROWS_PER_BLOCK * p.chiplets[j].blocks && t[r][p.services[i].selector] == 1 ==>
        PassesCompression(compress, ServiceCells(p.services[i], t[r]))
  }

  /** Every active row is compressed. */
  ghost predicate ActiveRowsCompress(compress: Compression, t: Table)
    requires Wide(t, WIDTH)
  {
    forall r :: 0 <= r < |t| && t[r][ACTIVE] == 1 ==>
      WordsOf(OutCells(t[r])) == compress(WordsOf(InCells(t[r])), WordsOf(MsgCells(t[r])))
  }

  lemma BlockServiceCells(compress: Compression, row: Row)
    requires |row| == WIDTH
    ensures ServiceIn(BlockService(), WIDTH)
    ensures PassesCompression(compress, ServiceCells(BlockService(), row))
            <==> WordsOf(OutCells(row)) == compress(WordsOf(InCells(row)), WordsOf(MsgCells(row)))
  {
    hide WordsOf;
    var cells := ServiceCells(BlockService(), row);
    assert cells[H_IN..MSG] == InCells(row) && cells[MSG..H_OUT] == MsgCells(row) && cells[H_OUT..] == OutCells(row);
  }

  /** For the circuit's own service and chiplet the contract speaks of every active row. */
  lemma ContractMeaning(compress: Compression, t: Table, rows: nat, numBlocks: nat, messageLen: nat)
    requires numBlocks > 0 && Wide(t, WIDTH) && GatesAreFixed(t, numBlocks)
    requires WellFormed(ProgramFor(rows, numBlocks, messageLen))
    ensures ChipletContract(compress, ProgramFor(rows, numBlocks, messageLen), t) <==> ActiveRowsCompress(compress, t)
  {
    hide PassesCompression, ServiceCells, WordsOf, InCells, MsgCells, OutCells;
    var p := ProgramFor(rows, numBlocks, messageLen);
    assert p.services == [BlockService()] && p.chiplets == [Chiplet(rows, numBlocks)];
    forall r | 0 <= r < |t|
      ensures PassesCompression(compress, ServiceCells(BlockService(), t[r]))
              <==> WordsOf(OutCells(t[r])) == compress(WordsOf(InCells(t[r])), WordsOf(MsgCells(t[r])))
    {
      BlockServiceCells(compress, t[r]);
    }
    if ChipletContract(compress, p, t) {
      forall r | 0 <= r < |t| && t[r][ACTIVE] == 1
        ensures PassesCompression(compress, ServiceCells(BlockService(), t[r]))
      {
        assert r < ROWS_PER_BLOCK * p.chiplets[0].blocks && t[r][p.services[0].selector] == 1;
      }
    }
  }

  function HashedWord(t: Table, k: nat): Word
    requires Wide(t, WIDTH) && FirstRow(k / BLOCK_WORDS) < |t|
  {
    WordOf(MsgCells(t[FirstRow(k / BLOCK_WORDS)])[k % BLOCK_WORDS])
  }

  /** All the words a table hashes, block after block. */
  function HashedWords(t: Table, numBlocks: nat): (words: seq<Word>)
    requires |t| >= ROWS_PER_BLOCK * numBlocks && Wide(t, WIDTH)
    ensures |words| == BLOCK_WORDS * numBlocks
  {
    seq(BLOCK_WORDS * numBlocks, k requires 0 <= k < BLOCK_WORDS * numBlocks => HashedWord(t, k))
  }

  /** The message a table holds: the hashed words before the padding block. */
  function ExtractedMessage(t: Table, messageLen: nat): (message: seq<byte>)
    requires messageLen % BLOCK_BYTES == 0
    requires |t| >= ROWS_PER_BLOCK * (messageLen / BLOCK_BYTES + 1) && Wide(t, WIDTH)
    ensures |message| == messageLen
  {
    WordsToBe(HashedWords(t, messageLen / BLOCK_BYTES + 1)[..messageLen / WORD_BYTES])
  }

  lemma WordOfBlock(t: Table, numBlocks: nat, b: nat, i: nat)
    requires b < numBlocks && |t| >= ROWS_PER_BLOCK * numBlocks && Wide(t, WIDTH) && i < BLOCK_WORDS
    ensures HashedWords(t, numBlocks)[BLOCK_WORDS * b + i] == WordOf(MsgCells(t[FirstRow(b)])[i])
  {
    hide WordOf, MsgCells;
    var k := BLOCK_WORDS * b + i;
    assert k / BLOCK_WORDS == b && k % BLOCK_WORDS == i;
  }

  lemma ChunkOfBlock(t: Table, numBlocks: nat, b: nat)
    requires b < numBlocks && |t| >= ROWS_PER_BLOCK * numBlocks && Wide(t, WIDTH)
    ensures ChunkAt(HashedWords(t, numBlocks), b) == WordsOf(MsgCells(t[FirstRow(b)]))
  {
    var words, cells := HashedWords(t, numBlocks), MsgCells(t[FirstRow(b)]);
    assert |words| >= BLOCK_WORDS * (b + 1);
    hide WordOf, MsgCells, HashedWords;
    var chunk := ChunkAt(words, b);
    forall i | 0 <= i < BLOCK_WORDS
      ensures chunk[i] == WordsOf(cells)[i]
    {
      assert chunk[i] == words[BLOCK_WORDS * b + i];
      WordOfBlock(t, numBlocks, b, i);
    }
  }

  lemma {:induction false} OutputReaches(t: Table, numBlocks: nat, b: nat, offset: nat)
    requires b < numBlocks && |t| >= ROWS_PER_BLOCK * numBlocks && Wide(t, WIDTH)
    requires OutputIsHeld(t, numBlocks) && offset < ROWS_PER_BLOCK
    ensures OutCells(t[FirstRow(b) + offset]) == OutCells(t[FirstRow(b)])
  {
    hide OutCells;
    if offset > 0 {
      OutputReaches(t, numBlocks, b, offset - 1);
      assert IsCarryRow(numBlocks, FirstRow(b) + offset - 1);
    }
  }

  lemma SpelledWords(cells: seq<Cell>, row: Row, column: nat, words: seq<Word>)
    requires column + |words| <= |row| && cells == row[column..column + |words|]
    requires SpellsWords(row, column, words)
    ensures WordsOf(cells) == words
  {
    hide WordOf, Embed;
    forall i | 0 <= i < |words|
      ensures WordsOf(cells)[i] == words[i]
    {
      WordOfEmbed(words[i]);
    }
  }

  /** By induction over the blocks, each first row holds the hash value after its block. */
  lemma {:induction false} OutputIsChained(compress: Compression, t: Table, numBlocks: nat, b: nat)
    requires b < numBlocks && |t| >= ROWS_PER_BLOCK * numBlocks && Wide(t, WIDTH)
    requires GatesAreFixed(t, numBlocks) && OutputIsHeld(t, numBlocks) && BlocksAreChained(t, numBlocks)
    requires SpellsWords(t[0], H_IN, Iv())
    requires ActiveRowsCompress(compress, t)
    ensures WordsOf(OutCells(t[FirstRow(b)])) == Chained(compress, HashedWords(t, numBlocks), b + 1)
  {
    hide WordsOf, HashedWords, ChunkAt, Iv, SpellsWords, InCells, MsgCells, OutCells, OutputIsHeld;
    var row := t[FirstRow(b)];
    if b == 0 {
      InCellsAtStart(t);
    } else {
      OutputIsChained(compress, t, numBlocks, b - 1);
      OutputReaches(t, numBlocks, b - 1, ROWS_PER_BLOCK - 1);
      assert IsChainRow(numBlocks, LastRow(b - 1));
      assert InCells(row) == OutCells(t[FirstRow(b - 1)]);
    }
    ChunkOfBlock(t, numBlocks, b);
    assert IsActiveRow(numBlocks, FirstRow(b));
  }

  lemma InCellsAtStart(t: Table)
    requires |t| > 0 && Wide(t, WIDTH) && SpellsWords(t[0], H_IN, Iv())
    ensures WordsOf(InCells(t[0])) == Iv()
  {
    hide Iv, SpellsWords, WordsOf;
    SpelledWords(InCells(t[0]), t[0], H_IN, Iv());
  }

  /** The hashed words are the padded words of the extracted message. */
  lemma HashedIsPaddedMessage(t: Table, messageLen: nat)
    requires messageLen % BLOCK_BYTES == 0
    requires |t| >= ROWS_PER_BLOCK * PaddedBlocks(messageLen) && Wide(t, WIDTH)
    requires SpellsWords(t[FirstRow(PaddedBlocks(messageLen) - 1)], MSG, PaddingBlock(messageLen))
    ensures PaddedBlocks(messageLen) == messageLen / BLOCK_BYTES + 1
    ensures HashedWords(t, PaddedBlocks(messageLen)) == PaddedWords(ExtractedMessage(t, messageLen))
  {
    hide WordsOf, HashedWord, PaddingBlock, WordsToBe, WordsFromBe, Pad, SpellsWords;
    var n := PaddedBlocks(messageLen);
    var words, own := HashedWords(t, n), messageLen / WORD_BYTES;
    PaddingRefinesBytes(ExtractedMessage(t, messageLen));
    WordsRoundTrip(words[..own]);
    ChunkOfBlock(t, n, n - 1);
    SpelledWords(MsgCells(t[FirstRow(n - 1)]), t[FirstRow(n - 1)], MSG, PaddingBlock(messageLen));
    assert words[own..] == ChunkAt(words, n - 1);
    assert words == words[..own] + words[own..];
  }

  /**
   * Soundness: a table that satisfies the circuit of a length, under the chiplet
   * contract, holds a message of exactly that length, and the published cells are
   * its SHA-256 digest.
   */
  lemma Soundness(compress: Compression, t: Table, rows: nat, messageLen: nat, public: seq<Cell>, edge: Edge)
    requires messageLen % BLOCK_BYTES == 0 && rows >= ROWS_PER_BLOCK * PaddedBlocks(messageLen)
    requires WellFormed(ProgramFor(rows, PaddedBlocks(messageLen), messageLen))
    requires Satisfies(ProgramFor(rows, PaddedBlocks(messageLen), messageLen), t, public, edge)
    requires Wide(t, WIDTH) && ChipletContract(compress, ProgramFor(rows, PaddedBlocks(messageLen), messageLen), t)
    ensures |t| == rows && PaddedBlocks(messageLen) == messageLen / BLOCK_BYTES + 1
    ensures |ExtractedMessage(t, messageLen)| == messageLen
    ensures Sha256(compress, ExtractedMessage(t, messageLen)) == WordsToBe(WordsOf(public))
    ensures EmbedAll(WordsOf(public)) == public
  {
    hide WordsOf, EmbedAll, ProgramFor, WordsToBe, Pad, HashedWords, PaddingBlock, Iv, SpellsWords, PaddedWords;
    var n := PaddedBlocks(messageLen);
    CircuitMeaning(t, rows, n, messageLen, public, edge);
    ContractMeaning(compress, t, rows, n, messageLen);
    OutputIsChained(compress, t, n, n - 1);
    HashedIsPaddedMessage(t, messageLen);
    forall i | 0 <= i < STATE_WORDS
      ensures Fits(public[i], B32)
    {
      assert Fits(t[FirstRow(n - 1)][H_OUT + i], Layout()[H_OUT + i]);
    }
    EmbedAllWordsOf(public);
  }
}
