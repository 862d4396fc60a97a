/** The table the SHA-256 prover writes satisfies the circuit, and gives the message back. */
module Sha256Completeness {
  import opened Bytes
  import opened Circuits
  import opened Sha256Hash
  import opened Sha256Circuit
  import opened Sha256Soundness
  import opened Sha256Trace

  function DigestCells(compress: Compression, calls: seq<Call>): (cells: seq<Cell>)
    requires |calls| > 0
    ensures |cells| == STATE_WORDS
  {
    EmbedAll(compress(calls[|calls| - 1].hIn, calls[|calls| - 1].block))
  }

  lemma HostTableIsShaped(compress: Compression, calls: seq<Call>, rows: nat)
    requires |calls| > 0 && rows >= ROWS_PER_BLOCK * |calls|
    ensures Shaped(HostTable(compress, calls, rows), rows, Layout())
    ensures GatesAreFixed(HostTable(compress, calls, rows), |calls|)
  {
    hide CallWords, IsActiveRow, IsCarryRow, IsChainRow, Embed, Fits;
    var t := HostTable(compress, calls, rows);
    forall r, c | 0 <= r < rows && 0 <= c < WIDTH
      ensures Fits(t[r][c], Layout()[c])
    {
      FitsEverywhere(t[r][c], c);
      assert t[r] == HostRow(compress, calls, r);
    }
    forall r | 0 <= r < rows
      ensures t[r][ACTIVE] == Flag(IsActiveRow(|calls|, r))
      ensures t[r][CARRY] == Flag(IsCarryRow(|calls|, r))
      ensures t[r][CHAIN] == Flag(IsChainRow(|calls|, r))
    {
      IdleGates(|calls|, r);
    }
  }

  lemma FitsEverywhere(cell: Cell, c: nat)
    requires c < WIDTH
    ensures cell == 0 || cell == 1 ==> Fits(cell, Layout()[c])
  {}

  lemma IdleGates(numBlocks: nat, r: nat)
    requires numBlocks > 0
    ensures r >= ROWS_PER_BLOCK * numBlocks ==>
      !IsActiveRow(numBlocks, r) && !IsCarryRow(numBlocks, r) && !IsChainRow(numBlocks, r)
  {}

  /** The cells of a row of block b spell its call. */
  lemma RowOfBlock(compress: Compression, calls: seq<Call>, rows: nat, b: nat, offset: nat)
    requires b < |calls| && rows >= ROWS_PER_BLOCK * |calls| && offset < ROWS_PER_BLOCK
    ensures var row, call := HostTable(compress, calls, rows)[FirstRow(b) + offset], calls[b];
            && InCells(row) == EmbedAll(call.hIn)
            && MsgCells(row) == EmbedAll(call.block)
            && OutCells(row) == EmbedAll(compress(call.hIn, call.block))
  {
    hide Embed, IsActiveRow, IsCarryRow, IsChainRow;
    assert (FirstRow(b) + offset) / ROWS_PER_BLOCK == b;
  }

  lemma HostTableIsHeld(compress: Compression, calls: seq<Call>, rows: nat)
    requires |calls| > 0 && rows >= ROWS_PER_BLOCK * |calls|
    ensures OutputIsHeld(HostTable(compress, calls, rows), |calls|)
  {
    hide EmbedAll, HostTable, InCells, MsgCells, OutCells;
    var t := HostTable(compress, calls, rows);
    forall r | 0 <= r < |t| - 1 && IsCarryRow(|calls|, r)
      ensures OutCells(t[r + 1]) == OutCells(t[r])
    {
      var b, offset := r / ROWS_PER_BLOCK, r % ROWS_PER_BLOCK;
      RowOfBlock(compress, calls, rows, b, offset);
      RowOfBlock(compress, calls, rows, b, offset + 1);
    }
  }

  lemma HostTableIsChained(compress: Compression, words: seq<Word>, n: nat, rows: nat)
    requires n > 0 && BLOCK_WORDS * n <= |words| && rows >= ROWS_PER_BLOCK * n
    ensures BlocksAreChained(HostTable(compress, Calls(compress, words, n), rows), n)
  {
    hide EmbedAll, HostTable, InCells, MsgCells, OutCells;
    var calls := Calls(compress, words, n);
    var t := HostTable(compress, calls, rows);
    forall r | 0 <= r < |t| - 1 && IsChainRow(n, r)
      ensures InCells(t[r + 1]) == OutCells(t[r])
    {
      var b := r / ROWS_PER_BLOCK;
      assert r == LastRow(b) && r + 1 == FirstRow(b + 1);
      RowOfBlock(compress, calls, rows, b, ROWS_PER_BLOCK - 1);
      RowOfBlock(compress, calls, rows, b + 1, 0);
      assert calls[b + 1].hIn == compress(calls[b].hIn, calls[b].block);
    }
  }

  lemma SpellsEmbedded(row: Row, column: nat, words: seq<Word>)
    requires column + |words| <= |row| && row[column..column + |words|] == EmbedAll(words)
    ensures SpellsWords(row, column, words)
  {
    hide Embed;
    forall i | 0 <= i < |words|
      ensures row[column + i] == Embed(words[i])
    {
      assert row[column..column + |words|][i] == EmbedAll(words)[i];
    }
  }

  lemma HashedWordsOfHostTable(compress: Compression, words: seq<Word>, n: nat, rows: nat)
    requires n > 0 && BLOCK_WORDS * n == |words| && rows >= ROWS_PER_BLOCK * n
    ensures HashedWords(HostTable(compress, Calls(compress, words, n), rows), n) == words
  {
    hide EmbedAll, HostTable, WordOf, MsgCells, Chained;
    var calls := Calls(compress, words, n);
    var t := HostTable(compress, calls, rows);
    forall k | 0 <= k < BLOCK_WORDS * n
      ensures HashedWords(t, n)[k] == words[k]
    {
      var b, i := k / BLOCK_WORDS, k % BLOCK_WORDS;
      RowOfBlock(compress, calls, rows, b, 0);
      WordsOfEmbedAll(calls[b].block);
      assert MsgCells(t[FirstRow(b)]) == EmbedAll(calls[b].block);
      assert WordsOf(MsgCells(t[FirstRow(b)]))[i] == calls[b].block[i] == words[k];
    }
  }

  lemma HostTableMeetsContract(compress: Compression, calls: seq<Call>, rows: nat)
    requires |calls| > 0 && rows >= ROWS_PER_BLOCK * |calls|
    requires GatesAreFixed(HostTable(compress, calls, rows), |calls|)
    ensures ActiveRowsCompress(compress, HostTable(compress, calls, rows))
  {
    hide EmbedAll, WordsOf, HostTable, InCells, MsgCells, OutCells;
    var t := HostTable(compress, calls, rows);
    forall r | 0 <= r < |t| && t[r][ACTIVE] == 1
      ensures WordsOf(OutCells(t[r])) == compress(WordsOf(InCells(t[r])), WordsOf(MsgCells(t[r])))
    {
      assert IsActiveRow(|calls|, r);
      var b := r / ROWS_PER_BLOCK;
      RowOfBlock(compress, calls, rows, b, 0);
      WordsOfEmbedAll(calls[b].hIn);
      WordsOfEmbedAll(calls[b].block);
      WordsOfEmbedAll(compress(calls[b].hIn, calls[b].block));
    }
  }

  lemma HostTableIsPadded(compress: Compression, message: seq<byte>, rows: nat)
    requires |message| % BLOCK_BYTES == 0 && rows >= ROWS_PER_BLOCK * PaddedBlocks(|message|)
    ensures var n := PaddedBlocks(|message|);
            var t := HostTable(compress, Calls(compress, PaddedWords(message), n), rows);
            && SpellsWords(t[0], H_IN, Iv())
            && SpellsWords(t[FirstRow(n - 1)], MSG, PaddingBlock(|message|))
  {
    hide EmbedAll, HostTable, Iv, PaddingBlock, SpellsWords, PaddedWords;
    var n, words := PaddedBlocks(|message|), PaddedWords(message);
    var calls := Calls(compress, words, n);
    var t := HostTable(compress, calls, rows);
    PaddingRefinesBytes(message);
    RowOfBlock(compress, calls, rows, 0, 0);
    assert calls[0].hIn == Iv();
    SpellsEmbedded(t[0], H_IN, Iv());
    RowOfBlock(compress, calls, rows, n - 1, 0);
    assert calls[n - 1].block == PaddingBlock(|message|);
    SpellsEmbedded(t[FirstRow(n - 1)], MSG, PaddingBlock(|message|));
  }

  /**
   * Completeness: for every message of whole blocks the written table satisfies the
   * circuit of its length under its own digest, meets the chiplet contract, and
   * extraction gives the message back, also when the blocks fill the table.
   */
  lemma Completeness(compress: Compression, message: seq<byte>, rows: nat, edge: Edge)
    requires |message| % BLOCK_BYTES == 0 && rows >= ROWS_PER_BLOCK * PaddedBlocks(|message|)
    ensures var n := PaddedBlocks(|message|);
            var calls := Calls(compress, PaddedWords(message), n);
            var t, p := HostTable(compress, calls, rows), ProgramFor(rows, n, |message|);
            && WellFormed(p) && Satisfies(p, t, DigestCells(compress, calls), edge)
            && Wide(t, |p.columns|) && ChipletContract(compress, p, t)
            && n == |message| / BLOCK_BYTES + 1 && ExtractedMessage(t, |message|) == message
            && WordsToBe(WordsOf(DigestCells(compress, calls))) == Sha256(compress, message)
  {
    hide EmbedAll, WordsOf, HostTable, Iv, PaddingBlock, SpellsWords, PaddedWords, ProgramFor, WordsToBe;
    hide HashedWords, GatesAreFixed, OutputIsHeld, BlocksAreChained, InCells, OutCells, MsgCells;
    var n, words := PaddedBlocks(|message|), PaddedWords(message);
    var calls := Calls(compress, words, n);
    var t := HostTable(compress, calls, rows);
    HostTableIsShaped(compress, calls, rows);
    HostTableIsHeld(compress, calls, rows);
    HostTableIsChained(compress, words, n, rows);
    HostTableIsPadded(compress, message, rows);
    HostTableMeetsContract(compress, calls, rows);
    RowOfBlock(compress, calls, rows, n - 1, 0);
    CircuitMeaning(t, rows, n, |message|, DigestCells(compress, calls), edge);
    ContractMeaning(compress, t, rows, n, |message|);
    WordsOfEmbedAll(compress(calls[n - 1].hIn, calls[n - 1].block));
    HashedWordsOfHostTable(compress, words, n, rows);
    MessageBack(message);
  }

  lemma MessageBack(message: seq<byte>)
    requires |message| % BLOCK_BYTES == 0
    ensures PaddedBlocks(|message|) == |message| / BLOCK_BYTES + 1
    ensures WordsToBe(PaddedWords(message)[..|message| / WORD_BYTES]) == message
  {
    hide WordFromBe, WordToBe, Pad, PaddingBlock;
    PaddingRefinesBytes(message);
    assert PaddedWords(message)[..|message| / WORD_BYTES] == WordsFromBe(message);
    WordBytesRoundTrip(message);
  }
}
