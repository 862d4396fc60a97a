/** The rows of the Keccak blocks in a table, for any number of rows a block takes. */
module KeccakRows {
  import opened Numbers

  /** Rows of one permutation: an input row, rows for the rounds, and an output row. */
  type Height = h: nat | h >= 2 witness 2

  /** The first row of block b, which is the row after block b - 1. */
  function InputRow(h: Height, b: nat): (row: nat)
    ensures b > 0 ==> row > 0
  {
    h * b
  }

  function OutputRow(h: Height, b: nat): nat {
    InputRow(h, b) + h - 1
  }

  /** The output row before the last block. */
  function PadSeamRow(h: Height, numBlocks: nat): nat
    requires numBlocks > 1
  {
    InputRow(h, numBlocks - 1) - 1
  }

  lemma FirstBlock(h: Height)
    ensures InputRow(h, 0) == 0 && InputRow(h, 1) == h
  {}

  lemma NextBlock(h: Height, b: nat)
    ensures InputRow(h, b + 1) == InputRow(h, b) + h == OutputRow(h, b) + 1
  {}

  /** Later blocks lie behind earlier ones. */
  lemma {:induction false} BlockFits(h: Height, b: nat, n: nat)
    requires b < n
    ensures InputRow(h, b + 1) == OutputRow(h, b) + 1 <= InputRow(h, n)
    ensures InputRow(h, b) < OutputRow(h, b)
  {
    NextBlock(h, b);
    hide InputRow;
    if b + 1 < n {
      BlockFits(h, b, n - 1);
      NextBlock(h, n - 1);
    }
  }

  /** The row at an offset inside a block gives back block and offset. */
  lemma RowInBlock(h: Height, b: nat, offset: nat)
    requires offset < h
    ensures (InputRow(h, b) + offset) / h == b && (InputRow(h, b) + offset) % h == offset
  {
    var row := InputRow(h, b) + offset;
    QuotientIsUnique(h, row, b, offset);
  }

  /** Every row is at an offset inside some block. */
  lemma BlockOfRow(h: Height, row: nat)
    ensures row % h < h && row == InputRow(h, row / h) + row % h
  {}

  /** A row lies before block n exactly when its block does. */
  lemma RowsBefore(h: Height, row: nat, n: nat)
    ensures row < InputRow(h, n) <==> row / h < n
  {
    BlockOfRow(h, row);
    var b := row / h;
    hide InputRow;
    if b < n {
      BlockFits(h, b, n);
    } else if n < b {
      BlockFits(h, n, b);
    }
  }
}
