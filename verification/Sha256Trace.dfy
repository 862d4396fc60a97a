/** The table the SHA-256 prover writes. */
module Sha256Trace {
  import opened Bytes
  import opened PowersOfTwo
  import opened Circuits
  import opened Errors
  import opened Sha256Hash
  import opened Sha256Circuit

  /** The words of a call: its hash value, its block and its output. */
  function CallWords(compress: Compression, call: Call): (words: seq<Word>)
    ensures |words| == BLOCK_COLUMNS
  {
    call.hIn + call.block + compress(call.hIn, call.block)
  }

  /** One row of one call with its three gates. */
  function CallRow(words: seq<Word>, active: bool, carry: bool, chain: bool): (row: Row)
    requires |words| == BLOCK_COLUMNS
    ensures |row| == WIDTH
  {
    EmbedAll(words) + [Flag(active), Flag(carry), Flag(chain)]
  }

  /** Row r of the finished table. */
  function HostRow(compress: Compression, calls: seq<Call>, r: nat): (row: Row)
    requires |calls| > 0
    ensures |row| == WIDTH
  {
    if r < ROWS_PER_BLOCK * |calls| then
      CallRow(CallWords(compress, calls[r / ROWS_PER_BLOCK]),
              IsActiveRow(|calls|, r), IsCarryRow(|calls|, r), IsChainRow(|calls|, r))
    else ZeroRow(WIDTH)
  }

  function HostTable(compress: Compression, calls: seq<Call>, rows: nat): (t: Table)
    requires |calls| > 0
    ensures |t| == rows && Wide(t, WIDTH)
  {
    seq(rows, r requires 0 <= r < rows => HostRow(compress, calls, r))
  }

  /** Row r of the table while the rows of block b are written and its first gates are set. */
  function OpenRow(
    compress: Compression, calls: seq<Call>, b: nat, written: nat, active: bool, carried: nat, r: nat): (row: Row)
    requires b < |calls|
    ensures |row| == WIDTH
  {
    if r < FirstRow(b) then HostRow(compress, calls, r)
    else if r < FirstRow(b) + written then
      CallRow(CallWords(compress, calls[b]), active && r == FirstRow(b), r < FirstRow(b) + carried, false)
    else ZeroRow(WIDTH)
  }

  function OpenTable(
    compress: Compression, calls: seq<Call>, b: nat, written: nat, active: bool, carried: nat, rows: nat): (t: Table)
    requires b < |calls|
    ensures |t| == rows && Wide(t, WIDTH)
  {
    seq(rows, r requires 0 <= r < rows => OpenRow(compress, calls, b, written, active, carried, r))
  }

  /** Words laid over the left of a row. */
  function Overlay(row: Row, words: seq<Word>, upto: nat): (laid: Row)
    requires |row| == WIDTH && upto <= |words| == BLOCK_COLUMNS
    ensures |laid| == WIDTH
  {
    EmbedAll(words)[..upto] + row[upto..]
  }

  lemma OverlayStep(row: Row, words: seq<Word>, upto: nat)
    requires |row| == WIDTH && upto < |words| == BLOCK_COLUMNS
    ensures Overlay(row, words, upto)[upto := Embed(words[upto])] == Overlay(row, words, upto + 1)
    ensures Overlay(row, words, 0) == row
  {
    hide Embed;
  }

  lemma OverlayOfZeros(words: seq<Word>)
    requires |words| == BLOCK_COLUMNS
    ensures Overlay(ZeroRow(WIDTH), words, BLOCK_COLUMNS) == CallRow(words, false, false, false)
  {
    hide Embed;
  }

  method WriteWords(tb: TraceBuilder, row: nat, words: seq<Word>) returns (ok: bool)
    requires tb.layout == Layout() && Wide(tb.cells, WIDTH) && |words| == BLOCK_COLUMNS
    modifies tb
    ensures ok == (row < |old(tb.cells)|)
    ensures tb.cells == if ok then old(tb.cells)[row := Overlay(old(tb.cells)[row], words, BLOCK_COLUMNS)]
                        else old(tb.cells)
  {
    hide Overlay, EmbedAll;
    ghost var was := tb.cells;
    ok := row < |tb.cells|;
    if ok {
      OverlayStep(was[row], words, 0);
      assert was == was[row := was[row]];
      for i := 0 to BLOCK_COLUMNS
        invariant ok && tb.cells == was[row := Overlay(was[row], words, i)]
      {
        OverlayStep(was[row], words, i);
        ok := tb.Set(B32, i, row, Embed(words[i]));
      }
    }
  }

  lemma OpenStepWritten(compress: Compression, calls: seq<Call>, b: nat, written: nat, rows: nat)
    requires b < |calls| && written < ROWS_PER_BLOCK && FirstRow(b) + written < rows
    ensures OpenTable(compress, calls, b, written + 1, false, 0, rows)
            == OpenTable(compress, calls, b, written, false, 0, rows)
                 [FirstRow(b) + written := CallRow(CallWords(compress, calls[b]), false, false, false)]
  {
    hide CallRow, HostRow, ZeroRow, CallWords;
  }

  lemma OpenStepActive(compress: Compression, calls: seq<Call>, b: nat, rows: nat)
    requires b < |calls| && FirstRow(b) < rows
    ensures OpenTable(compress, calls, b, ROWS_PER_BLOCK, true, 0, rows)
            == OpenTable(compress, calls, b, ROWS_PER_BLOCK, false, 0, rows)
                 [FirstRow(b) := CallRow(CallWords(compress, calls[b]), true, false, false)]
  {
    hide CallRow, HostRow, ZeroRow, CallWords;
  }

  lemma OpenStepCarried(compress: Compression, calls: seq<Call>, b: nat, carried: nat, rows: nat)
    requires b < |calls| && carried < ROWS_PER_BLOCK - 1 && FirstRow(b) + carried < rows
    ensures OpenTable(compress, calls, b, ROWS_PER_BLOCK, true, carried + 1, rows)
            == OpenTable(compress, calls, b, ROWS_PER_BLOCK, true, carried, rows)
                 [FirstRow(b) + carried := CallRow(CallWords(compress, calls[b]), carried == 0, true, false)]
  {
    hide CallRow, HostRow, ZeroRow, CallWords;
  }

  /** The last gate closes the block: what was open is now a prefix of the finished table. */
  lemma BlockCloses(compress: Compression, calls: seq<Call>, b: nat, rows: nat)
    requires b < |calls| && LastRow(b) < rows
    ensures var open := OpenTable(compress, calls, b, ROWS_PER_BLOCK, true, ROWS_PER_BLOCK - 1, rows);
            var closed := open[LastRow(b) := CallRow(CallWords(compress, calls[b]), false, false, b + 1 < |calls|)];
            && (b + 1 < |calls| ==> closed == OpenTable(compress, calls, b + 1, 0, false, 0, rows))
            && (b + 1 == |calls| ==> closed == HostTable(compress, calls, rows))
  {
    hide CallRow, ZeroRow, CallWords;
    var open := OpenTable(compress, calls, b, ROWS_PER_BLOCK, true, ROWS_PER_BLOCK - 1, rows);
    var closed := open[LastRow(b) := CallRow(CallWords(compress, calls[b]), false, false, b + 1 < |calls|)];
    forall r | 0 <= r < rows
      ensures closed[r] == if r <= LastRow(b) then HostRow(compress, calls, r) else ZeroRow(WIDTH)
    {
      if FirstRow(b) <= r <= LastRow(b) {
        assert r / ROWS_PER_BLOCK == b && r % ROWS_PER_BLOCK == r - FirstRow(b);
      }
    }
  }

  /** The gates of one row can be set one by one. */
  lemma GatesOneByOne(words: seq<Word>, active: bool)
    requires |words| == BLOCK_COLUMNS
    ensures CallRow(words, false, false, false)[ACTIVE := 1] == CallRow(words, true, false, false)
    ensures CallRow(words, active, false, false)[CARRY := 1] == CallRow(words, active, true, false)
    ensures CallRow(words, false, false, false)[CHAIN := 1] == CallRow(words, false, false, true)
  {
    hide Embed;
  }

  method WriteBlock(tb: TraceBuilder, compress: Compression, calls: seq<Call>, b: nat) returns (ok: bool)
    requires b < |calls| && tb.layout == Layout()
    requires tb.cells == OpenTable(compress, calls, b, 0, false, 0, |tb.cells|)
    modifies tb
    ensures ok ==> LastRow(b) < |old(tb.cells)|
    ensures LastRow(b) < |old(tb.cells)| ==> ok
    ensures ok && b + 1 < |calls| ==> tb.cells == OpenTable(compress, calls, b + 1, 0, false, 0, |old(tb.cells)|)
    ensures ok && b + 1 == |calls| ==> tb.cells == HostTable(compress, calls, |old(tb.cells)|)
  {
    hide CallRow, HostRow, ZeroRow, CallWords, Overlay, OpenTable;
    var words := CallWords(compress, calls[b]);
    var firstRow := FirstRow(b);
    ghost var rows := |tb.cells|;
    ok := WriteRows(tb, compress, calls, b);
    if !ok {
      return;
    }
    GatesOneByOne(words, true);
    GatesOneByOne(words, false);
    OpenRowAt(compress, calls, b, false, 0, firstRow, rows);
    ok := tb.Set(Bit, ACTIVE, firstRow, 1);
    OpenStepActive(compress, calls, b, rows);
    for j := 0 to ROWS_PER_BLOCK - 1
      invariant ok && tb.cells == OpenTable(compress, calls, b, ROWS_PER_BLOCK, true, j, rows)
    {
      OpenRowAt(compress, calls, b, true, j, firstRow + j, rows);
      ok := tb.Set(Bit, CARRY, firstRow + j, 1);
      OpenStepCarried(compress, calls, b, j, rows);
    }
    OpenRowAt(compress, calls, b, true, ROWS_PER_BLOCK - 1, LastRow(b), rows);
    BlockCloses(compress, calls, b, rows);
    if b + 1 < |calls| {
      ok := tb.Set(Bit, CHAIN, LastRow(b), 1);
    } else {
      assert tb.cells == tb.cells[LastRow(b) := tb.cells[LastRow(b)]];
    }
  }

  lemma OpenRowAt(compress: Compression, calls: seq<Call>, b: nat, active: bool, carried: nat, r: nat, rows: nat)
    requires b < |calls| && FirstRow(b) <= r <= LastRow(b) < rows
    ensures OpenTable(compress, calls, b, ROWS_PER_BLOCK, active, carried, rows)[r]
            == CallRow(CallWords(compress, calls[b]), active && r == FirstRow(b), r < FirstRow(b) + carried, false)
  {
    hide CallRow, HostRow, ZeroRow, CallWords;
  }

  method WriteRows(tb: TraceBuilder, compress: Compression, calls: seq<Call>, b: nat) returns (ok: bool)
    requires b < |calls| && tb.layout == Layout()
    requires tb.cells == OpenTable(compress, calls, b, 0, false, 0, |tb.cells|)
    modifies tb
    ensures ok == (LastRow(b) < |old(tb.cells)|)
    ensures ok ==> tb.cells == OpenTable(compress, calls, b, ROWS_PER_BLOCK, false, 0, |old(tb.cells)|)
  {
    hide CallRow, HostRow, ZeroRow, CallWords, Overlay;
    var words := CallWords(compress, calls[b]);
    ghost var rows := |tb.cells|;
    for j := 0 to ROWS_PER_BLOCK
      invariant FirstRow(b) + j <= rows || j == 0
      invariant tb.cells == OpenTable(compress, calls, b, j, false, 0, rows)
    {
      ok := WriteWords(tb, FirstRow(b) + j, words);
      if !ok {
        return;
      }
      OverlayOfZeros(words);
      OpenStepWritten(compress, calls, b, j, rows);
    }
    ok := true;
  }

  /** Fills the host table of a run of calls; it succeeds exactly when the blocks fit the table. */
  method BuildTrace(compress: Compression, calls: seq<Call>, numRows: nat) returns (r: Option<Table>)
    requires |calls| > 0 && Pow2(Log2(numRows)) == numRows
    ensures r.Some? <==> ROWS_PER_BLOCK * |calls| <= numRows
    ensures r.Some? ==> r.value == HostTable(compress, calls, numRows)
  {
    var tb := new TraceBuilder(Layout(), Log2(numRows));
    assert tb.cells == OpenTable(compress, calls, 0, 0, false, 0, numRows);
    for b := 0 to |calls|
      invariant b < |calls| ==> tb.cells == OpenTable(compress, calls, b, 0, false, 0, numRows)
      invariant b == |calls| ==> tb.cells == HostTable(compress, calls, numRows)
      invariant b > 0 ==> LastRow(b - 1) < numRows
    {
      var ok := WriteBlock(tb, compress, calls, b);
      if !ok {
        return None;
      }
    }
    r := Some(tb.cells);
  }
}
