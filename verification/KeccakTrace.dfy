/** The table the Keccak prover writes, and that it satisfies the circuit. */
module KeccakTrace {
  import opened PowersOfTwo
  import opened Circuits
  import opened Errors
  import opened KeccakRows
  import opened KeccakSponge
  import opened KeccakCircuit

  /** One row of one block, without the padding seam. */
  function BlockRow(h: Height, call: Call, offset: nat): (row: Row)
    ensures |row| == WIDTH
  {
    if offset == 0 then call.input + [1, 0, 0]
    else if offset == h - 1 then call.output + [1, 1, 0]
    else ZeroRow(WIDTH)
  }

  /** The row after the last block keeps the capacity of the last output. */
  function CapacityRow(output: State): (row: Row)
    ensures |row| == WIDTH
  {
    ZeroRow(RATE_LANES) + output[RATE_LANES..] + [0, 0, 0]
  }

  /** Row r once the first n calls are written. */
  function WrittenRow(h: Height, calls: seq<Call>, n: nat, r: nat): (row: Row)
    requires n <= |calls|
    ensures |row| == WIDTH
  {
    if r < InputRow(h, n)
    then
      RowsBefore(h, r, n);
      BlockRow(h, calls[r / h], r % h)
    else ZeroRow(WIDTH)
  }

  /** The table once the first n calls are written. */
  function BlocksTable(h: Height, calls: seq<Call>, n: nat, rows: nat): (t: Table)
    requires n <= |calls|
    ensures |t| == rows && Wide(t, WIDTH)
  {
    seq(rows, r requires 0 <= r < rows => WrittenRow(h, calls, n, r))
  }

  function WithCapacity(h: Height, t: Table, calls: seq<Call>): (u: Table)
    requires 0 < |calls| && InputRow(h, |calls|) < |t|
    ensures |u| == |t|
  {
    t[InputRow(h, |calls|) := CapacityRow(calls[|calls| - 1].output)]
  }

  function WithSeam(h: Height, t: Table, numBlocks: nat): (u: Table)
    requires numBlocks > 1 ==> PadSeamRow(h, numBlocks) < |t| && |t[PadSeamRow(h, numBlocks)]| == WIDTH
    ensures |u| == |t|
  {
    if numBlocks > 1 then t[PadSeamRow(h, numBlocks) := t[PadSeamRow(h, numBlocks)][PAD_SEAM := 1]] else t
  }

  /** The finished table of a run of calls. */
  function HostTable(h: Height, calls: seq<Call>, rows: nat): (t: Table)
    requires 0 < |calls| && InputRow(h, |calls|) < rows
    ensures |t| == rows
  {
    WithSeam(h, WithCapacity(h, BlocksTable(h, calls, |calls|, rows), calls), |calls|)
  }

  /** The lanes from one index up to another, laid over a row. */
  function Overlay(row: Row, from: nat, upto: nat, lanes: State): (laid: Row)
    requires |row| == WIDTH && from <= upto <= STATE_LANES
    ensures |laid| == WIDTH
  {
    row[..from] + lanes[from..upto] + row[upto..]
  }

  lemma OverlayStep(row: Row, from: nat, upto: nat, lanes: State)
    requires |row| == WIDTH && from <= upto < STATE_LANES
    ensures Overlay(row, from, upto, lanes)[upto := lanes[upto]] == Overlay(row, from, upto + 1, lanes)
    ensures Overlay(row, from, from, lanes) == row
  {
    assert lanes[from..upto + 1] == lanes[from..upto] + [lanes[upto]];
    assert row[upto..] == [row[upto]] + row[upto + 1..];
    assert row[..from] + row[from..] == row;
  }

  method WriteLanes(tb: TraceBuilder, row: nat, from: nat, lanes: State) returns (ok: bool)
    requires tb.layout == Layout() && Wide(tb.cells, WIDTH) && from < STATE_LANES
    modifies tb
    ensures ok == (row < |old(tb.cells)|)
    ensures tb.cells == if ok then old(tb.cells)[row := Overlay(old(tb.cells)[row], from, STATE_LANES, lanes)]
                        else old(tb.cells)
  {
    ghost var was := tb.cells;
    ok := tb.Set(B64, from, row, lanes[from]);
    if ok {
      OverlayStep(was[row], from, from, lanes);
      for i := from + 1 to STATE_LANES
        invariant ok && tb.cells == was[row := Overlay(was[row], from, i, lanes)]
      {
        OverlayStep(was[row], from, i, lanes);
        ok := tb.Set(B64, i, row, lanes[i]);
      }
    }
  }

  lemma WrittenRowStep(h: Height, calls: seq<Call>, b: nat, r: nat)
    requires b < |calls|
    ensures WrittenRow(h, calls, b + 1, r)
            == if r == InputRow(h, b) then BlockRow(h, calls[b], 0)
               else if r == OutputRow(h, b) then BlockRow(h, calls[b], h - 1)
               else WrittenRow(h, calls, b, r)
    ensures r >= InputRow(h, b) ==> WrittenRow(h, calls, b, r) == ZeroRow(WIDTH)
  {
    NextBlock(h, b);
    hide InputRow;
    if InputRow(h, b) <= r <= OutputRow(h, b) {
      RowInBlock(h, b, r - InputRow(h, b));
    }
  }

  lemma BlocksTableStep(h: Height, calls: seq<Call>, b: nat, rows: nat)
    requires b < |calls| && OutputRow(h, b) < rows
    ensures BlocksTable(h, calls, b + 1, rows)
            == BlocksTable(h, calls, b, rows)[InputRow(h, b) := BlockRow(h, calls[b], 0)]
                                          [OutputRow(h, b) := BlockRow(h, calls[b], h - 1)]
    ensures BlocksTable(h, calls, b, rows)[InputRow(h, b)] == ZeroRow(WIDTH)
    ensures BlocksTable(h, calls, b, rows)[OutputRow(h, b)] == ZeroRow(WIDTH)
  {
    NextBlock(h, b);
    var before, after := BlocksTable(h, calls, b, rows), BlocksTable(h, calls, b + 1, rows);
    var written := before[InputRow(h, b) := BlockRow(h, calls[b], 0)][OutputRow(h, b) := BlockRow(h, calls[b], h - 1)];
    hide InputRow, WrittenRow, BlockRow, ZeroRow;
    forall r | 0 <= r < rows
      ensures after[r] == written[r]
    {
      WrittenRowStep(h, calls, b, r);
    }
    WrittenRowStep(h, calls, b, InputRow(h, b));
    WrittenRowStep(h, calls, b, OutputRow(h, b));
  }

  lemma WrittenRows(h: Height, call: Call)
    ensures Overlay(ZeroRow(WIDTH), 0, STATE_LANES, call.input)[SELECTOR := 1] == BlockRow(h, call, 0)
    ensures Overlay(ZeroRow(WIDTH), 0, STATE_LANES, call.output)[SELECTOR := 1][OUT_GATE := 1]
            == BlockRow(h, call, h - 1)
    ensures Overlay(ZeroRow(WIDTH), RATE_LANES, STATE_LANES, call.output) == CapacityRow(call.output)
  {}

  /** Writes the two service rows of block b. */
  method WriteBlock(h: Height, tb: TraceBuilder, calls: seq<Call>, b: nat) returns (ok: bool)
    requires b < |calls| && tb.layout == Layout()
    requires tb.cells == BlocksTable(h, calls, b, |tb.cells|)
    modifies tb
    ensures ok == (OutputRow(h, b) < |old(tb.cells)|)
    ensures ok ==> tb.cells == BlocksTable(h, calls, b + 1, |old(tb.cells)|)
  {
    hide Overlay, BlockRow, ZeroRow, WrittenRow, InputRow;
    ghost var was := tb.cells;
    if OutputRow(h, b) < |was| {
      BlocksTableStep(h, calls, b, |was|);
    } else if InputRow(h, b) < |was| {
      WrittenRowStep(h, calls, b, InputRow(h, b));
    }
    var row, outputRow := InputRow(h, b), OutputRow(h, b);
    ok := WriteLanes(tb, row, 0, calls[b].input);
    if !ok {
      return;
    }
    ok := tb.Set(Bit, SELECTOR, row, 1);
    ghost var input := tb.cells;
    WrittenRows(h, calls[b]);
    assert was[row] == ZeroRow(WIDTH);
    assert input == was[row := BlockRow(h, calls[b], 0)];
    ok := WriteLanes(tb, outputRow, 0, calls[b].output);
    if !ok {
      return;
    }
    ok := tb.Set(Bit, SELECTOR, outputRow, 1);
    ok := tb.Set(Bit, OUT_GATE, outputRow, 1);
    assert input[outputRow] == ZeroRow(WIDTH);
    assert tb.cells == input[outputRow := BlockRow(h, calls[b], h - 1)];
  }

  /** Writes the row after the last block and the padding seam. */
  method WriteEnd(h: Height, tb: TraceBuilder, calls: seq<Call>) returns (ok: bool)
    requires |calls| > 0 && tb.layout == Layout()
    requires tb.cells == BlocksTable(h, calls, |calls|, |tb.cells|)
    modifies tb
    ensures ok == (InputRow(h, |calls|) < |old(tb.cells)|)
    ensures ok ==> tb.cells == HostTable(h, calls, |old(tb.cells)|)
  {
    hide Overlay, ZeroRow, WrittenRow, InputRow, CapacityRow;
    var n := |calls|;
    ghost var was := tb.cells;
    var last := calls[n - 1].output;
    var row := InputRow(h, n);
    ok := WriteLanes(tb, row, RATE_LANES, last);
    if ok {
      NothingWritten(h, calls, n, row);
      WrittenRows(h, calls[n - 1]);
      assert tb.cells == WithCapacity(h, was, calls);
      if n > 1 {
        BlockFits(h, n - 1, n);
        ok := tb.Set(Bit, PAD_SEAM, PadSeamRow(h, n), 1);
      }
    }
  }

  lemma NothingWritten(h: Height, calls: seq<Call>, n: nat, r: nat)
    requires n <= |calls| && r >= InputRow(h, n)
    ensures WrittenRow(h, calls, n, r) == ZeroRow(WIDTH)
  {}

  lemma EmptyTable(h: Height, calls: seq<Call>, rows: nat)
    ensures BlocksTable(h, calls, 0, rows) == ZeroTable(rows, WIDTH)
  {
    FirstBlock(h);
    hide WrittenRow, ZeroRow, InputRow;
    forall r | 0 <= r < rows
      ensures WrittenRow(h, calls, 0, r) == ZeroRow(WIDTH)
    {
      NothingWritten(h, calls, 0, r);
    }
  }

  /**
   * Fills the host table of a run of calls. It succeeds exactly when the row after
   * the last block is still in the table, the row that carries the last capacity.
   */
  method BuildTrace(h: Height, calls: seq<Call>, numRows: nat) returns (r: Option<Table>)
    requires |calls| > 0 && Pow2(Log2(numRows)) == numRows
    ensures r.Some? <==> InputRow(h, |calls|) < numRows
    ensures r.Some? ==> r.value == HostTable(h, calls, numRows)
  {
    hide InputRow, BlocksTable, HostTable, ZeroTable, Pow2, Log2;
    var tb := new TraceBuilder(Layout(), Log2(numRows));
    EmptyTable(h, calls, numRows);
    for b := 0 to |calls|
      invariant tb.cells == BlocksTable(h, calls, b, numRows)
    {
      BlockFits(h, b, |calls|);
      var ok := WriteBlock(h, tb, calls, b);
      if !ok {
        return None;
      }
    }
    var ok := WriteEnd(h, tb, calls);
    r := if ok then Some(tb.cells) else None;
  }
}
