/** The SHA-256 preimage circuit: how it is built, and what a table that satisfies it says. */
module Sha256Circuit {
  import opened Bytes
  import opened Circuits
  import opened Sha256Hash

  const ROWS_PER_BLOCK: nat := 16

  const H_IN: nat := 0
  const MSG: nat := STATE_WORDS
  const H_OUT: nat := STATE_WORDS + BLOCK_WORDS
  const BLOCK_COLUMNS: nat := 2 * STATE_WORDS + BLOCK_WORDS
  const ACTIVE: nat := BLOCK_COLUMNS
  const CARRY: nat := BLOCK_COLUMNS + 1
  const CHAIN: nat := BLOCK_COLUMNS + 2
  const WIDTH: nat := BLOCK_COLUMNS + 3

  function Layout(): (kinds: seq<ColumnType>)
    ensures |kinds| == WIDTH
  {
    seq(BLOCK_COLUMNS, _ => B32) + [Bit, Bit, Bit]
  }

  function FirstRow(b: nat): nat {
    ROWS_PER_BLOCK * b
  }

  function LastRow(b: nat): nat {
    ROWS_PER_BLOCK * b + ROWS_PER_BLOCK - 1
  }

  function ActiveShape(numBlocks: nat): Shape {
    Cadence(ROWS_PER_BLOCK, numBlocks, seq(ROWS_PER_BLOCK, offset => Flag(offset == 0)))
  }

  function CarryShape(numBlocks: nat): Shape {
    Cadence(ROWS_PER_BLOCK, numBlocks, seq(ROWS_PER_BLOCK, offset => Flag(offset + 1 < ROWS_PER_BLOCK)))
  }

  function ChainShape(numBlocks: nat): Shape
    requires numBlocks > 0
  {
    Cadence(ROWS_PER_BLOCK, numBlocks - 1, seq(ROWS_PER_BLOCK, offset => Flag(offset + 1 == ROWS_PER_BLOCK)))
  }

  function FixedColumns(numBlocks: nat): (fixed: seq<(nat, Shape)>)
    requires numBlocks > 0
    ensures |fixed| == 3
  {
    [(ACTIVE, ActiveShape(numBlocks)), (CARRY, CarryShape(numBlocks)), (CHAIN, ChainShape(numBlocks))]
  }

  function CarryProduct(i: nat): Product {
    Product(Col(CARRY), Sum(Next(H_OUT + i), Col(H_OUT + i)))
  }

  function ChainProduct(i: nat): Product {
    Product(Col(CHAIN), Sum(Next(H_IN + i), Col(H_OUT + i)))
  }

  /** The carry and the chain of each state word in turn. */
  function StateProducts(upto: nat): seq<Product> {
    seq(2 * upto, k requires 0 <= k < 2 * upto => if k % 2 == 0 then CarryProduct(k / 2) else ChainProduct(k / 2))
  }

  /** Boundary cells that spell words from a column on. */
  function WordBoundaries(words: seq<Word>, column: nat, row: nat, upto: nat): seq<Boundary>
    requires upto <= |words|
  {
    seq(upto, i requires 0 <= i < upto => Boundary(column + i, row, Embed(words[i])))
  }

  function PublishedCell(numBlocks: nat, i: nat): (nat, nat)
    requires numBlocks > 0
  {
    (H_OUT + i, FirstRow(numBlocks - 1))
  }

  function Published(numBlocks: nat, upto: nat): seq<(nat, nat)>
    requires numBlocks > 0
  {
    seq(upto, i requires 0 <= i < upto => PublishedCell(numBlocks, i))
  }

  /** The circuit of a statement, as data. */
  function ProgramFor(rows: nat, numBlocks: nat, messageLen: nat): Program
    requires numBlocks > 0
  {
    Program(
      rows,
      Layout(),
      FixedColumns(numBlocks),
      WordBoundaries(Iv(), H_IN, 0, STATE_WORDS)
      + WordBoundaries(PaddingBlock(messageLen), MSG, FirstRow(numBlocks - 1), BLOCK_WORDS),
      StateProducts(STATE_WORDS),
      Published(numBlocks, STATE_WORDS),
      [BlockService()],
      [Chiplet(rows, numBlocks)])
  }

  /** The hash value, the block and the output, passed on the active rows. */
  function BlockService(): Service {
    Service(ColumnRange(H_IN, BLOCK_COLUMNS), ACTIVE)
  }

  method RequireWords(cx: Circuit, words: seq<Word>, column: nat, row: nat)
    modifies cx
    ensures cx.State()
            == old(cx.State()).(boundaries := old(cx.boundaries) + WordBoundaries(words, column, row, |words|))
  {
    hide Embed;
    for i := 0 to |words|
      invariant cx.State() == old(cx.State()).(boundaries := old(cx.boundaries) + WordBoundaries(words, column, row, i))
    {
      cx.BoundaryAt(column + i, row, Embed(words[i]));
      assert WordBoundaries(words, column, row, i + 1)
          == WordBoundaries(words, column, row, i) + [Boundary(column + i, row, Embed(words[i]))];
    }
  }

  method ChainState(cx: Circuit, carry: nat, chain: nat)
    requires carry == CARRY && chain == CHAIN && cx.products == []
    modifies cx
    ensures cx.State() == old(cx.State()).(products := StateProducts(STATE_WORDS))
  {
    for i := 0 to STATE_WORDS
      invariant cx.State() == old(cx.State()).(products := StateProducts(i))
    {
      cx.AssertZeroWhen(Col(carry), Sum(Next(H_OUT + i), Col(H_OUT + i)));
      cx.AssertZeroWhen(Col(chain), Sum(Next(H_IN + i), Col(H_OUT + i)));
      assert StateProducts(i + 1) == StateProducts(i) + [CarryProduct(i)] + [ChainProduct(i)];
    }
  }

  method PublishDigest(cx: Circuit, numBlocks: nat)
    requires numBlocks > 0 && cx.published == []
    modifies cx
    ensures cx.State() == old(cx.State()).(published := Published(numBlocks, STATE_WORDS))
  {
    for i := 0 to STATE_WORDS
      invariant cx.State() == old(cx.State()).(published := Published(numBlocks, i))
    {
      cx.Publish(H_OUT + i, FirstRow(numBlocks - 1));
    }
  }

  method DeclareColumns(cx: Circuit, numBlocks: nat) returns (carry: nat, chain: nat)
    requires numBlocks > 0 && cx.columns == [] && cx.fixed == [] && cx.services == []
    modifies cx
    ensures carry == CARRY && chain == CHAIN
    ensures cx.State() == old(cx.State()).(columns := Layout(), fixed := FixedColumns(numBlocks),
                                           services := [BlockService()])
  {
    hide ActiveShape, CarryShape, ChainShape;
    var block := cx.Schema(seq(BLOCK_COLUMNS, _ => B32));
    var active := cx.Column(Bit);
    carry := cx.Column(Bit);
    chain := cx.Column(Bit);
    assert cx.columns == Layout();
    cx.Call(ColumnRange(block, BLOCK_COLUMNS), active);
    cx.Fix(active, ActiveShape(numBlocks));
    cx.Fix(carry, CarryShape(numBlocks));
    cx.Fix(chain, ChainShape(numBlocks));
  }

  method BuildProgram(rows: nat, numBlocks: nat, messageLen: nat) returns (program: Program)
    requires numBlocks > 0
    ensures program == ProgramFor(rows, numBlocks, messageLen)
  {
    hide Iv, PaddingBlock, Embed;
    hide ActiveShape, CarryShape, ChainShape, Layout;
    var cx := new Circuit(rows);
    var carry, chain := DeclareColumns(cx, numBlocks);
    RequireWords(cx, Iv(), H_IN, 0);
    ChainState(cx, carry, chain);
    var padding := BuildPaddingBlock(messageLen);
    RequireWords(cx, padding[..], MSG, FirstRow(numBlocks - 1));
    PublishDigest(cx, numBlocks);
    cx.Mount(Chiplet(rows, numBlocks));
    program := cx.State();
  }

  predicate IsActiveRow(numBlocks: nat, r: nat) {
    r < ROWS_PER_BLOCK * numBlocks && r % ROWS_PER_BLOCK == 0
  }

  predicate IsCarryRow(numBlocks: nat, r: nat) {
    r < ROWS_PER_BLOCK * numBlocks && r % ROWS_PER_BLOCK != ROWS_PER_BLOCK - 1
  }

  predicate IsChainRow(numBlocks: nat, r: nat)
    requires numBlocks > 0
  {
    r < ROWS_PER_BLOCK * (numBlocks - 1) && r % ROWS_PER_BLOCK == ROWS_PER_BLOCK - 1
  }

  ghost predicate GatesAreFixed(t: Table, numBlocks: nat)
    requires numBlocks > 0 && Wide(t, WIDTH)
  {
    forall r :: 0 <= r < |t| ==>
      && t[r][ACTIVE] == Flag(IsActiveRow(numBlocks, r))
      && t[r][CARRY] == Flag(IsCarryRow(numBlocks, r))
      && t[r][CHAIN] == Flag(IsChainRow(numBlocks, r))
  }

  function InCells(row: Row): (cells: seq<Cell>)
    requires |row| == WIDTH
    ensures |cells| == STATE_WORDS && forall i :: 0 <= i < STATE_WORDS ==> cells[i] == row[H_IN + i]
  {
    row[H_IN..H_IN + STATE_WORDS]
  }

  function MsgCells(row: Row): (cells: seq<Cell>)
    requires |row| == WIDTH
    ensures |cells| == BLOCK_WORDS && forall i :: 0 <= i < BLOCK_WORDS ==> cells[i] == row[MSG + i]
  {
    row[MSG..MSG + BLOCK_WORDS]
  }

  function OutCells(row: Row): (cells: seq<Cell>)
    requires |row| == WIDTH
    ensures |cells| == STATE_WORDS && forall i :: 0 <= i < STATE_WORDS ==> cells[i] == row[H_OUT + i]
  {
    row[H_OUT..H_OUT + STATE_WORDS]
  }

  /** The output words stay the same over the rows of a block. */
  ghost predicate OutputIsHeld(t: Table, numBlocks: nat)
    requires |t| >= ROWS_PER_BLOCK * numBlocks && Wide(t, WIDTH)
  {
    forall r :: 0 <= r < |t| - 1 && IsCarryRow(numBlocks, r) ==> OutCells(t[r + 1]) == OutCells(t[r])
  }

  /** The last row of every block but the last hands its output to the next block. */
  ghost predicate BlocksAreChained(t: Table, numBlocks: nat)
    requires numBlocks > 0 && |t| >= ROWS_PER_BLOCK * numBlocks && Wide(t, WIDTH)
  {
    forall r :: 0 <= r < |t| - 1 && IsChainRow(numBlocks, r) ==> InCells(t[r + 1]) == OutCells(t[r])
  }

  ghost predicate SpellsWords(row: Row, column: nat, words: seq<Word>)
    requires column + |words| <= |row|
  {
    forall i :: 0 <= i < |words| ==> row[column + i] == Embed(words[i])
  }

  ghost predicate DigestIsPublished(t: Table, numBlocks: nat, public: seq<Cell>)
    requires numBlocks > 0 && |t| >= ROWS_PER_BLOCK * numBlocks && Wide(t, WIDTH)
  {
    public == OutCells(t[FirstRow(numBlocks - 1)])
  }

  /** What the circuit says of a table, row by row. */
  ghost predicate RowEquations(t: Table, rows: nat, numBlocks: nat, messageLen: nat, public: seq<Cell>)
    requires numBlocks > 0 && rows >= ROWS_PER_BLOCK * numBlocks
  {
    && Shaped(t, rows, Layout())
    && GatesAreFixed(t, numBlocks)
    && OutputIsHeld(t, numBlocks)
    && BlocksAreChained(t, numBlocks)
    && SpellsWords(t[0], H_IN, Iv())
    && SpellsWords(t[FirstRow(numBlocks - 1)], MSG, PaddingBlock(messageLen))
    && DigestIsPublished(t, numBlocks, public)
  }

  lemma ShapesAt(numBlocks: nat, r: nat)
    requires numBlocks > 0
    ensures ShapeAt(ActiveShape(numBlocks), r) == Flag(IsActiveRow(numBlocks, r))
    ensures ShapeAt(CarryShape(numBlocks), r) == Flag(IsCarryRow(numBlocks, r))
    ensures ShapeAt(ChainShape(numBlocks), r) == Flag(IsChainRow(numBlocks, r))
  {}

  lemma FixedMeaning(t: Table, numBlocks: nat)
    requires numBlocks > 0 && Wide(t, WIDTH)
    ensures FixedHold(FixedColumns(numBlocks), t, WIDTH) <==> GatesAreFixed(t, numBlocks)
  {
    hide ShapeAt;
    var fixed := FixedColumns(numBlocks);
    forall r | 0 <= r < |t|
      ensures (forall i :: 0 <= i < |fixed| ==> t[r][fixed[i].0] == ShapeAt(fixed[i].1, r))
              <==> (&& t[r][ACTIVE] == Flag(IsActiveRow(numBlocks, r))
                    && t[r][CARRY] == Flag(IsCarryRow(numBlocks, r))
                    && t[r][CHAIN] == Flag(IsChainRow(numBlocks, r)))
    {
      ShapesAt(numBlocks, r);
      assert fixed[0].0 == ACTIVE && fixed[1].0 == CARRY && fixed[2].0 == CHAIN;
    }
  }

  lemma StateProductsIn()
    ensures ProductsIn(StateProducts(STATE_WORDS), WIDTH)
  {
    var qs := StateProducts(STATE_WORDS);
    forall k | 0 <= k < |qs|
      ensures ProductIn(qs[k], WIDTH)
    {
      EqualityIn(CARRY, H_OUT + k / 2, H_OUT + k / 2, WIDTH);
      EqualityIn(CHAIN, H_IN + k / 2, H_OUT + k / 2, WIDTH);
    }
  }

  ghost predicate HoldsEverywhere(q: Product, t: Table, edge: Edge)
    requires Wide(t, WIDTH) && ProductIn(q, WIDTH)
  {
    forall r :: 0 <= r < |t| ==> ProductHolds(q, t, r, WIDTH, edge)
  }

  ghost predicate WordIsHeld(t: Table, numBlocks: nat, i: nat)
    requires Wide(t, WIDTH) && i < STATE_WORDS
  {
    forall r :: 0 <= r < |t| - 1 && IsCarryRow(numBlocks, r) ==> t[r + 1][H_OUT + i] == t[r][H_OUT + i]
  }

  ghost predicate WordIsChained(t: Table, numBlocks: nat, i: nat)
    requires numBlocks > 0 && Wide(t, WIDTH) && i < STATE_WORDS
  {
    forall r :: 0 <= r < |t| - 1 && IsChainRow(numBlocks, r) ==> t[r + 1][H_IN + i] == t[r][H_OUT + i]
  }

  /** The gates are off on the last row even when the blocks fill the table. */
  lemma StateProductMeaning(t: Table, numBlocks: nat, edge: Edge, i: nat)
    requires numBlocks > 0 && |t| >= ROWS_PER_BLOCK * numBlocks && Wide(t, WIDTH)
    requires GatesAreFixed(t, numBlocks) && i < STATE_WORDS
    ensures ProductIn(CarryProduct(i), WIDTH) && ProductIn(ChainProduct(i), WIDTH)
    ensures HoldsEverywhere(CarryProduct(i), t, edge) <==> WordIsHeld(t, numBlocks, i)
    ensures HoldsEverywhere(ChainProduct(i), t, edge) <==> WordIsChained(t, numBlocks, i)
  {
    assert !IsCarryRow(numBlocks, |t| - 1) && !IsChainRow(numBlocks, |t| - 1);
    hide ProductHolds, ProductIn, IsCarryRow, IsChainRow, IsActiveRow;
    GatedEqualityRows(CarryProduct(i), t, WIDTH, edge, CARRY, H_OUT + i, H_OUT + i);
    GatedEqualityRows(ChainProduct(i), t, WIDTH, edge, CHAIN, H_IN + i, H_OUT + i);
  }

  lemma HeldWordByWord(t: Table, numBlocks: nat)
    requires numBlocks > 0 && |t| >= ROWS_PER_BLOCK * numBlocks && Wide(t, WIDTH)
    ensures OutputIsHeld(t, numBlocks) <==> forall i :: 0 <= i < STATE_WORDS ==> WordIsHeld(t, numBlocks, i)
  {
    hide IsCarryRow, InCells, OutCells;
    if OutputIsHeld(t, numBlocks) {
      forall i | 0 <= i < STATE_WORDS
        ensures WordIsHeld(t, numBlocks, i)
      {
        forall r | 0 <= r < |t| - 1 && IsCarryRow(numBlocks, r)
          ensures t[r + 1][H_OUT + i] == t[r][H_OUT + i]
        {
          assert OutCells(t[r + 1])[i] == OutCells(t[r])[i];
        }
      }
    }
    if forall i :: 0 <= i < STATE_WORDS ==> WordIsHeld(t, numBlocks, i) {
      forall r | 0 <= r < |t| - 1 && IsCarryRow(numBlocks, r)
        ensures OutCells(t[r + 1]) == OutCells(t[r])
      {
        forall i | 0 <= i < STATE_WORDS
          ensures OutCells(t[r + 1])[i] == OutCells(t[r])[i]
        {
          assert WordIsHeld(t, numBlocks, i);
        }
      }
    }
  }

  lemma ChainedWordByWord(t: Table, numBlocks: nat)
    requires numBlocks > 0 && |t| >= ROWS_PER_BLOCK * numBlocks && Wide(t, WIDTH)
    ensures BlocksAreChained(t, numBlocks) <==> forall i :: 0 <= i < STATE_WORDS ==> WordIsChained(t, numBlocks, i)
  {
    hide IsChainRow, InCells, OutCells;
    if BlocksAreChained(t, numBlocks) {
      forall i | 0 <= i < STATE_WORDS
        ensures WordIsChained(t, numBlocks, i)
      {
        forall r | 0 <= r < |t| - 1 && IsChainRow(numBlocks, r)
          ensures t[r + 1][H_IN + i] == t[r][H_OUT + i]
        {
          assert InCells(t[r + 1])[i] == OutCells(t[r])[i];
        }
      }
    }
    if forall i :: 0 <= i < STATE_WORDS ==> WordIsChained(t, numBlocks, i) {
      forall r | 0 <= r < |t| - 1 && IsChainRow(numBlocks, r)
        ensures InCells(t[r + 1]) == OutCells(t[r])
      {
        forall i | 0 <= i < STATE_WORDS
          ensures InCells(t[r + 1])[i] == OutCells(t[r])[i]
        {
          assert WordIsChained(t, numBlocks, i);
        }
      }
    }
  }

  lemma StateProductsMeaning(t: Table, numBlocks: nat, edge: Edge)
    requires numBlocks > 0 && |t| >= ROWS_PER_BLOCK * numBlocks && Wide(t, WIDTH)
    requires GatesAreFixed(t, numBlocks) && ProductsIn(StateProducts(STATE_WORDS), WIDTH)
    ensures ProductsHold(StateProducts(STATE_WORDS), t, WIDTH, edge)
            <==> OutputIsHeld(t, numBlocks) && BlocksAreChained(t, numBlocks)
  {
    hide ProductHolds, ProductIn, WordIsHeld, WordIsChained, GatesAreFixed, OutputIsHeld, BlocksAreChained;
    var qs := StateProducts(STATE_WORDS);
    HeldWordByWord(t, numBlocks);
    ChainedWordByWord(t, numBlocks);
    forall i | 0 <= i < STATE_WORDS
      ensures HoldsEverywhere(qs[2 * i], t, edge) <==> WordIsHeld(t, numBlocks, i)
      ensures HoldsEverywhere(qs[2 * i + 1], t, edge) <==> WordIsChained(t, numBlocks, i)
    {
      StateProductMeaning(t, numBlocks, edge, i);
    }
    if ProductsHold(qs, t, WIDTH, edge) {
      forall i | 0 <= i < STATE_WORDS
        ensures WordIsHeld(t, numBlocks, i) && WordIsChained(t, numBlocks, i)
      {
        assert HoldsEverywhere(qs[2 * i], t, edge) && HoldsEverywhere(qs[2 * i + 1], t, edge);
      }
    }
    if OutputIsHeld(t, numBlocks) && BlocksAreChained(t, numBlocks) {
      forall k, r | 0 <= k < |qs| && 0 <= r < |t|
        ensures ProductHolds(qs[k], t, r, WIDTH, edge)
      {
        var i := k / 2;
        assert WordIsHeld(t, numBlocks, i) && WordIsChained(t, numBlocks, i);
        assert HoldsEverywhere(qs[2 * i], t, edge) && HoldsEverywhere(qs[2 * i + 1], t, edge);
        assert k == 2 * i || k == 2 * i + 1;
      }
    }
  }

  lemma WordBoundariesMeaning(t: Table, words: seq<Word>, column: nat, row: nat)
    requires row < |t| && Wide(t, WIDTH) && column + |words| <= WIDTH
    ensures BoundariesIn(WordBoundaries(words, column, row, |words|), WIDTH, |t|)
    ensures BoundariesHold(WordBoundaries(words, column, row, |words|), t, WIDTH)
            <==> SpellsWords(t[row], column, words)
  {
    hide Embed;
    var bs := WordBoundaries(words, column, row, |words|);
    if BoundariesHold(bs, t, WIDTH) {
      forall i | 0 <= i < |words|
        ensures t[row][column + i] == Embed(words[i])
      {
        assert t[bs[i].row][bs[i].column] == bs[i].value;
      }
    }
  }

  lemma PublishedMeaning(t: Table, numBlocks: nat, public: seq<Cell>)
    requires numBlocks > 0 && |t| >= ROWS_PER_BLOCK * numBlocks && Wide(t, WIDTH)
    ensures var cells := Published(numBlocks, STATE_WORDS);
            (&& |public| == |cells|
             && (forall i :: 0 <= i < |public| ==> public[i] == t[cells[i].1][cells[i].0]))
            <==> DigestIsPublished(t, numBlocks, public)
  {
    var cells := Published(numBlocks, STATE_WORDS);
    assert forall i :: 0 <= i < STATE_WORDS ==>
      t[cells[i].1][cells[i].0] == OutCells(t[FirstRow(numBlocks - 1)])[i];
  }

  lemma ProgramIsWellFormed(rows: nat, numBlocks: nat, messageLen: nat)
    requires numBlocks > 0 && rows >= ROWS_PER_BLOCK * numBlocks
    ensures WellFormed(ProgramFor(rows, numBlocks, messageLen))
  {
    hide ProductIn, Iv, PaddingBlock, Embed;
    StateProductsIn();
    var p := ProgramFor(rows, numBlocks, messageLen);
    var first := WordBoundaries(Iv(), H_IN, 0, STATE_WORDS);
    assert forall k :: 0 <= k < |first| ==> p.boundaries[k] == first[k];
  }

  /** The compiled circuit says exactly the row equations, whatever a gate means on the last row. */
  lemma CircuitMeaning(t: Table, rows: nat, numBlocks: nat, messageLen: nat, public: seq<Cell>, edge: Edge)
    requires numBlocks > 0 && rows >= ROWS_PER_BLOCK * numBlocks
    ensures WellFormed(ProgramFor(rows, numBlocks, messageLen))
    ensures Satisfies(ProgramFor(rows, numBlocks, messageLen), t, public, edge)
            <==> RowEquations(t, rows, numBlocks, messageLen, public)
  {
    hide ProductsHold, BoundariesHold, FixedHold, ProductsIn, BoundariesIn, OutputIsHeld, BlocksAreChained;
    hide Iv, PaddingBlock, Embed, SpellsWords, GatesAreFixed;
    ProgramIsWellFormed(rows, numBlocks, messageLen);
    if Shaped(t, rows, Layout()) {
      var last := FirstRow(numBlocks - 1);
      FixedMeaning(t, numBlocks);
      PublishedMeaning(t, numBlocks, public);
      WordBoundariesMeaning(t, Iv(), H_IN, 0);
      WordBoundariesMeaning(t, PaddingBlock(messageLen), MSG, last);
      BoundariesHoldConcat(WordBoundaries(Iv(), H_IN, 0, STATE_WORDS),
                           WordBoundaries(PaddingBlock(messageLen), MSG, last, BLOCK_WORDS), t, WIDTH);
      StateProductsIn();
      if GatesAreFixed(t, numBlocks) {
        StateProductsMeaning(t, numBlocks, edge);
      }
    }
  }
}
