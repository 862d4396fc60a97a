/** The Keccak-256 preimage circuit: how it is built, and what a table that satisfies it says. */
module KeccakCircuit {
  import opened Bytes
  import opened Circuits
  import opened KeccakRows
  import opened KeccakSponge

  const MIN_ROWS: nat := 256

  const SELECTOR: nat := STATE_LANES
  const NUM_COLUMNS: nat := STATE_LANES + 1
  const OUT_GATE: nat := NUM_COLUMNS
  const PAD_SEAM: nat := NUM_COLUMNS + 1
  const WIDTH: nat := NUM_COLUMNS + 2

  function CpuLayout(): (kinds: seq<ColumnType>)
    ensures |kinds| == NUM_COLUMNS
  {
    seq(STATE_LANES, _ => B64) + [Bit]
  }

  function Layout(): (kinds: seq<ColumnType>)
    ensures |kinds| == WIDTH
  {
    CpuLayout() + [Bit, Bit]
  }

  function SelectorShape(h: Height, numBlocks: nat): Shape {
    Cadence(h, numBlocks, seq(h, i => if i == 0 || i == h - 1 then 1 else 0))
  }

  function OutputShape(h: Height, numBlocks: nat): Shape {
    Cadence(h, numBlocks, seq(h, i => if i == h - 1 then 1 else 0))
  }

  function SeamShape(h: Height, numBlocks: nat): Shape {
    Sparse(if numBlocks > 1 then [(PadSeamRow(h, numBlocks), 1)] else [])
  }

  function FixedColumns(h: Height, numBlocks: nat): (fixed: seq<(nat, Shape)>)
    ensures |fixed| == 3
  {
    [(SELECTOR, SelectorShape(h, numBlocks)), (OUT_GATE, OutputShape(h, numBlocks)),
     (PAD_SEAM, SeamShape(h, numBlocks))]
  }

  function CarryProducts(upto: nat): seq<Product> {
    seq(upto, i requires 0 <= i < upto =>
      Product(Col(OUT_GATE), Sum(Next(RATE_LANES + i), Col(RATE_LANES + i))))
  }

  function SeamProducts(messageLen: nat, upto: nat): seq<Product> {
    var first := FirstPadLane(messageLen);
    seq(upto, k requires 0 <= k < upto =>
      Product(Col(PAD_SEAM), Sum(Sum(Next(first + k), Col(first + k)), Const(PadLane(messageLen, first + k)))))
  }

  function CapacityBoundaries(upto: nat): seq<Boundary> {
    seq(upto, i requires 0 <= i < upto => Boundary(RATE_LANES + i, 0, 0))
  }

  function PadBoundaries(messageLen: nat, upto: nat): seq<Boundary> {
    var first := FirstPadLane(messageLen);
    seq(upto, k requires 0 <= k < upto => Boundary(first + k, 0, PadLane(messageLen, first + k)))
  }

  function Published(h: Height, numBlocks: nat, upto: nat): seq<(nat, nat)>
    requires numBlocks > 0
  {
    var lastOutput: nat := InputRow(h, numBlocks) - 1;
    seq(upto, i requires 0 <= i < upto => (i, lastOutput))
  }

  /** The circuit of a statement, as data. */
  function ProgramFor(h: Height, rows: nat, numBlocks: nat, messageLen: nat): Program
    requires numBlocks > 0
  {
    var pads := RATE_LANES - FirstPadLane(messageLen);
    Program(
      rows,
      Layout(),
      FixedColumns(h, numBlocks),
      CapacityBoundaries(STATE_LANES - RATE_LANES) + (if numBlocks == 1 then PadBoundaries(messageLen, pads) else []),
      CarryProducts(STATE_LANES - RATE_LANES) + (if numBlocks == 1 then [] else SeamProducts(messageLen, pads)),
      Published(h, numBlocks, DIGEST_LANES),
      [PermutationService()],
      [Chiplet(rows, numBlocks)])
  }

  /** The lanes of a state, passed on the service rows. */
  function PermutationService(): Service {
    Service(ColumnRange(0, STATE_LANES), SELECTOR)
  }

  method RequireZeroCapacity(cx: Circuit, cpu: nat)
    requires cpu == 0 && cx.boundaries == []
    modifies cx
    ensures cx.State() == old(cx.State()).(boundaries := CapacityBoundaries(STATE_LANES - RATE_LANES))
  {
    for i := RATE_LANES to STATE_LANES
      invariant cx.State() == old(cx.State()).(boundaries := CapacityBoundaries(i - RATE_LANES))
    {
      cx.BoundaryAt(cpu + i, 0, 0);
    }
  }

  method CarryCapacity(cx: Circuit, cpu: nat, emitOutput: nat)
    requires cpu == 0 && emitOutput == OUT_GATE && cx.products == []
    modifies cx
    ensures cx.State() == old(cx.State()).(products := CarryProducts(STATE_LANES - RATE_LANES))
  {
    for i := RATE_LANES to STATE_LANES
      invariant cx.State() == old(cx.State()).(products := CarryProducts(i - RATE_LANES))
    {
      cx.AssertZeroWhen(Col(emitOutput), Sum(Next(cpu + i), Col(cpu + i)));
    }
  }

  method RequirePadding(cx: Circuit, cpu: nat, seam: nat, numBlocks: nat, messageLen: nat)
    requires cpu == 0 && seam == PAD_SEAM
    modifies cx
    ensures var pads := RATE_LANES - FirstPadLane(messageLen);
            cx.State() == if numBlocks == 1
                          then old(cx.State()).(boundaries := old(cx.boundaries) + PadBoundaries(messageLen, pads))
                          else old(cx.State()).(products := old(cx.products) + SeamProducts(messageLen, pads))
  {
    hide Xor, PadLane;
    var first := FirstPadLane(messageLen);
    if numBlocks == 1 {
      for i := first to RATE_LANES
        invariant cx.State()
               == old(cx.State()).(boundaries := old(cx.boundaries) + PadBoundaries(messageLen, i - first))
      {
        cx.BoundaryAt(cpu + i, 0, PadLane(messageLen, i));
        assert PadBoundaries(messageLen, i + 1 - first)
            == PadBoundaries(messageLen, i - first) + [Boundary(i, 0, PadLane(messageLen, i))];
      }
    } else {
      for i := first to RATE_LANES
        invariant cx.State() == old(cx.State()).(products := old(cx.products) + SeamProducts(messageLen, i - first))
      {
        var value := PadLane(messageLen, i);
        cx.AssertZeroWhen(Col(seam), Sum(Sum(Next(cpu + i), Col(cpu + i)), Const(value)));
        assert SeamProducts(messageLen, i + 1 - first)
            == SeamProducts(messageLen, i - first) + [Product(Col(seam), Sum(Sum(Next(i), Col(i)), Const(value)))];
      }
    }
  }

  method PublishDigest(h: Height, cx: Circuit, cpu: nat, numBlocks: nat)
    requires cpu == 0 && numBlocks > 0 && cx.published == []
    modifies cx
    ensures cx.State() == old(cx.State()).(published := Published(h, numBlocks, DIGEST_LANES))
  {
    for i := 0 to DIGEST_LANES
      invariant cx.State() == old(cx.State()).(published := Published(h, numBlocks, i))
    {
      cx.Publish(cpu + i, InputRow(h, numBlocks) - 1);
    }
  }

  method DeclareColumns(h: Height, cx: Circuit, numBlocks: nat) returns (cpu: nat, emitOutput: nat, seam: nat)
    requires numBlocks > 0 && cx.columns == [] && cx.fixed == [] && cx.services == [] && cx.chiplets == []
    modifies cx
    ensures cpu == 0 && emitOutput == OUT_GATE && seam == PAD_SEAM
    ensures cx.State() == old(cx.State()).(columns := Layout(), fixed := FixedColumns(h, numBlocks),
                                           services := [PermutationService()],
                                           chiplets := [Chiplet(cx.rows, numBlocks)])
  {
    hide SelectorShape, OutputShape, SeamShape;
    cpu := cx.Schema(CpuLayout());
    cx.Call(ColumnRange(cpu, STATE_LANES), SELECTOR);
    cx.Fix(SELECTOR, SelectorShape(h, numBlocks));
    emitOutput := cx.Column(Bit);
    cx.Fix(emitOutput, OutputShape(h, numBlocks));
    seam := cx.Column(Bit);
    cx.Fix(seam, SeamShape(h, numBlocks));
    cx.Mount(Chiplet(cx.rows, numBlocks));
    assert cx.columns == Layout();
  }

  method BuildProgram(h: Height, rows: nat, numBlocks: nat, messageLen: nat) returns (program: Program)
    requires numBlocks > 0
    ensures program == ProgramFor(h, rows, numBlocks, messageLen)
  {
    hide FixedColumns, Layout, PadLane;
    var cx := new Circuit(rows);
    var cpu, emitOutput, seam := DeclareColumns(h, cx, numBlocks);
    RequireZeroCapacity(cx, cpu);
    CarryCapacity(cx, cpu, emitOutput);
    RequirePadding(cx, cpu, seam, numBlocks, messageLen);
    PublishDigest(h, cx, cpu, numBlocks);
    program := cx.State();
  }

  predicate IsServiceRow(h: Height, numBlocks: nat, r: nat) {
    r < InputRow(h, numBlocks) && (r % h == 0 || r % h == h - 1)
  }

  predicate IsOutputRow(h: Height, numBlocks: nat, r: nat) {
    r < InputRow(h, numBlocks) && r % h == h - 1
  }

  predicate IsSeamRow(h: Height, numBlocks: nat, r: nat) {
    numBlocks > 1 && r == PadSeamRow(h, numBlocks)
  }

  ghost predicate GatesAreFixed(h: Height, t: Table, numBlocks: nat)
    requires Wide(t, WIDTH)
  {
    forall r :: 0 <= r < |t| ==>
      && t[r][SELECTOR] == Flag(IsServiceRow(h, numBlocks, r))
      && t[r][OUT_GATE] == Flag(IsOutputRow(h, numBlocks, r))
      && t[r][PAD_SEAM] == Flag(IsSeamRow(h, numBlocks, r))
  }

  /** The capacity starts at zero and is carried from every output row to the row after it. */
  ghost predicate CapacityIsChained(h: Height, t: Table, numBlocks: nat)
    requires |t| > InputRow(h, numBlocks) && Wide(t, WIDTH)
  {
    && (forall i :: RATE_LANES <= i < STATE_LANES ==> t[0][i] == 0)
    && CapacityIsCarried(h, t, numBlocks)
  }

  ghost predicate CapacityIsCarried(h: Height, t: Table, numBlocks: nat)
    requires |t| > InputRow(h, numBlocks) && Wide(t, WIDTH)
  {
    forall b, i :: 0 <= b < numBlocks && RATE_LANES <= i < STATE_LANES ==>
      (BlockFits(h, b, numBlocks); t[OutputRow(h, b) + 1][i] == t[OutputRow(h, b)][i])
  }

  /** Lane i of what block b absorbs: its input row less the output row before it. */
  function AbsorbedLane(h: Height, t: Table, b: nat, i: nat): Lane
    requires InputRow(h, b) < |t| && i < |t[InputRow(h, b)]|
    requires b > 0 ==> i < |t[InputRow(h, b) - 1]|
  {
    if b == 0 then t[0][i] else Xor(t[InputRow(h, b)][i], t[InputRow(h, b) - 1][i])
  }

  /** The last absorbed block ends in the padding of a message of this length. */
  ghost predicate LastBlockIsPadded(h: Height, t: Table, numBlocks: nat, messageLen: nat)
    requires numBlocks > 0 && |t| > InputRow(h, numBlocks) && Wide(t, WIDTH)
  {
    BlockFits(h, numBlocks - 1, numBlocks);
    forall i :: FirstPadLane(messageLen) <= i < RATE_LANES ==>
      AbsorbedLane(h, t, numBlocks - 1, i) == PadLane(messageLen, i)
  }

  ghost predicate DigestIsPublished(h: Height, t: Table, numBlocks: nat, public: seq<Cell>)
    requires numBlocks > 0 && |t| > InputRow(h, numBlocks) && Wide(t, WIDTH)
  {
    BlockFits(h, numBlocks - 1, numBlocks);
    public == t[OutputRow(h, numBlocks - 1)][..DIGEST_LANES]
  }

  /** What the circuit says of a table, row by row. */
  ghost predicate RowEquations(h: Height, t: Table, rows: nat, numBlocks: nat, messageLen: nat, public: seq<Cell>)
    requires numBlocks > 0 && rows > InputRow(h, numBlocks)
  {
    && Shaped(t, rows, Layout())
    && GatesAreFixed(h, t, numBlocks)
    && CapacityIsChained(h, t, numBlocks)
    && LastBlockIsPadded(h, t, numBlocks, messageLen)
    && DigestIsPublished(h, t, numBlocks, public)
  }

  lemma ServiceRowsOfBlock(h: Height, numBlocks: nat, b: nat)
    requires b < numBlocks
    ensures IsServiceRow(h, numBlocks, InputRow(h, b)) && !IsOutputRow(h, numBlocks, InputRow(h, b))
    ensures IsServiceRow(h, numBlocks, OutputRow(h, b)) && IsOutputRow(h, numBlocks, OutputRow(h, b))
    ensures InputRow(h, b) / h == OutputRow(h, b) / h == b
  {
    BlockFits(h, b, numBlocks);
    RowInBlock(h, b, 0);
    RowInBlock(h, b, h - 1);
  }

  lemma BlockOfOutputRow(h: Height, numBlocks: nat, r: nat)
    requires IsOutputRow(h, numBlocks, r)
    ensures r / h < numBlocks && r == OutputRow(h, r / h)
  {
    RowsBefore(h, r, numBlocks);
    BlockOfRow(h, r);
  }

  lemma ShapesAt(h: Height, numBlocks: nat, r: nat)
    requires numBlocks > 0
    ensures ShapeAt(SelectorShape(h, numBlocks), r) == Flag(IsServiceRow(h, numBlocks, r))
    ensures ShapeAt(OutputShape(h, numBlocks), r) == Flag(IsOutputRow(h, numBlocks, r))
    ensures ShapeAt(SeamShape(h, numBlocks), r) == Flag(IsSeamRow(h, numBlocks, r))
  {
    hide InputRow;
    RowsBefore(h, r, numBlocks);
    BlockOfRow(h, r);
    SeamShapeAt(h, numBlocks, r);
  }

  lemma SeamShapeAt(h: Height, numBlocks: nat, r: nat)
    ensures ShapeAt(SeamShape(h, numBlocks), r) == Flag(IsSeamRow(h, numBlocks, r))
  {
    hide PadSeamRow;
    if numBlocks > 1 {
      var entries := SeamShape(h, numBlocks).entries;
      assert entries == [(PadSeamRow(h, numBlocks), 1)] && entries[1..] == [];
      assert SparseAt(entries, r) == if r == PadSeamRow(h, numBlocks) then 1 else SparseAt([], r);
    }
  }

  lemma FixedMeaning(h: Height, t: Table, numBlocks: nat)
    requires numBlocks > 0 && Wide(t, WIDTH)
    ensures FixedHold(FixedColumns(h, numBlocks), t, WIDTH) <==> GatesAreFixed(h, t, numBlocks)
  {
    hide ShapeAt;
    var fixed := FixedColumns(h, numBlocks);
    forall r | 0 <= r < |t|
      ensures (forall i :: 0 <= i < |fixed| ==> t[r][fixed[i].0] == ShapeAt(fixed[i].1, r))
              <==> (&& t[r][SELECTOR] == Flag(IsServiceRow(h, numBlocks, r))
                    && t[r][OUT_GATE] == Flag(IsOutputRow(h, numBlocks, r))
                    && t[r][PAD_SEAM] == Flag(IsSeamRow(h, numBlocks, r)))
    {
      ShapesAt(h, numBlocks, r);
      assert fixed[0].0 == SELECTOR && fixed[1].0 == OUT_GATE && fixed[2].0 == PAD_SEAM;
    }
  }

  /** Carry equation k holds on a row exactly when the row is no output row or hands capacity lane k on. */
  lemma CarryProductAt(h: Height, t: Table, numBlocks: nat, edge: Edge, k: nat, r: nat)
    requires |t| > InputRow(h, numBlocks) && Wide(t, WIDTH) && r < |t|
    requires GatesAreFixed(h, t, numBlocks) && k < STATE_LANES - RATE_LANES
    ensures var i, q := RATE_LANES + k, CarryProducts(STATE_LANES - RATE_LANES)[k];
            && ProductIn(q, WIDTH)
            && (ProductHolds(q, t, r, WIDTH, edge) <==> (IsOutputRow(h, numBlocks, r) ==> t[r + 1][i] == t[r][i]))
  {
    hide ProductHolds, ProductIn, InputRow;
    var i, q := RATE_LANES + k, CarryProducts(STATE_LANES - RATE_LANES)[k];
    EqualityIn(OUT_GATE, i, i, WIDTH);
    if IsOutputRow(h, numBlocks, r) {
      GatedEquality(q, t, r, WIDTH, edge, OUT_GATE, i, i);
    } else {
      ClosedGate(q, OUT_GATE, t, r, WIDTH, edge);
    }
  }

  lemma CarriedByProducts(h: Height, t: Table, numBlocks: nat, edge: Edge, b: nat, i: nat)
    requires |t| > InputRow(h, numBlocks) && Wide(t, WIDTH) && GatesAreFixed(h, t, numBlocks)
    requires ProductsIn(CarryProducts(STATE_LANES - RATE_LANES), WIDTH)
    requires ProductsHold(CarryProducts(STATE_LANES - RATE_LANES), t, WIDTH, edge)
    requires b < numBlocks && RATE_LANES <= i < STATE_LANES
    ensures OutputRow(h, b) + 1 < |t| && t[OutputRow(h, b) + 1][i] == t[OutputRow(h, b)][i]
  {
    hide ProductHolds, ProductIn, InputRow, OutputRow, IsOutputRow, GatesAreFixed;
    BlockFits(h, b, numBlocks);
    ServiceRowsOfBlock(h, numBlocks, b);
    CarryProductAt(h, t, numBlocks, edge, i - RATE_LANES, OutputRow(h, b));
    assert ProductHolds(CarryProducts(STATE_LANES - RATE_LANES)[i - RATE_LANES], t, OutputRow(h, b), WIDTH, edge);
  }

  lemma ProductsOfCarried(h: Height, t: Table, numBlocks: nat, edge: Edge, k: nat, r: nat)
    requires |t| > InputRow(h, numBlocks) && Wide(t, WIDTH) && GatesAreFixed(h, t, numBlocks)
    requires CapacityIsCarried(h, t, numBlocks)
    requires k < STATE_LANES - RATE_LANES && r < |t|
    ensures ProductIn(CarryProducts(STATE_LANES - RATE_LANES)[k], WIDTH)
    ensures ProductHolds(CarryProducts(STATE_LANES - RATE_LANES)[k], t, r, WIDTH, edge)
  {
    hide ProductHolds, ProductIn, InputRow, OutputRow, IsOutputRow, GatesAreFixed;
    if IsOutputRow(h, numBlocks, r) {
      BlockOfOutputRow(h, numBlocks, r);
    }
    CarryProductAt(h, t, numBlocks, edge, k, r);
  }

  lemma CarryMeaning(h: Height, t: Table, numBlocks: nat, edge: Edge)
    requires |t| > InputRow(h, numBlocks) && Wide(t, WIDTH)
    requires GatesAreFixed(h, t, numBlocks)
    requires ProductsIn(CarryProducts(STATE_LANES - RATE_LANES), WIDTH)
    ensures ProductsHold(CarryProducts(STATE_LANES - RATE_LANES), t, WIDTH, edge)
            <==> CapacityIsCarried(h, t, numBlocks)
  {
    var qs := CarryProducts(STATE_LANES - RATE_LANES);
    assert |qs| == STATE_LANES - RATE_LANES;
    hide ProductHolds, ProductIn, InputRow, OutputRow, GatesAreFixed, CarryProducts;
    if ProductsHold(qs, t, WIDTH, edge) {
      forall b, i | 0 <= b < numBlocks && RATE_LANES <= i < STATE_LANES
        ensures OutputRow(h, b) + 1 < |t| && t[OutputRow(h, b) + 1][i] == t[OutputRow(h, b)][i]
      {
        CarriedByProducts(h, t, numBlocks, edge, b, i);
      }
    }
    if CapacityIsCarried(h, t, numBlocks) {
      hide CapacityIsCarried;
      forall k, r | 0 <= k < |qs| && 0 <= r < |t|
        ensures ProductHolds(qs[k], t, r, WIDTH, edge)
      {
        ProductsOfCarried(h, t, numBlocks, edge, k, r);
      }
    }
  }

  lemma CarryProductsIn()
    ensures ProductsIn(CarryProducts(STATE_LANES - RATE_LANES), WIDTH)
  {
    var qs := CarryProducts(STATE_LANES - RATE_LANES);
    forall k | 0 <= k < |qs|
      ensures ProductIn(qs[k], WIDTH)
    {
      EqualityIn(OUT_GATE, RATE_LANES + k, RATE_LANES + k, WIDTH);
    }
  }

  lemma SeamProductsIn(messageLen: nat)
    ensures ProductsIn(SeamProducts(messageLen, RATE_LANES - FirstPadLane(messageLen)), WIDTH)
  {
    hide Xor, PadLane;
    var qs := SeamProducts(messageLen, RATE_LANES - FirstPadLane(messageLen));
    forall k | 0 <= k < |qs|
      ensures ProductIn(qs[k], WIDTH)
    {
      var column := FirstPadLane(messageLen) + k;
      DifferenceIn(PAD_SEAM, column, PadLane(messageLen, column), WIDTH);
    }
  }

  /** Seam equation k holds on a row exactly when the row is not the seam or the last block has pad lane k. */
  lemma SeamProductAt(h: Height, t: Table, numBlocks: nat, messageLen: nat, edge: Edge, k: nat, r: nat)
    requires numBlocks > 1 && |t| > InputRow(h, numBlocks) && Wide(t, WIDTH) && r < |t|
    requires GatesAreFixed(h, t, numBlocks)
    requires k < RATE_LANES - FirstPadLane(messageLen) && InputRow(h, numBlocks - 1) < |t|
    ensures var i := FirstPadLane(messageLen) + k;
            var q := SeamProducts(messageLen, RATE_LANES - FirstPadLane(messageLen))[k];
            && ProductIn(q, WIDTH)
            && (ProductHolds(q, t, r, WIDTH, edge)
                <==> (r == PadSeamRow(h, numBlocks) ==> AbsorbedLane(h, t, numBlocks - 1, i) == PadLane(messageLen, i)))
  {
    hide Xor, ProductHolds, ProductIn, PadLane, FirstPadLane, InputRow;
    var i := FirstPadLane(messageLen) + k;
    var q := SeamProducts(messageLen, RATE_LANES - FirstPadLane(messageLen))[k];
    DifferenceIn(PAD_SEAM, i, PadLane(messageLen, i), WIDTH);
    if r == PadSeamRow(h, numBlocks) {
      GatedDifference(q, t, r, WIDTH, edge, PAD_SEAM, i, PadLane(messageLen, i));
    } else {
      ClosedGate(q, PAD_SEAM, t, r, WIDTH, edge);
    }
  }

  lemma SeamMeaning(h: Height, t: Table, numBlocks: nat, messageLen: nat, edge: Edge)
    requires numBlocks > 1 && |t| > InputRow(h, numBlocks) && Wide(t, WIDTH)
    requires GatesAreFixed(h, t, numBlocks)
    requires ProductsIn(SeamProducts(messageLen, RATE_LANES - FirstPadLane(messageLen)), WIDTH)
    ensures ProductsHold(SeamProducts(messageLen, RATE_LANES - FirstPadLane(messageLen)), t, WIDTH, edge)
            <==> LastBlockIsPadded(h, t, numBlocks, messageLen)
  {
    hide ProductHolds, ProductIn, PadLane, FirstPadLane, GatesAreFixed, AbsorbedLane, InputRow;
    BlockFits(h, numBlocks - 1, numBlocks);
    var first := FirstPadLane(messageLen);
    var qs := SeamProducts(messageLen, RATE_LANES - first);
    assert |qs| == RATE_LANES - first;
    hide SeamProducts;
    if ProductsHold(qs, t, WIDTH, edge) {
      forall i | first <= i < RATE_LANES
        ensures AbsorbedLane(h, t, numBlocks - 1, i) == PadLane(messageLen, i)
      {
        SeamProductAt(h, t, numBlocks, messageLen, edge, i - first, PadSeamRow(h, numBlocks));
        assert ProductHolds(qs[i - first], t, PadSeamRow(h, numBlocks), WIDTH, edge);
      }
    }
    if LastBlockIsPadded(h, t, numBlocks, messageLen) {
      forall k, r | 0 <= k < |qs| && 0 <= r < |t|
        ensures ProductHolds(qs[k], t, r, WIDTH, edge)
      {
        assert AbsorbedLane(h, t, numBlocks - 1, first + k) == PadLane(messageLen, first + k);
        SeamProductAt(h, t, numBlocks, messageLen, edge, k, r);
      }
    }
  }

  lemma CapacityMeaning(t: Table)
    requires |t| > 0 && Wide(t, WIDTH)
    ensures BoundariesHold(CapacityBoundaries(STATE_LANES - RATE_LANES), t, WIDTH)
            <==> forall i :: RATE_LANES <= i < STATE_LANES ==> t[0][i] == 0
  {
    var bs := CapacityBoundaries(STATE_LANES - RATE_LANES);
    assert forall i :: RATE_LANES <= i < STATE_LANES ==> bs[i - RATE_LANES] == Boundary(i, 0, 0);
    if BoundariesHold(bs, t, WIDTH) {
      forall i | RATE_LANES <= i < STATE_LANES
        ensures t[0][i] == 0
      {
        assert t[bs[i - RATE_LANES].row][bs[i - RATE_LANES].column] == bs[i - RATE_LANES].value;
      }
    }
  }

  lemma OneBlockMeaning(h: Height, t: Table, messageLen: nat)
    requires |t| > h && Wide(t, WIDTH)
    ensures BoundariesHold(PadBoundaries(messageLen, RATE_LANES - FirstPadLane(messageLen)), t, WIDTH)
            <==> LastBlockIsPadded(h, t, 1, messageLen)
  {
    hide Xor, PadLane, FirstPadLane;
    var first := FirstPadLane(messageLen);
    var bs := PadBoundaries(messageLen, RATE_LANES - first);
    if BoundariesHold(bs, t, WIDTH) {
      forall i | first <= i < RATE_LANES
        ensures AbsorbedLane(h, t, 0, i) == PadLane(messageLen, i)
      {
        assert bs[i - first] == Boundary(i, 0, PadLane(messageLen, i));
        assert t[bs[i - first].row][bs[i - first].column] == bs[i - first].value;
      }
    }
    if LastBlockIsPadded(h, t, 1, messageLen) {
      forall k | 0 <= k < |bs|
        ensures t[bs[k].row][bs[k].column] == bs[k].value
      {
        assert AbsorbedLane(h, t, 0, first + k) == PadLane(messageLen, first + k);
      }
    }
  }

  lemma PublishedMeaning(h: Height, t: Table, numBlocks: nat, public: seq<Cell>)
    requires numBlocks > 0 && |t| > InputRow(h, numBlocks) && Wide(t, WIDTH)
    ensures var cells := Published(h, numBlocks, DIGEST_LANES);
            (&& |public| == |cells|
             && (forall i :: 0 <= i < |public| ==> public[i] == t[cells[i].1][cells[i].0]))
            <==> DigestIsPublished(h, t, numBlocks, public)
  {
    var cells := Published(h, numBlocks, DIGEST_LANES);
    assert forall i :: 0 <= i < DIGEST_LANES ==>
      t[cells[i].1][cells[i].0] == t[OutputRow(h, numBlocks - 1)][..DIGEST_LANES][i];
  }

  lemma ProgramIsWellFormed(h: Height, rows: nat, numBlocks: nat, messageLen: nat)
    requires numBlocks > 0 && rows > InputRow(h, numBlocks)
    ensures WellFormed(ProgramFor(h, rows, numBlocks, messageLen))
  {
    hide PadLane, ProductIn;
    CarryProductsIn();
    SeamProductsIn(messageLen);
  }

  /** The compiled circuit says exactly the row equations, whatever a gate means on the last row. */
  lemma CircuitMeaning(h: Height, t: Table, rows: nat, numBlocks: nat, messageLen: nat, public: seq<Cell>, edge: Edge)
    requires numBlocks > 0 && rows > InputRow(h, numBlocks)
    ensures WellFormed(ProgramFor(h, rows, numBlocks, messageLen))
    ensures Satisfies(ProgramFor(h, rows, numBlocks, messageLen), t, public, edge)
            <==> RowEquations(h, t, rows, numBlocks, messageLen, public)
  {
    hide PadLane, FirstPadLane, ProductsHold, BoundariesHold, FixedHold, ProductsIn, BoundariesIn, ExprIn;
    ProgramIsWellFormed(h, rows, numBlocks, messageLen);
    if Shaped(t, rows, Layout()) {
      FixedMeaning(h, t, numBlocks);
      CapacityMeaning(t);
      PublishedMeaning(h, t, numBlocks, public);
      if GatesAreFixed(h, t, numBlocks) {
        ConstraintsMeaning(h, t, numBlocks, messageLen, edge);
      }
    }
  }

  lemma ConstraintsMeaning(h: Height, t: Table, numBlocks: nat, messageLen: nat, edge: Edge)
    requires numBlocks > 0 && |t| > InputRow(h, numBlocks) && Wide(t, WIDTH)
    requires GatesAreFixed(h, t, numBlocks)
    requires WellFormed(ProgramFor(h, |t|, numBlocks, messageLen))
    ensures var p := ProgramFor(h, |t|, numBlocks, messageLen);
            BoundariesHold(p.boundaries, t, WIDTH) && ProductsHold(p.products, t, WIDTH, edge)
            <==> CapacityIsChained(h, t, numBlocks) && LastBlockIsPadded(h, t, numBlocks, messageLen)
  {
    hide ProductsHold, BoundariesHold, PadLane, FirstPadLane, LastBlockIsPadded;
    var pads := RATE_LANES - FirstPadLane(messageLen);
    var zeros, carries := CapacityBoundaries(STATE_LANES - RATE_LANES), CarryProducts(STATE_LANES - RATE_LANES);
    var p := ProgramFor(h, |t|, numBlocks, messageLen);
    CapacityMeaning(t);
    CarryProductsIn();
    CarryMeaning(h, t, numBlocks, edge);
    if numBlocks == 1 {
      assert p.products == carries;
      OneBlockMeaning(h, t, messageLen);
      BoundariesHoldConcat(zeros, PadBoundaries(messageLen, pads), t, WIDTH);
    } else {
      assert p.boundaries == zeros;
      SeamProductsIn(messageLen);
      SeamMeaning(h, t, numBlocks, messageLen, edge);
      ProductsHoldConcat(carries, SeamProducts(messageLen, pads), t, WIDTH, edge);
    }
  }
}
