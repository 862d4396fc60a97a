/**
 * Circuits over a table of cells: typed columns, fixed columns, boundary cells,
 * gated equations between a row and its successor, and published cells; and the
 * builders that fill in a circuit and a table step by step.
 *
 * A cell is 64 bits wide, the widest host column. Addition in a field of
 * characteristic two is exclusive or, and a product is zero exactly when one of
 * its factors is, since a field has no zero divisors.
 */
module Circuits {
  import opened Bytes
  import opened Numbers
  import opened PowersOfTwo

  type Cell = bv64
  type Row = seq<Cell>
  type Table = seq<Row>

  datatype ColumnType = Bit | B32 | B64

  function Flag(b: bool): Cell {
    if b then 1 else 0
  }

  predicate Fits(value: Cell, kind: ColumnType) {
    match kind
    case Bit => value <= 1
    case B32 => value <= 0xffff_ffff
    case B64 => true
  }

  /** The bits of a column. */
  function KindBits(kind: ColumnType): nat {
    match kind
    case Bit => 1
    case B32 => 32
    case B64 => 64
  }

  /** A value fits a column exactly when it is a number of that many bits. */
  lemma FitsExactly(value: Cell, kind: ColumnType)
    ensures Fits(value, kind) <==> LaneNat(value) < Pow2(KindBits(kind))
  {
    Pow2Values();
    assert Pow2(1) == 2;
    hide Pow2, LaneNat;
    CellOrder(value);
  }

  lemma CellOrder(value: Cell)
    ensures value <= 1 <==> LaneNat(value) < 2
    ensures value <= 0xffff_ffff <==> LaneNat(value) < 0x1_0000_0000
  {}

  /** A 32-bit word as a cell, and back. */
  function Embed(word: Word): (cell: Cell)
    ensures Fits(cell, B32)
  {
    word as bv64
  }

  function WordOf(cell: Cell): Word {
    (cell & 0xffff_ffff) as bv32
  }

  /** The cell of a word has its value. */
  lemma EmbedValue(word: Word)
    ensures LaneNat(Embed(word)) == WordNat(word)
  {}

  lemma WordOfEmbed(word: Word)
    ensures WordOf(Embed(word)) == word
  {}

  lemma EmbedWordOf(cell: Cell)
    requires Fits(cell, B32)
    ensures Embed(WordOf(cell)) == cell
  {}

  function WordsOf(cells: seq<Cell>): (words: seq<Word>)
    ensures |words| == |cells|
  {
    seq(|cells|, i requires 0 <= i < |cells| => WordOf(cells[i]))
  }

  function EmbedAll(words: seq<Word>): (cells: seq<Cell>)
    ensures |cells| == |words|
  {
    seq(|words|, i requires 0 <= i < |words| => Embed(words[i]))
  }

  lemma WordsOfEmbedAll(words: seq<Word>)
    ensures WordsOf(EmbedAll(words)) == words
  {
    hide WordOf, Embed;
    forall i | 0 <= i < |words|
      ensures WordsOf(EmbedAll(words))[i] == words[i]
    {
      WordOfEmbed(words[i]);
    }
  }

  lemma EmbedAllWordsOf(cells: seq<Cell>)
    requires forall i :: 0 <= i < |cells| ==> Fits(cells[i], B32)
    ensures EmbedAll(WordsOf(cells)) == cells
  {
    hide WordOf, Embed, Fits;
    forall i | 0 <= i < |cells|
      ensures EmbedAll(WordsOf(cells))[i] == cells[i]
    {
      EmbedWordOf(cells[i]);
    }
  }

  /** The values of a fixed column: a repeated block of values, or a few listed rows. */
  datatype Shape =
    | Cadence(stride: nat, count: nat, values: Row)
    | Sparse(entries: seq<(nat, Cell)>)

  function ShapeAt(shape: Shape, row: nat): Cell {
    match shape
    case Cadence(stride, count, values) =>
      if stride == |values| > 0 && row / stride < count then values[row % stride] else 0
    case Sparse(entries) => SparseAt(entries, row)
  }

  function SparseAt(entries: seq<(nat, Cell)>, row: nat): Cell {
    if entries == [] then 0
    else if entries[0].0 == row then entries[0].1
    else SparseAt(entries[1..], row)
  }

  /** A polynomial over one row and its successor. */
  datatype Expr = Col(column: nat) | Next(column: nat) | Const(value: Cell) | Sum(left: Expr, right: Expr)

  /** The constraint `left * right = 0`; `left` is the gate of a gated equation. */
  datatype Product = Product(left: Expr, right: Expr)

  datatype Boundary = Boundary(column: nat, row: nat, value: Cell)

  /** A call of a chiplet's service: the columns it passes, on the rows the selector marks. */
  datatype Service = Service(columns: seq<nat>, selector: nat)

  /** A mounted chiplet: the rows of its own table, and the blocks it computes. */
  datatype Chiplet = Chiplet(rows: nat, blocks: nat)

  datatype Program = Program(
    rows: nat,
    columns: seq<ColumnType>,
    fixed: seq<(nat, Shape)>,
    boundaries: seq<Boundary>,
    products: seq<Product>,
    published: seq<(nat, nat)>,
    services: seq<Service>,
    chiplets: seq<Chiplet>)

  /**
   * What a gated equation means on the last row, which has no successor: nothing,
   * the first row as its successor, or any row at all.
   */
  datatype Edge = Unchecked | Cyclic | Beyond(successor: Row)

  predicate ExprIn(e: Expr, width: nat) {
    match e
    case Col(c) => c < width
    case Next(c) => c < width
    case Const(_) => true
    case Sum(l, r) => ExprIn(l, width) && ExprIn(r, width)
  }

  predicate ReadsNext(e: Expr) {
    match e
    case Col(_) => false
    case Next(_) => true
    case Const(_) => false
    case Sum(l, r) => ReadsNext(l) || ReadsNext(r)
  }

  function Eval(e: Expr, here: Row, next: Row): Cell
    requires |here| == |next| && ExprIn(e, |here|)
  {
    match e
    case Col(c) => here[c]
    case Next(c) => next[c]
    case Const(v) => v
    case Sum(l, r) => Xor(Eval(l, here, next), Eval(r, here, next))
  }

  predicate ProductIn(q: Product, width: nat) {
    ExprIn(q.left, width) && ExprIn(q.right, width)
  }

  predicate ProductsIn(qs: seq<Product>, width: nat) {
    forall k :: 0 <= k < |qs| ==> ProductIn(qs[k], width)
  }

  predicate BoundariesIn(bs: seq<Boundary>, width: nat, rows: nat) {
    forall k :: 0 <= k < |bs| ==> bs[k].column < width && bs[k].row < rows
  }

  predicate ServiceIn(s: Service, width: nat) {
    s.selector < width && forall i :: 0 <= i < |s.columns| ==> s.columns[i] < width
  }

  /** What a service passes on a row. */
  function ServiceCells(s: Service, row: Row): (cells: seq<Cell>)
    requires ServiceIn(s, |row|)
    ensures |cells| == |s.columns|
  {
    seq(|s.columns|, i requires 0 <= i < |s.columns| => row[s.columns[i]])
  }

  /** Columns that follow one another. */
  function ColumnRange(from: nat, count: nat): (columns: seq<nat>)
    ensures |columns| == count
  {
    seq(count, i requires 0 <= i < count => from + i)
  }

  /** Every reference of the program is inside its own table. */
  predicate WellFormed(p: Program) {
    && p.rows > 0
    && (forall i :: 0 <= i < |p.fixed| ==> p.fixed[i].0 < |p.columns|)
    && BoundariesIn(p.boundaries, |p.columns|, p.rows)
    && ProductsIn(p.products, |p.columns|)
    && (forall i :: 0 <= i < |p.published| ==> p.published[i].0 < |p.columns| && p.published[i].1 < p.rows)
    && (forall i :: 0 <= i < |p.services| ==> ServiceIn(p.services[i], |p.columns|))
  }

  predicate Wide(t: Table, width: nat) {
    forall r :: 0 <= r < |t| ==> |t[r]| == width
  }

  predicate Shaped(t: Table, rows: nat, columns: seq<ColumnType>) {
    && |t| == rows
    && Wide(t, |columns|)
    && (forall r, c :: 0 <= r < rows && 0 <= c < |columns| ==> Fits(t[r][c], columns[c]))
  }

  function Successor(t: Table, r: nat, width: nat, edge: Edge): (next: Row)
    requires r < |t| && Wide(t, width)
    ensures |next| == width
  {
    if r + 1 < |t| then t[r + 1]
    else if edge.Beyond? && |edge.successor| == width then edge.successor
    else t[0]
  }

  predicate ProductHolds(q: Product, t: Table, r: nat, width: nat, edge: Edge)
    requires r < |t| && Wide(t, width) && ProductIn(q, width)
  {
    var next := Successor(t, r, width, edge);
    || (edge == Unchecked && r + 1 == |t| && (ReadsNext(q.left) || ReadsNext(q.right)))
    || Eval(q.left, t[r], next) == 0
    || Eval(q.right, t[r], next) == 0
  }

  ghost predicate ProductsHold(qs: seq<Product>, t: Table, width: nat, edge: Edge)
    requires Wide(t, width) && ProductsIn(qs, width)
  {
    forall k, r :: 0 <= k < |qs| && 0 <= r < |t| ==> ProductHolds(qs[k], t, r, width, edge)
  }

  ghost predicate BoundariesHold(bs: seq<Boundary>, t: Table, width: nat)
    requires Wide(t, width) && BoundariesIn(bs, width, |t|)
  {
    forall k :: 0 <= k < |bs| ==> t[bs[k].row][bs[k].column] == bs[k].value
  }

  ghost predicate FixedHold(fixed: seq<(nat, Shape)>, t: Table, width: nat)
    requires Wide(t, width) && forall i :: 0 <= i < |fixed| ==> fixed[i].0 < width
  {
    forall i, r :: 0 <= i < |fixed| && 0 <= r < |t| ==> t[r][fixed[i].0] == ShapeAt(fixed[i].1, r)
  }

  /** The table meets every constraint of the program under the given public values. */
  ghost predicate Satisfies(p: Program, t: Table, public: seq<Cell>, edge: Edge)
    requires WellFormed(p)
  {
    && Shaped(t, p.rows, p.columns)
    && FixedHold(p.fixed, t, |p.columns|)
    && BoundariesHold(p.boundaries, t, |p.columns|)
    && ProductsHold(p.products, t, |p.columns|, edge)
    && |public| == |p.published|
    && (forall i :: 0 <= i < |public| ==> public[i] == t[p.published[i].1][p.published[i].0])
  }

  lemma ProductsHoldConcat(a: seq<Product>, b: seq<Product>, t: Table, width: nat, edge: Edge)
    requires Wide(t, width) && ProductsIn(a, width) && ProductsIn(b, width)
    ensures ProductsIn(a + b, width)
    ensures ProductsHold(a + b, t, width, edge) <==> ProductsHold(a, t, width, edge) && ProductsHold(b, t, width, edge)
  {
    hide ProductHolds, ProductIn;
    var both := a + b;
    assert forall k :: 0 <= k < |a| ==> both[k] == a[k];
    assert forall k :: 0 <= k < |b| ==> both[|a| + k] == b[k];
  }

  lemma BoundariesHoldConcat(a: seq<Boundary>, b: seq<Boundary>, t: Table, width: nat)
    requires Wide(t, width) && BoundariesIn(a, width, |t|) && BoundariesIn(b, width, |t|)
    ensures BoundariesIn(a + b, width, |t|)
    ensures BoundariesHold(a + b, t, width) <==> BoundariesHold(a, t, width) && BoundariesHold(b, t, width)
  {
    var both := a + b;
    assert forall k :: 0 <= k < |a| ==> both[k] == a[k];
    assert forall k :: 0 <= k < |b| ==> both[|a| + k] == b[k];
  }

  /** A gated sum of a cell and its successor is a gated equality. */
  lemma GatedEquality(q: Product, t: Table, r: nat, width: nat, edge: Edge, gate: nat, target: nat, source: nat)
    requires r + 1 < |t| && Wide(t, width)
    requires gate < width && target < width && source < width
    requires q == Product(Col(gate), Sum(Next(target), Col(source)))
    ensures ProductIn(q, width)
    ensures ProductHolds(q, t, r, width, edge) <==> (t[r][gate] == 0 || t[r + 1][target] == t[r][source])
  {
    hide Xor;
    EqualityIn(gate, target, source, width);
    assert Eval(Next(target), t[r], t[r + 1]) == t[r + 1][target];
    assert Eval(Col(source), t[r], t[r + 1]) == t[r][source];
    XorIsZero(t[r + 1][target], t[r][source]);
  }

  lemma EqualityIn(gate: nat, target: nat, source: nat, width: nat)
    requires gate < width && target < width && source < width
    ensures ProductIn(Product(Col(gate), Sum(Next(target), Col(source))), width)
  {
    assert ExprIn(Next(target), width) && ExprIn(Col(source), width);
  }

  /** A gated sum of a cell, its successor and a constant fixes their difference. */
  lemma GatedDifference(q: Product, t: Table, r: nat, width: nat, edge: Edge, gate: nat, column: nat, value: Cell)
    requires r + 1 < |t| && Wide(t, width)
    requires gate < width && column < width
    requires q == Product(Col(gate), Sum(Sum(Next(column), Col(column)), Const(value)))
    ensures ProductIn(q, width)
    ensures ProductHolds(q, t, r, width, edge) <==> (t[r][gate] == 0 || Xor(t[r + 1][column], t[r][column]) == value)
  {
    hide Xor;
    DifferenceIn(gate, column, value, width);
    assert Eval(Next(column), t[r], t[r + 1]) == t[r + 1][column];
    assert Eval(Col(column), t[r], t[r + 1]) == t[r][column];
    assert Eval(q.right.left, t[r], t[r + 1]) == Xor(t[r + 1][column], t[r][column]);
    assert Eval(Const(value), t[r], t[r + 1]) == value;
    assert Eval(q.right, t[r], t[r + 1]) == Xor(Xor(t[r + 1][column], t[r][column]), value);
    XorIsZero(Xor(t[r + 1][column], t[r][column]), value);
  }

  lemma DifferenceIn(gate: nat, column: nat, value: Cell, width: nat)
    requires gate < width && column < width
    ensures ProductIn(Product(Col(gate), Sum(Sum(Next(column), Col(column)), Const(value))), width)
  {
    assert ExprIn(Next(column), width) && ExprIn(Col(column), width);
    assert ExprIn(Sum(Next(column), Col(column)), width) && ExprIn(Const(value), width);
  }

  /** A gate that is zero switches its equation off, on the last row too. */
  lemma ClosedGate(q: Product, gate: nat, t: Table, r: nat, width: nat, edge: Edge)
    requires r < |t| && Wide(t, width)
    requires q.left == Col(gate) && ProductIn(q, width)
    requires t[r][gate] == 0
    ensures ProductHolds(q, t, r, width, edge)
  {}

  /**
   * A gated equality over a whole table. The gate must be off on the last row:
   * then no meaning of a gate there can matter.
   */
  lemma GatedEqualityRows(q: Product, t: Table, width: nat, edge: Edge, gate: nat, target: nat, source: nat)
    requires |t| > 0 && Wide(t, width)
    requires gate < width && target < width && source < width
    requires q == Product(Col(gate), Sum(Next(target), Col(source)))
    requires t[|t| - 1][gate] == 0
    ensures ProductIn(q, width)
    ensures (forall r :: 0 <= r < |t| ==> ProductHolds(q, t, r, width, edge))
            <==> (forall r :: 0 <= r < |t| - 1 && t[r][gate] != 0 ==> t[r + 1][target] == t[r][source])
  {
    hide ProductHolds, ProductIn;
    EqualityIn(gate, target, source, width);
    ClosedGate(q, gate, t, |t| - 1, width, edge);
    if forall r :: 0 <= r < |t| ==> ProductHolds(q, t, r, width, edge) {
      forall r | 0 <= r < |t| - 1 && t[r][gate] != 0
        ensures t[r + 1][target] == t[r][source]
      {
        assert ProductHolds(q, t, r, width, edge);
        GatedEquality(q, t, r, width, edge, gate, target, source);
      }
    }
    if forall r :: 0 <= r < |t| - 1 && t[r][gate] != 0 ==> t[r + 1][target] == t[r][source] {
      forall r | 0 <= r < |t|
        ensures ProductHolds(q, t, r, width, edge)
      {
        if r < |t| - 1 {
          GatedEquality(q, t, r, width, edge, gate, target, source);
        }
      }
    }
  }

  /** The builder a program is assembled with. */
  class Circuit {
    var columns: seq<ColumnType>
    var fixed: seq<(nat, Shape)>
    var boundaries: seq<Boundary>
    var products: seq<Product>
    var published: seq<(nat, nat)>
    var services: seq<Service>
    var chiplets: seq<Chiplet>
    const rows: nat

    constructor (rows: nat)
      ensures this.rows == rows && State() == Program(rows, [], [], [], [], [], [], [])
    {
      this.rows := rows;
      columns, fixed, boundaries, products, published, services, chiplets := [], [], [], [], [], [], [];
    }

    function State(): Program
      reads this
    {
      Program(rows, columns, fixed, boundaries, products, published, services, chiplets)
    }

    method Schema(kinds: seq<ColumnType>) returns (first: nat)
      modifies this
      ensures first == |old(columns)|
      ensures State() == old(State()).(columns := old(columns) + kinds)
    {
      first := |columns|;
      columns := columns + kinds;
    }

    method Column(kind: ColumnType) returns (column: nat)
      modifies this
      ensures column == |old(columns)|
      ensures State() == old(State()).(columns := old(columns) + [kind])
    {
      column := Schema([kind]);
    }

    method Fix(column: nat, shape: Shape)
      modifies this
      ensures State() == old(State()).(fixed := old(fixed) + [(column, shape)])
    {
      fixed := fixed + [(column, shape)];
    }

    method BoundaryAt(column: nat, row: nat, value: Cell)
      modifies this
      ensures State() == old(State()).(boundaries := old(boundaries) + [Boundary(column, row, value)])
    {
      boundaries := boundaries + [Boundary(column, row, value)];
    }

    method AssertZeroWhen(gate: Expr, body: Expr)
      modifies this
      ensures State() == old(State()).(products := old(products) + [Product(gate, body)])
    {
      products := products + [Product(gate, body)];
    }

    method Publish(column: nat, row: nat)
      modifies this
      ensures State() == old(State()).(published := old(published) + [(column, row)])
    {
      published := published + [(column, row)];
    }

    method Call(columns: seq<nat>, selector: nat)
      modifies this
      ensures State() == old(State()).(services := old(services) + [Service(columns, selector)])
    {
      services := services + [Service(columns, selector)];
    }

    method Mount(chiplet: Chiplet)
      modifies this
      ensures State() == old(State()).(chiplets := old(chiplets) + [chiplet])
    {
      chiplets := chiplets + [chiplet];
    }
  }

  function ZeroRow(width: nat): (row: Row)
    ensures |row| == width
  {
    seq(width, _ => 0)
  }

  function ZeroTable(rows: nat, width: nat): (t: Table)
    ensures |t| == rows
  {
    seq(rows, _ => ZeroRow(width))
  }

  /** The builder a table is filled with: all cells start at zero. */
  class TraceBuilder {
    const layout: seq<ColumnType>
    var cells: Table

    constructor (layout: seq<ColumnType>, numVars: nat)
      ensures this.layout == layout
      ensures cells == ZeroTable(Pow2(numVars), |layout|)
    {
      this.layout := layout;
      cells := ZeroTable(Pow2(numVars), |layout|);
    }

    /** Writes one cell; false, and no change, when the cell is not in the table or the kinds differ. */
    method Set(kind: ColumnType, column: nat, row: nat, value: Cell) returns (ok: bool)
      modifies this
      ensures ok == (row < |old(cells)| && column < |old(cells)[row]| && column < |layout|
                     && layout[column] == kind && Fits(value, kind))
      ensures cells == if ok then old(cells)[row := old(cells)[row][column := value]] else old(cells)
    {
      ok := row < |cells| && column < |cells[row]| && column < |layout| && layout[column] == kind && Fits(value, kind);
      if ok {
        cells := cells[row := cells[row][column := value]];
      }
    }
  }
}
