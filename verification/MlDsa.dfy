/**
 * The ML-DSA host table: a word column fed to the verification pipeline, a
 * selector for the rows that hold words, and the published message and key hash.
 */
module MlDsa {
  import opened Bytes
  import opened Numbers
  import opened PowersOfTwo
  import opened Circuits
  import opened Errors
  import Cancellation

  const WORD: nat := 0
  const SEL: nat := 1
  const WIDTH: nat := 2

  const MESSAGE_BYTES: nat := 32
  const M_PRIME_BYTES: nat := 34
  const KEY_HASH_BYTES: nat := 64
  const DIGEST_WORDS: nat := 16

  /** The sizes in bytes of a public key, of the message M' that is signed, and of a signature. */
  datatype Sizes = Sizes(publicKey: nat, mPrime: nat, signature: nat)

  /** ML-DSA-65, table 2 of FIPS 204. */
  const ML_DSA_65: Sizes := Sizes(1952, M_PRIME_BYTES, 3309)

  /**
   * The encoded sizes of section 7.2 of FIPS 204, from the parameters of ML-DSA-65 in
   * its table 1: q of 23 bits, d = 13, lambda = 192, gamma1 of 20 bits, k = 6, l = 5, omega = 55.
   * The key hash has 512 bits, in whole words.
   */
  lemma SizesFollowParameters()
    ensures var q, d, lambda, gamma1, k, l, omega := 23, 13, 192, 20, 6, 5, 55;
            && ML_DSA_65.publicKey == 32 + 32 * k * (q - d)
            && ML_DSA_65.signature == lambda / 4 + 32 * l * gamma1 + omega + k
            && ML_DSA_65.mPrime == 2 + MESSAGE_BYTES
            && 8 * KEY_HASH_BYTES == 512 && 4 * DIGEST_WORDS == KEY_HASH_BYTES
  {}

  function WordCount(bytes: nat): nat {
    (bytes + 3) / 4
  }

  /** As many words as hold the bytes, and no more. */
  lemma WordCountIsLeast(bytes: nat, words: nat)
    ensures WordCount(bytes) <= words <==> bytes <= 4 * words
  {}

  function Words(sizes: Sizes): (words: nat)
    ensures words >= 2 * DIGEST_WORDS
  {
    WordCount(sizes.publicKey) + WordCount(sizes.mPrime) + WordCount(sizes.signature) + 2 * DIGEST_WORDS
  }

  function Rows(sizes: Sizes): nat {
    NextPow2(Words(sizes))
  }

  lemma RowsHoldTheWords(sizes: Sizes)
    ensures Words(sizes) <= Rows(sizes) && Pow2(Log2(Rows(sizes))) == Rows(sizes)
    ensures forall k: nat :: Words(sizes) <= Pow2(k) ==> Rows(sizes) <= Pow2(k)
  {
    NextPow2Least(Words(sizes));
    NextPow2OfLog2(Words(sizes));
  }

  function RowRange(from: nat, count: nat): (rows: seq<nat>)
    ensures |rows| == count
  {
    seq(count, i requires 0 <= i < count => from + i)
  }

  /** The published rows: the words of M', then the words of the key hash. */
  function PublishedRows(sizes: Sizes): (rows: seq<nat>)
    ensures |rows| == WordCount(sizes.mPrime) + DIGEST_WORDS
    ensures forall i :: 0 <= i < |rows| ==> rows[i] < Words(sizes)
  {
    RowRange(WordCount(sizes.publicKey), WordCount(sizes.mPrime))
    + RowRange(Words(sizes) - 2 * DIGEST_WORDS, DIGEST_WORDS)
  }

  function Layout(): seq<ColumnType> {
    [B32, Bit]
  }

  function SelectorShape(sizes: Sizes): Shape {
    Cadence(1, Words(sizes), [1])
  }

  function OutsideIsZero(): Product {
    Product(Sum(Const(1), Col(SEL)), Col(WORD))
  }

  function PublishedCells(sizes: Sizes, upto: nat): (cells: seq<(nat, nat)>)
    requires upto <= |PublishedRows(sizes)|
    ensures |cells| == upto
  {
    seq(upto, i requires 0 <= i < upto => (WORD, PublishedRows(sizes)[i]))
  }

  function ProgramFor(sizes: Sizes): Program {
    Program(Rows(sizes), Layout(), [(SEL, SelectorShape(sizes))], [], [OutsideIsZero()],
            PublishedCells(sizes, |PublishedRows(sizes)|), [Service([WORD], SEL)], [])
  }

  method BuildProgram(sizes: Sizes) returns (program: Program)
    ensures program == ProgramFor(sizes)
  {
    var cx := new Circuit(Rows(sizes));
    var word := cx.Schema(Layout());
    var sel := word + 1;
    cx.Fix(sel, SelectorShape(sizes));
    cx.AssertZeroWhen(Sum(Const(1), Col(sel)), Col(word));
    cx.Call([word], sel);
    ghost var start := cx.State();
    var rows := PublishedRows(sizes);
    for i := 0 to |rows|
      invariant cx.State() == start.(published := PublishedCells(sizes, i))
    {
      cx.Publish(word, rows[i]);
    }
    program := cx.State();
  }

  /** The words of a byte string, the last chunk filled up with zeros. */
  function LeWords(bytes: seq<byte>): (words: seq<Word>)
    ensures |words| == WordCount(|bytes|)
  {
    seq(WordCount(|bytes|), i requires 0 <= i < WordCount(|bytes|) => WordFromLe(ChunkAt(bytes, i)))
  }

  function ChunkAt(bytes: seq<byte>, i: nat): (chunk: seq<byte>)
    ensures |chunk| == 4
  {
    seq(4, j requires 0 <= j < 4 => if 4 * i + j < |bytes| then bytes[4 * i + j] else 0)
  }

  function PublicWords(mPrime: seq<byte>, keyHash: seq<byte>): seq<Word> {
    LeWords(mPrime) + LeWords(keyHash)
  }

  /** The public values of an instance, in publish order. */
  function Instance(mPrime: seq<byte>, keyHash: seq<byte>): seq<Cell> {
    EmbedAll(PublicWords(mPrime, keyHash))
  }

  /** The words at the published rows. */
  function PublishedWords(sizes: Sizes, words: seq<Word>): (published: seq<Word>)
    requires |words| == Words(sizes)
    ensures |published| == |PublishedRows(sizes)|
  {
    var rows := PublishedRows(sizes);
    seq(|rows|, i requires 0 <= i < |rows| => words[rows[i]])
  }

  /** The runtime check on the words the pipeline returns. */
  predicate EnsurePublished(sizes: Sizes, words: seq<Word>, mPrime: seq<byte>, keyHash: seq<byte>) {
    |words| == Words(sizes) && PublishedWords(sizes, words) == PublicWords(mPrime, keyHash)
  }

  /**
   * Where the published words are. The pipeline's words are those of the public key,
   * of M', of the signature, of the key hash, and one more digest; published are
   * those of M' and those of the key hash.
   */
  lemma PublishedLayout(sizes: Sizes, pk: seq<Word>, m: seq<Word>, sig: seq<Word>, tr: seq<Word>, digest: seq<Word>)
    requires |pk| == WordCount(sizes.publicKey) && |m| == WordCount(sizes.mPrime)
    requires |sig| == WordCount(sizes.signature) && |tr| == |digest| == DIGEST_WORDS
    ensures |pk + m + sig + tr + digest| == Words(sizes)
    ensures PublishedWords(sizes, pk + m + sig + tr + digest) == m + tr
  {
    hide WordCount;
    var words, rows := pk + m + sig + tr + digest, PublishedRows(sizes);
    forall i | 0 <= i < |rows|
      ensures words[rows[i]] == (m + tr)[i]
    {
      if i < |m| {
        assert rows[i] == |pk| + i;
      } else {
        assert rows[i] == |pk| + |m| + |sig| + (i - |m|);
      }
    }
  }

  /** So the check accepts words of that layout exactly for the M' and the key hash packed in them. */
  lemma PublishedExactly(
    sizes: Sizes, pk: seq<Word>, m: seq<Word>, sig: seq<Word>, tr: seq<Word>, digest: seq<Word>,
    mPrime: seq<byte>, keyHash: seq<byte>)
    requires |pk| == WordCount(sizes.publicKey) && |m| == WordCount(sizes.mPrime)
    requires |sig| == WordCount(sizes.signature) && |tr| == |digest| == DIGEST_WORDS
    requires |mPrime| == sizes.mPrime
    ensures EnsurePublished(sizes, pk + m + sig + tr + digest, mPrime, keyHash)
            <==> LeWords(mPrime) == m && LeWords(keyHash) == tr
  {
    hide PublishedRows, LeWords, PublishedWords;
    PublishedLayout(sizes, pk, m, sig, tr, digest);
    var public := PublicWords(mPrime, keyHash);
    if public == m + tr {
      assert LeWords(mPrime) == public[..|m|] && LeWords(keyHash) == public[|m|..];
    }
  }

  function HostRow(words: seq<Word>, r: nat): (row: Row)
    ensures |row| == WIDTH
  {
    if r < |words| then [Embed(words[r]), 1] else ZeroRow(WIDTH)
  }

  function HostTable(words: seq<Word>, rows: nat): (t: Table)
    ensures |t| == rows && Wide(t, WIDTH)
  {
    seq(rows, r requires 0 <= r < rows => HostRow(words, r))
  }

  lemma HostTableStep(words: seq<Word>, row: nat, rows: nat)
    requires row < |words| && row < rows
    ensures var was := HostTable(words[..row], rows);
            HostTable(words[..row + 1], rows) == was[row := was[row][WORD := Embed(words[row])][SEL := 1]]
  {
    hide Embed;
    var was := HostTable(words[..row], rows);
    assert was[row] == ZeroRow(WIDTH);
    assert was[row][WORD := Embed(words[row])][SEL := 1] == [Embed(words[row]), 1];
  }

  /** Fills the host table; it succeeds exactly when the words fit the rows. */
  method HostTrace(words: seq<Word>, rows: nat) returns (r: Option<Table>)
    requires Pow2(Log2(rows)) == rows
    ensures r.Some? <==> |words| <= rows
    ensures r.Some? ==> r.value == HostTable(words, rows)
  {
    hide Embed;
    var tb := new TraceBuilder(Layout(), Log2(rows));
    assert words[..0] == [];
    for row := 0 to |words|
      invariant row <= rows && tb.cells == HostTable(words[..row], rows)
    {
      var ok := tb.Set(B32, WORD, row, Embed(words[row]));
      if !ok {
        return None;
      }
      ok := tb.Set(Bit, SEL, row, 1);
      HostTableStep(words, row, rows);
    }
    assert words[..|words|] == words;
    r := Some(tb.cells);
  }

  /** What the circuit says of a table, row by row. */
  ghost predicate RowEquations(sizes: Sizes, t: Table, public: seq<Cell>) {
    && Shaped(t, Rows(sizes), Layout())
    && Words(sizes) <= |t|
    && (forall r :: 0 <= r < |t| ==> t[r][SEL] == Flag(r < Words(sizes)))
    && (forall r :: Words(sizes) <= r < |t| ==> t[r][WORD] == 0)
    && public == PublishedOf(sizes, t)
  }

  function PublishedOf(sizes: Sizes, t: Table): (cells: seq<Cell>)
    requires Words(sizes) <= |t| && Wide(t, WIDTH)
  {
    var rows := PublishedRows(sizes);
    seq(|rows|, i requires 0 <= i < |rows| => t[rows[i]][WORD])
  }

  lemma OutsideIsZeroHolds(t: Table, r: nat, edge: Edge)
    requires r < |t| && Wide(t, WIDTH) && t[r][SEL] <= 1
    ensures ProductIn(OutsideIsZero(), WIDTH)
    ensures ProductHolds(OutsideIsZero(), t, r, WIDTH, edge) <==> (t[r][SEL] == 1 || t[r][WORD] == 0)
  {
    hide Xor;
    assert ExprIn(Const(1), WIDTH) && ExprIn(Col(SEL), WIDTH);
    var q, next := OutsideIsZero(), Successor(t, r, WIDTH, edge);
    assert !ReadsNext(Const(1)) && !ReadsNext(Col(SEL));
    assert !ReadsNext(q.left) && !ReadsNext(q.right);
    assert Eval(Const(1), t[r], next) == 1 && Eval(Col(SEL), t[r], next) == t[r][SEL];
    assert Eval(q.left, t[r], next) == Xor(1, t[r][SEL]);
    XorIsZero(1, t[r][SEL]);
  }

  lemma ProgramIsWellFormed(sizes: Sizes)
    ensures WellFormed(ProgramFor(sizes))
  {
    RowsHoldTheWords(sizes);
    assert ExprIn(Const(1), WIDTH) && ExprIn(Col(SEL), WIDTH);
  }

  /** The compiled circuit says exactly the row equations, whatever a gate means on the last row. */
  lemma CircuitMeaning(sizes: Sizes, t: Table, public: seq<Cell>, edge: Edge)
    ensures WellFormed(ProgramFor(sizes))
    ensures Satisfies(ProgramFor(sizes), t, public, edge) <==> RowEquations(sizes, t, public)
  {
    hide ProductHolds, PublishedRows;
    ProgramIsWellFormed(sizes);
    RowsHoldTheWords(sizes);
    var p := ProgramFor(sizes);
    if Shaped(t, p.rows, p.columns) {
      assert FixedHold(p.fixed, t, WIDTH) <==> forall r :: 0 <= r < |t| ==> t[r][SEL] == Flag(r < Words(sizes)) by {
        SelectorMeaning(sizes, t);
      }
      if forall r :: 0 <= r < |t| ==> t[r][SEL] == Flag(r < Words(sizes)) {
        assert ProductsHold(p.products, t, WIDTH, edge)
            <==> forall r :: Words(sizes) <= r < |t| ==> t[r][WORD] == 0 by {
          OutsideMeaning(sizes, t, edge);
        }
      }
      PublishedMeaning(sizes, t, public);
    }
  }

  lemma SelectorMeaning(sizes: Sizes, t: Table)
    requires Wide(t, WIDTH)
    ensures FixedHold([(SEL, SelectorShape(sizes))], t, WIDTH)
            <==> forall r :: 0 <= r < |t| ==> t[r][SEL] == Flag(r < Words(sizes))
  {
    var fixed := [(SEL, SelectorShape(sizes))];
    assert forall r: nat :: ShapeAt(SelectorShape(sizes), r) == Flag(r < Words(sizes));
    if FixedHold(fixed, t, WIDTH) {
      forall r | 0 <= r < |t|
        ensures t[r][SEL] == Flag(r < Words(sizes))
      {
        assert t[r][fixed[0].0] == ShapeAt(fixed[0].1, r);
      }
    }
  }

  lemma OutsideMeaning(sizes: Sizes, t: Table, edge: Edge)
    requires Wide(t, WIDTH) && ProductIn(OutsideIsZero(), WIDTH)
    requires forall r :: 0 <= r < |t| ==> t[r][SEL] == Flag(r < Words(sizes))
    ensures ProductsHold([OutsideIsZero()], t, WIDTH, edge)
            <==> forall r :: Words(sizes) <= r < |t| ==> t[r][WORD] == 0
  {
    hide ProductHolds;
    var qs := [OutsideIsZero()];
    forall r | 0 <= r < |t|
      ensures ProductHolds(qs[0], t, r, WIDTH, edge) <==> (r < Words(sizes) || t[r][WORD] == 0)
    {
      OutsideIsZeroHolds(t, r, edge);
    }
    if ProductsHold(qs, t, WIDTH, edge) {
      forall r | Words(sizes) <= r < |t|
        ensures t[r][WORD] == 0
      {
        assert ProductHolds(qs[0], t, r, WIDTH, edge);
      }
    }
  }

  lemma PublishedMeaning(sizes: Sizes, t: Table, public: seq<Cell>)
    requires Words(sizes) <= |t| && Wide(t, WIDTH)
    ensures var cells := PublishedCells(sizes, |PublishedRows(sizes)|);
            (&& |public| == |cells|
             && (forall i :: 0 <= i < |public| ==> public[i] == t[cells[i].1][cells[i].0]))
            <==> public == PublishedOf(sizes, t)
  {
    hide PublishedRows;
    var cells := PublishedCells(sizes, |PublishedRows(sizes)|);
    assert forall i :: 0 <= i < |cells| ==> cells[i] == (WORD, PublishedRows(sizes)[i]);
  }

  /** The gates of a written table are those of the circuit exactly when the number of words is right. */
  lemma SelectorCountsWords(sizes: Sizes, words: seq<Word>)
    requires |words| <= Rows(sizes)
    ensures (forall r :: 0 <= r < Rows(sizes) ==> HostTable(words, Rows(sizes))[r][SEL] == Flag(r < Words(sizes)))
            <==> |words| == Words(sizes)
  {
    hide Embed, Rows, Words;
    RowsHoldTheWords(sizes);
    var t := HostTable(words, Rows(sizes));
    forall r | 0 <= r < |t|
      ensures t[r][SEL] == Flag(r < |words|)
    {
      assert t[r] == HostRow(words, r);
    }
    if |words| < Words(sizes) {
      assert t[|words|][SEL] != Flag(|words| < Words(sizes));
    } else if |words| > Words(sizes) {
      assert t[Words(sizes)][SEL] != Flag(Words(sizes) < Words(sizes));
    }
  }

  /**
   * A table written from any words that fit satisfies the circuit under an
   * instance exactly when the runtime check accepts the words, number included,
   * for that message and key hash.
   */
  lemma HostTableSatisfiesIffPublished(
    sizes: Sizes, words: seq<Word>, mPrime: seq<byte>, keyHash: seq<byte>, edge: Edge)
    requires |words| <= Rows(sizes)
    ensures WellFormed(ProgramFor(sizes))
    ensures Satisfies(ProgramFor(sizes), HostTable(words, Rows(sizes)), Instance(mPrime, keyHash), edge)
            <==> EnsurePublished(sizes, words, mPrime, keyHash)
  {
    hide Embed, Satisfies, PublicWords, PublishedRows, HostTable, Rows, ProgramFor;
    CircuitMeaning(sizes, HostTable(words, Rows(sizes)), Instance(mPrime, keyHash), edge);
    SelectorCountsWords(sizes, words);
    if |words| == Words(sizes) {
      HostTableMeetsRowEquations(sizes, words, mPrime, keyHash);
    }
  }

  lemma HostTableMeetsRowEquations(sizes: Sizes, words: seq<Word>, mPrime: seq<byte>, keyHash: seq<byte>)
    requires |words| == Words(sizes)
    ensures RowEquations(sizes, HostTable(words, Rows(sizes)), Instance(mPrime, keyHash))
            <==> EnsurePublished(sizes, words, mPrime, keyHash)
  {
    hide Embed, PublicWords, PublishedRows, Shaped, Rows;
    var t := HostTable(words, Rows(sizes));
    RowsHoldTheWords(sizes);
    HostTableIsShaped(sizes, words);
    assert PublishedOf(sizes, t) == EmbedAll(PublishedWords(sizes, words));
    if Instance(mPrime, keyHash) == PublishedOf(sizes, t) {
      WordsOfEmbedAll(PublicWords(mPrime, keyHash));
      WordsOfEmbedAll(PublishedWords(sizes, words));
    }
  }

  lemma HostTableIsShaped(sizes: Sizes, words: seq<Word>)
    requires |words| == Words(sizes)
    ensures Shaped(HostTable(words, Rows(sizes)), Rows(sizes), Layout())
  {
    hide Embed, Rows, Words;
    var t := HostTable(words, Rows(sizes));
    forall r, c | 0 <= r < |t| && 0 <= c < WIDTH
      ensures Fits(t[r][c], Layout()[c])
    {
      HostRowFits(words, r, c);
    }
  }

  lemma HostRowFits(words: seq<Word>, r: nat, c: nat)
    requires c < WIDTH
    ensures Fits(HostRow(words, r)[c], Layout()[c])
  {
    hide Embed;
  }

  /** The words on the service rows of a table. */
  function ServiceWords(sizes: Sizes, t: Table): (words: seq<Word>)
    requires Words(sizes) <= |t| && Wide(t, WIDTH)
    ensures |words| == Words(sizes)
  {
    seq(Words(sizes), r requires 0 <= r < Words(sizes) => WordOf(t[r][WORD]))
  }

  /**
   * Every satisfying table is the one written from its own service words, and
   * those words pass the runtime check: the circuit leaves no other freedom.
   */
  lemma SatisfyingTableIsHostTable(sizes: Sizes, t: Table, mPrime: seq<byte>, keyHash: seq<byte>, edge: Edge)
    requires WellFormed(ProgramFor(sizes))
    requires Satisfies(ProgramFor(sizes), t, Instance(mPrime, keyHash), edge)
    ensures Words(sizes) <= |t| && Wide(t, WIDTH)
    ensures t == HostTable(ServiceWords(sizes, t), Rows(sizes))
    ensures EnsurePublished(sizes, ServiceWords(sizes, t), mPrime, keyHash)
  {
    hide Satisfies, PublicWords, PublishedRows, Instance, ProgramFor, Rows, HostTable, ServiceWords, EnsurePublished;
    CircuitMeaning(sizes, t, Instance(mPrime, keyHash), edge);
    RowsHoldTheWords(sizes);
    TableOfRowEquations(sizes, t, Instance(mPrime, keyHash));
    HostTableSatisfiesIffPublished(sizes, ServiceWords(sizes, t), mPrime, keyHash, edge);
  }

  lemma TableOfRowEquations(sizes: Sizes, t: Table, public: seq<Cell>)
    requires RowEquations(sizes, t, public)
    ensures t == HostTable(ServiceWords(sizes, t), Rows(sizes))
  {
    hide Embed, WordOf, PublishedRows, PublishedOf, Rows, Words;
    forall r | 0 <= r < |t|
      ensures t[r] == HostRow(ServiceWords(sizes, t), r)
    {
      RowOfRowEquations(sizes, t, public, r);
    }
  }

  lemma RowOfRowEquations(sizes: Sizes, t: Table, public: seq<Cell>, r: nat)
    requires RowEquations(sizes, t, public) && r < |t|
    ensures t[r] == HostRow(ServiceWords(sizes, t), r)
  {
    hide Embed, WordOf, PublishedRows, PublishedOf, Rows, Words;
    assert Fits(t[r][WORD], Layout()[WORD]);
    EmbedWordOf(t[r][WORD]);
    assert t[r] == [t[r][WORD], t[r][SEL]];
    if r < Words(sizes) {
      assert ServiceWords(sizes, t)[r] == WordOf(t[r][WORD]);
    }
  }

  /** The bytes of a word string, cut to a length: the inverse of LeWords for that length. */
  function LeBytes(words: seq<Word>, count: nat): (bytes: seq<byte>)
    requires |words| == WordCount(count)
    ensures |bytes| == count
  {
    seq(count, k requires 0 <= k < count => WordToLe(words[k / 4])[k % 4])
  }

  lemma RestOfLeWords(bytes: seq<byte>)
    requires |bytes| > 4
    ensures LeWords(bytes)[1..] == LeWords(bytes[4..])
  {
    forall i | 0 <= i < WordCount(|bytes|) - 1
      ensures ChunkAt(bytes, i + 1) == ChunkAt(bytes[4..], i)
    {}
  }

  /** The words spell the number the bytes spell, least significant first, whatever the last chunk holds. */
  lemma {:induction false} LeWordsValue(bytes: seq<byte>)
    ensures WordsValue(LeWords(bytes)) == LeValue(bytes)
  {
    hide WordFromLe, WordNat, LeValue;
    var words := LeWords(bytes);
    if bytes == [] {
      EmptyLeValue();
    } else {
      WordLeValue(ChunkAt(bytes, 0));
      if |bytes| <= 4 {
        assert ChunkAt(bytes, 0) == Filled(bytes, 4) && words[1..] == [];
        FilledValue(bytes, 4);
      } else {
        assert ChunkAt(bytes, 0) == bytes[..4] && bytes[..4] + bytes[4..] == bytes;
        RestOfLeWords(bytes);
        LeWordsValue(bytes[4..]);
        LeValueSplits(bytes[..4], bytes[4..]);
        Pow2Values();
      }
    }
  }

  lemma EmptyLeValue()
    ensures LeValue([]) == 0
  {}

  lemma LeWordsInvert(bytes: seq<byte>)
    ensures LeBytes(LeWords(bytes), |bytes|) == bytes
  {
    hide WordToLe, WordFromLe;
    forall k | 0 <= k < |bytes|
      ensures LeBytes(LeWords(bytes), |bytes|)[k] == bytes[k]
    {
      BytesOfLeWord(ChunkAt(bytes, k / 4));
    }
  }

  /** The zero fill hides the length: without it, words do not determine bytes. */
  lemma LeWordsForgetLength()
    ensures LeWords([1]) == LeWords([1, 0])
  {
    assert ChunkAt([1], 0) == ChunkAt([1, 0], 0);
  }

  /** M' of pure ML-DSA with an empty context, for messages of the one supported length. */
  function MPrime(message: seq<byte>): Option<seq<byte>> {
    if |message| == MESSAGE_BYTES then Some([0, 0] + message) else None
  }

  /** A reader of M' as section 5.2 of FIPS 204 builds it: the mode, the context with its length, the message. */
  function ReadMPrime(bytes: seq<byte>): Option<(nat, seq<byte>, seq<byte>)> {
    if |bytes| < 2 || |bytes| < 2 + ByteNat(bytes[1]) then None
    else
      var end := 2 + ByteNat(bytes[1]);
      Some((ByteNat(bytes[0]), bytes[2..end], bytes[end..]))
  }

  /** For 32-byte messages only, M' is the one byte string that says: pure mode, no context, this message. */
  lemma MPrimeExactly(message: seq<byte>, bytes: seq<byte>)
    ensures MPrime(message) == Some(bytes) <==> |message| == 32 && ReadMPrime(bytes) == Some((0, [], message))
    ensures MPrime(message) == Some(bytes) ==> |bytes| == M_PRIME_BYTES
  {
    LastByte(0);
    if MPrime(message) == Some(bytes) {
      assert bytes[2..2] == [] && bytes[2..] == message;
    }
    if ReadMPrime(bytes) == Some((0, [], message)) {
      SameValue(bytes[0], 0);
      SameValue(bytes[1], 0);
      assert bytes == [bytes[0], bytes[1]] + bytes[2..];
    }
  }

  /** An instance determines the message and the key hash it was made from. */
  lemma InstanceBinds(message: seq<byte>, keyHash: seq<byte>, message': seq<byte>, keyHash': seq<byte>)
    requires |message| == |message'| == MESSAGE_BYTES
    requires |keyHash| == |keyHash'| == KEY_HASH_BYTES
    requires Instance(MPrime(message).value, keyHash) == Instance(MPrime(message').value, keyHash')
    ensures message == message' && keyHash == keyHash'
  {
    hide Embed, WordFromLe, ChunkAt, LeWords;
    var m, m' := MPrime(message).value, MPrime(message').value;
    WordsOfEmbedAll(PublicWords(m, keyHash));
    WordsOfEmbedAll(PublicWords(m', keyHash'));
    var n := WordCount(M_PRIME_BYTES);
    assert LeWords(m) == PublicWords(m, keyHash)[..n] && LeWords(m') == PublicWords(m', keyHash')[..n];
    assert LeWords(keyHash) == PublicWords(m, keyHash)[n..] && LeWords(keyHash') == PublicWords(m', keyHash')[n..];
    LeWordsInvert(m);
    LeWordsInvert(m');
    LeWordsInvert(keyHash);
    LeWordsInvert(keyHash');
    assert m[2..] == message && m'[2..] == message';
  }

  /** The program and public values a verifier rebuilds from a message and a key hash. */
  function VerifierView(message: seq<byte>, keyHash: seq<byte>): Result<(Program, seq<Cell>), VerifyError> {
    if |message| != MESSAGE_BYTES || |keyHash| != KEY_HASH_BYTES then Err(VerifyError.InvalidInput)
    else Ok((ProgramFor(ML_DSA_65), Instance(MPrime(message).value, keyHash)))
  }

  /** A verifier's view, where it has one, determines the message and the key hash, whatever lengths they come in. */
  lemma VerifierViewBinds(message: seq<byte>, keyHash: seq<byte>, message': seq<byte>, keyHash': seq<byte>)
    requires VerifierView(message, keyHash).Ok?
    requires VerifierView(message, keyHash) == VerifierView(message', keyHash')
    ensures message == message' && keyHash == keyHash'
  {
    hide Instance, MPrime, ProgramFor;
    InstanceBinds(message, keyHash, message', keyHash');
  }

  type KeyHash = h: seq<byte> | |h| == KEY_HASH_BYTES witness seq(KEY_HASH_BYTES, _ => 0)

  datatype Inputs = Inputs(publicKey: seq<byte>, message: seq<byte>, signature: seq<byte>)

  /** What the pipeline returns for one call: host words, and the key hash of its first output. */
  datatype Traced = Traced(words: seq<Word>, keyHash: Option<KeyHash>)

  /** The verification pipeline, from a public key, M' and a signature; it refuses a bad signature. */
  type Pipeline = (seq<byte>, seq<byte>, seq<byte>) -> Option<Traced>

  datatype Job = Job(program: Program, public: seq<Cell>, table: Table)

  predicate SizesAreRight(inputs: Inputs) {
    && |inputs.message| == MESSAGE_BYTES
    && |inputs.publicKey| == ML_DSA_65.publicKey
    && |inputs.signature| == ML_DSA_65.signature
  }

  function TracedFor(pipeline: Pipeline, inputs: Inputs): Option<Traced>
    requires SizesAreRight(inputs)
  {
    pipeline(inputs.publicKey, MPrime(inputs.message).value, inputs.signature)
  }

  /** The pipeline got through on these inputs, and its words fit the table. */
  predicate HasTable(pipeline: Pipeline, inputs: Inputs)
    requires SizesAreRight(inputs)
  {
    var traced := TracedFor(pipeline, inputs);
    traced.Some? && |traced.value.words| <= Rows(ML_DSA_65)
  }

  /** The runtime check on the words and the key hash that the pipeline returned. */
  predicate IsPublished(pipeline: Pipeline, inputs: Inputs)
    requires SizesAreRight(inputs) && HasTable(pipeline, inputs)
  {
    var traced := TracedFor(pipeline, inputs).value;
    && traced.keyHash.Some?
    && EnsurePublished(ML_DSA_65, traced.words, MPrime(inputs.message).value, traced.keyHash.value)
  }

  /**
   * A prove call up to the proof system; `builds` says whether the library builds
   * the pipeline and the circuit. Whatever the pipeline returns, a job it lets
   * through has a table that satisfies its circuit, and is the instance a verifier
   * rebuilds from the message and the key hash. Each failure has its exact cause:
   * the token, a size that is off, a build that fails, a pipeline that refuses or
   * whose words do not fit, and published rows that hold anything else.
   */
  method Prove(pipeline: Pipeline, builds: bool, inputs: Inputs, cancel: Option<Cancellation.CancelToken>)
    returns (r: Result<Job, ProveError>)
    ensures WellFormed(ProgramFor(ML_DSA_65))
    ensures r == Err(ProveError.Cancelled) <==> Cancellation.IsRequested(cancel)
    ensures r == Err(ProveError.InvalidInput) <==> !Cancellation.IsRequested(cancel) && !SizesAreRight(inputs)
    ensures r == Err(Witness) <==>
      !Cancellation.IsRequested(cancel) && SizesAreRight(inputs) && builds && !HasTable(pipeline, inputs)
    ensures r == Err(Prover) <==>
      && !Cancellation.IsRequested(cancel) && SizesAreRight(inputs)
      && (!builds || (HasTable(pipeline, inputs) && !IsPublished(pipeline, inputs)))
    ensures r != Err(ProveError.Panic)
    ensures r.Ok? ==>
      var traced := TracedFor(pipeline, inputs).value;
      && VerifierView(inputs.message, traced.keyHash.value) == Ok((r.value.program, r.value.public))
      && r.value.program == ProgramFor(ML_DSA_65)
      && r.value.table == HostTable(traced.words, Rows(ML_DSA_65))
      && (forall edge :: Satisfies(r.value.program, r.value.table, r.value.public, edge))
  {
    hide Rows, ProgramFor, PublishedRows, Instance, PublicWords, HostTable, Satisfies, EnsurePublished;
    ProgramIsWellFormed(ML_DSA_65);
    var stop := Cancellation.EnsureNotCancelled(cancel);
    if stop.Some? {
      return Err(stop.value);
    }
    var mPrime := MPrime(inputs.message);
    if mPrime.None? || |inputs.publicKey| != ML_DSA_65.publicKey || |inputs.signature| != ML_DSA_65.signature {
      return Err(ProveError.InvalidInput);
    }
    if !builds {
      return Err(Prover);
    }
    var program := BuildProgram(ML_DSA_65);
    var traced := pipeline(inputs.publicKey, mPrime.value, inputs.signature);
    if traced.None? {
      return Err(Witness);
    }
    RowsHoldTheWords(ML_DSA_65);
    var host := HostTrace(traced.value.words, Rows(ML_DSA_65));
    if host.None? {
      return Err(Witness);
    }
    if traced.value.keyHash.None? {
      return Err(Prover);
    }
    var keyHash := traced.value.keyHash.value;
    if !EnsurePublished(ML_DSA_65, traced.value.words, mPrime.value, keyHash) {
      return Err(Prover);
    }
    forall edge
      ensures Satisfies(program, host.value, Instance(mPrime.value, keyHash), edge)
    {
      HostTableSatisfiesIffPublished(ML_DSA_65, traced.value.words, mPrime.value, keyHash, edge);
    }
    r := Ok(Job(program, Instance(mPrime.value, keyHash), host.value));
  }
}
