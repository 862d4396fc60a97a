/**
 * SHA-256 over an arbitrary compression function: the padding of section 5.1.1
 * and the chaining of section 6.2 of FIPS 180-4.
 */
module Sha256Hash {
  import opened Bytes
  import opened Numbers
  import opened PowersOfTwo

  const STATE_WORDS: nat := 8
  const BLOCK_WORDS: nat := 16
  const WORD_BYTES: nat := 4
  const BLOCK_BYTES: nat := 64
  const DIGEST_BYTES: nat := 32

  type Hash = h: seq<Word> | |h| == STATE_WORDS witness seq(STATE_WORDS, _ => 0)
  type Chunk = c: seq<Word> | |c| == BLOCK_WORDS witness seq(BLOCK_WORDS, _ => 0)
  type Compression = (Hash, Chunk) -> Hash

  function Iv(): Hash {
    [0x6a09_e667, 0xbb67_ae85, 0x3c6e_f372, 0xa54f_f53a, 0x510e_527f, 0x9b05_688c, 0x1f83_d9ab, 0x5be0_cd19]
  }

  predicate IsPrime(n: nat) {
    n >= 2 && forall d :: 2 <= d < n ==> n % d != 0
  }

  const FIRST_PRIMES: seq<nat> := [2, 3, 5, 7, 11, 13, 17, 19]

  /** They are the primes below 20, in order. */
  lemma FirstPrimesArePrime(n: nat)
    requires n < 20
    ensures n in FIRST_PRIMES <==> IsPrime(n)
    ensures forall i, j :: 0 <= i < j < STATE_WORDS ==> FIRST_PRIMES[i] < FIRST_PRIMES[j]
  {
    if n in [4, 6, 8, 10, 12, 14, 16, 18] {
      assert n % 2 == 0;
    } else if n in [9, 15] {
      assert n % 3 == 0;
    }
  }

  /** The first 32 bits of the fraction of the square root of p. */
  ghost predicate IsRootFraction(fraction: nat, p: nat) {
    fraction < 0x1_0000_0000
    && exists whole: nat :: IsRoot(0x1_0000_0000 * whole + fraction, p * 0x1_0000_0000_0000_0000)
  }

  predicate IsRoot(root: nat, square: nat) {
    root * root <= square < (root + 1) * (root + 1)
  }

  lemma IvValues()
    ensures WordNat(0x6a09_e667) == 0x6a09_e667 && WordNat(0xbb67_ae85) == 0xbb67_ae85
    ensures WordNat(0x3c6e_f372) == 0x3c6e_f372 && WordNat(0xa54f_f53a) == 0xa54f_f53a
    ensures WordNat(0x510e_527f) == 0x510e_527f && WordNat(0x9b05_688c) == 0x9b05_688c
    ensures WordNat(0x1f83_d9ab) == 0x1f83_d9ab && WordNat(0x5be0_cd19) == 0x5be0_cd19
  {}

  /** Section 5.3.3 of FIPS 180-4: the initial words are the fractions of the roots of the first eight primes. */
  lemma IvIsStandard(i: nat)
    requires i < STATE_WORDS
    ensures IsRootFraction(WordNat(Iv()[i]), FIRST_PRIMES[i])
  {
    IvValues();
    hide WordNat;
    var wholes := [1, 1, 2, 2, 3, 3, 4, 4];
    assert IsRoot(0x1_0000_0000 * wholes[i] + WordNat(Iv()[i]), FIRST_PRIMES[i] * 0x1_0000_0000_0000_0000);
  }

  /** The message length in bits, as the 64-bit number the code computes. */
  function BitLength(messageLen: nat): (bits: nat)
    ensures bits < WORD_LIMIT
  {
    messageLen * 8 % WORD_LIMIT
  }

  /** It is the length the standard asks for exactly below 2^61 bytes. */
  lemma BitLengthIsExact(messageLen: nat)
    ensures BitLength(messageLen) == 8 * messageLen <==> messageLen < 0x2000_0000_0000_0000
  {}

  /** The blocks of a padded message of any length. */
  function PaddedBlocks(messageLen: nat): (n: nat)
    ensures n >= 1
  {
    (messageLen + 8) / BLOCK_BYTES + 1
  }

  /** One bit, zeros, and the bit length in eight bytes, up to a whole block. */
  function PadTail(messageLen: nat): (tail: seq<byte>)
    ensures |tail| == BLOCK_BYTES * PaddedBlocks(messageLen) - messageLen
  {
    [0x80] + seq(BLOCK_BYTES * PaddedBlocks(messageLen) - messageLen - 9, _ => 0) + BeDigits(BitLength(messageLen), 8)
  }

  lemma WordsInBlocks(n: nat)
    ensures BLOCK_BYTES * n % WORD_BYTES == 0 && BLOCK_BYTES * n / WORD_BYTES == BLOCK_WORDS * n
  {
    assert BLOCK_BYTES * n == WORD_BYTES * (BLOCK_WORDS * n);
  }

  function Pad(message: seq<byte>): (padded: seq<byte>)
    ensures |padded| == BLOCK_BYTES * PaddedBlocks(|message|)
    ensures |padded| % WORD_BYTES == 0 && |padded| / WORD_BYTES == BLOCK_WORDS * PaddedBlocks(|message|)
    ensures message <= padded
  {
    WordsInBlocks(PaddedBlocks(|message|));
    message + PadTail(|message|)
  }

  function PaddedWords(message: seq<byte>): (words: seq<Word>)
    ensures |words| == BLOCK_WORDS * PaddedBlocks(|message|)
  {
    WordsFromBe(Pad(message))
  }

  function ChunkAt(words: seq<Word>, b: nat): Chunk
    requires BLOCK_WORDS * (b + 1) <= |words|
  {
    words[BLOCK_WORDS * b..BLOCK_WORDS * (b + 1)]
  }

  /** The hash value after the first n blocks. */
  function Chained(compress: Compression, words: seq<Word>, n: nat): Hash
    requires BLOCK_WORDS * n <= |words|
  {
    if n == 0 then Iv() else compress(Chained(compress, words, n - 1), ChunkAt(words, n - 1))
  }

  function Sha256(compress: Compression, message: seq<byte>): (digest: seq<byte>)
    ensures |digest| == DIGEST_BYTES
  {
    WordsToBe(Chained(compress, PaddedWords(message), PaddedBlocks(|message|)))
  }

  datatype Call = Call(hIn: Hash, block: Chunk)

  function Calls(compress: Compression, words: seq<Word>, n: nat): (calls: seq<Call>)
    requires BLOCK_WORDS * n <= |words|
    ensures |calls| == n
  {
    seq(n, b requires 0 <= b < n => Call(Chained(compress, words, b), ChunkAt(words, b)))
  }

  /** Threads the hash value through the blocks of the padded message. */
  method Sha256Calls(compress: Compression, message: seq<byte>) returns (calls: seq<Call>)
    ensures calls == Calls(compress, PaddedWords(message), PaddedBlocks(|message|))
    ensures WordsToBe(compress(calls[|calls| - 1].hIn, calls[|calls| - 1].block)) == Sha256(compress, message)
  {
    hide PaddedWords, PaddedBlocks, Iv, ChunkAt, WordsToBe;
    var words := PaddedWords(message);
    var h := Iv();
    calls := [];
    for b := 0 to PaddedBlocks(|message|)
      invariant h == Chained(compress, words, b)
      invariant calls == Calls(compress, words, b)
    {
      var call := Call(h, ChunkAt(words, b));
      h := compress(call.hIn, call.block);
      calls := calls + [call];
    }
  }

  /** The upper and the lower word of a 64-bit number. */
  function High(bits: nat): Word
    requires bits < WORD_LIMIT
  {
    NatWord(bits / 0x1_0000_0000)
  }

  function Low(bits: nat): Word {
    NatWord(bits % 0x1_0000_0000)
  }

  /** The block the program requires last, after a message of whole blocks. */
  function PaddingBlock(messageLen: nat): Chunk {
    var bits := BitLength(messageLen);
    [0x8000_0000] + seq(BLOCK_WORDS - 3, _ => 0) + [High(bits), Low(bits)]
  }

  method BuildPaddingBlock(messageLen: nat) returns (words: array<Word>)
    ensures words[..] == PaddingBlock(messageLen)
  {
    hide NatWord;
    var bits := BitLength(messageLen);
    words := new Word[BLOCK_WORDS](_ => 0);
    words[0] := 0x8000_0000;
    words[BLOCK_WORDS - 2] := High(bits);
    words[BLOCK_WORDS - 1] := Low(bits);
  }

  lemma MarkerValue()
    ensures WordNat(0x8000_0000) == 0x8000_0000
  {}

  /**
   * What the padding block says: a one bit and zeros, and then, for a message below
   * 2^61 bytes, its length in bits as a 64-bit big-endian number.
   */
  lemma PaddingBlockSpells(messageLen: nat)
    requires messageLen < 0x2000_0000_0000_0000
    ensures var block := PaddingBlock(messageLen);
            && WordNat(block[0]) == 0x8000_0000
            && (forall i :: 0 < i < BLOCK_WORDS - 2 ==> block[i] == 0)
            && 0x1_0000_0000 * WordNat(block[BLOCK_WORDS - 2]) + WordNat(block[BLOCK_WORDS - 1]) == 8 * messageLen
  {
    MarkerValue();
    hide NatWord, WordNat;
    var bits := BitLength(messageLen);
    NatWordValue(bits / 0x1_0000_0000);
    NatWordValue(bits % 0x1_0000_0000);
  }

  /**
   * Section 5.1.1 of FIPS 180-4, byte by byte: the message, a one bit, as few zeros
   * as reach a whole block, and the message length in bits in eight bytes.
   */
  lemma PadIsStandard(message: seq<byte>)
    requires |message| < 0x2000_0000_0000_0000
    ensures var padded, n := Pad(message), |message|;
            && |padded| % BLOCK_BYTES == 0 && n + 9 <= |padded| < n + 9 + BLOCK_BYTES
            && padded[..n] == message && padded[n] == 0x80
            && (forall k :: n < k < |padded| - 8 ==> padded[k] == 0)
            && BeValue(padded[|padded| - 8..]) == 8 * n
  {
    hide BeValue, PaddedBlocks, PadTail;
    var padded, n := Pad(message), |message|;
    var tail, end := PadTail(n), |padded| - 8;
    FewestBlocks(n);
    PadTailSpells(n);
    SliceOfConcat(message, tail, end, |padded|);
    SliceOfConcat(message, tail, 0, n);
    forall k | n < k < end
      ensures padded[k] == 0
    {
      assert padded[k] == tail[k - n];
    }
  }

  lemma PadTailSpells(messageLen: nat)
    requires messageLen < 0x2000_0000_0000_0000
    ensures var tail := PadTail(messageLen);
            && |tail| >= 9 && tail[0] == 0x80 && (forall k :: 0 < k < |tail| - 8 ==> tail[k] == 0)
            && BeValue(tail[|tail| - 8..]) == 8 * messageLen
  {
    hide BeDigits, BeValue, PaddedBlocks;
    FewestBlocks(messageLen);
    Pow2Values();
    hide Pow2;
    BeDigitsValue(8 * messageLen, 8);
    TailParts(BLOCK_BYTES * PaddedBlocks(messageLen) - messageLen - 9, BeDigits(8 * messageLen, 8));
  }

  lemma TailParts(zeros: nat, length: seq<byte>)
    requires |length| == 8
    ensures var tail := [0x80] + seq(zeros, _ => 0) + length;
            && |tail| == zeros + 9 && tail[0] == 0x80 && tail[|tail| - 8..] == length
            && (forall k :: 0 < k < |tail| - 8 ==> tail[k] == 0)
  {}

  lemma FewestBlocks(messageLen: nat)
    ensures messageLen + 9 <= BLOCK_BYTES * PaddedBlocks(messageLen) < messageLen + 9 + BLOCK_BYTES
    ensures BLOCK_BYTES * PaddedBlocks(messageLen) % BLOCK_BYTES == 0
  {}

  lemma PaddingBytesAsWords(messageLen: nat)
    requires messageLen % BLOCK_BYTES == 0
    ensures |PadTail(messageLen)| == BLOCK_BYTES
    ensures WordsFromBe(PadTail(messageLen)) == PaddingBlock(messageLen)
  {
    hide WordsFromBe, BeDigits, High, Low, PaddedBlocks;
    OneMoreBlock(messageLen);
    LengthAsWords(BitLength(messageLen));
  }

  lemma LengthDigits(bits: nat)
    requires bits < WORD_LIMIT
    ensures BeDigits(bits, 8) == BeDigits(bits / 0x1_0000_0000, 4) + BeDigits(bits % 0x1_0000_0000, 4)
  {
    hide BeDigits;
    Pow2Values();
    BeDigitsSplit(bits, bits / 0x1_0000_0000, bits % 0x1_0000_0000, 4, 4);
  }

  lemma LengthAsWords(bits: nat)
    requires bits < WORD_LIMIT
    ensures WordsFromBe([0x80] + seq(BLOCK_BYTES - 9, _ => 0) + BeDigits(bits, 8))
            == [0x8000_0000] + seq(BLOCK_WORDS - 3, _ => 0) + [High(bits), Low(bits)]
  {
    var high, low := BeDigits(bits / 0x1_0000_0000, 4), BeDigits(bits % 0x1_0000_0000, 4);
    var head, zeros: seq<byte> := [0x80, 0, 0, 0], seq(BLOCK_BYTES - 12, _ => 0);
    FirstAndZeroWords();
    hide WordFromBe, BeDigits;
    LengthDigits(bits);
    OneWord(head);
    OneWord(high);
    OneWord(low);
    ZeroWords(BLOCK_WORDS - 3);
    assert [0x80] + seq(BLOCK_BYTES - 9, _ => 0) == head + zeros;
    ThreeParts(head + zeros, high, low);
    hide WordsFromBe;
    WordsFromBeConcat(head, zeros);
    WordsFromBeConcat(head + zeros, high);
    WordsFromBeConcat(head + zeros + high, low);
  }

  lemma OneWord(bytes: seq<byte>)
    requires |bytes| == 4
    ensures WordsFromBe(bytes) == [WordFromBe(bytes)]
  {
    hide WordFromBe;
    assert bytes[0..4] == bytes;
  }

  lemma ZeroWords(count: nat)
    ensures WordsFromBe(seq(4 * count, _ => 0)) == seq(count, _ => 0)
  {
    FirstAndZeroWords();
    hide WordFromBe;
    var zeros: seq<byte> := seq(4 * count, _ => 0);
    forall i | 0 <= i < count
      ensures WordAt(zeros, i) == 0
    {
      assert zeros[4 * i..4 * i + 4] == [0, 0, 0, 0];
    }
  }

  lemma FirstAndZeroWords()
    ensures WordFromBe([0x80, 0, 0, 0]) == 0x8000_0000
    ensures WordFromBe([0, 0, 0, 0]) == 0
  {}

  lemma OneMoreBlock(messageLen: nat)
    requires messageLen % BLOCK_BYTES == 0
    ensures PaddedBlocks(messageLen) == messageLen / BLOCK_BYTES + 1
    ensures BLOCK_BYTES * PaddedBlocks(messageLen) - messageLen == BLOCK_BYTES
  {}

  /** A message of whole blocks pads to its own words and then the padding block. */
  lemma PaddingRefinesBytes(message: seq<byte>)
    requires |message| % BLOCK_BYTES == 0
    ensures PaddedBlocks(|message|) == |message| / BLOCK_BYTES + 1
    ensures PaddedWords(message) == WordsFromBe(message) + PaddingBlock(|message|)
  {
    hide WordsFromBe, PadTail, PaddingBlock, PaddedBlocks;
    OneMoreBlock(|message|);
    PaddingBytesAsWords(|message|);
    WordsFromBeConcat(message, PadTail(|message|));
  }
}
