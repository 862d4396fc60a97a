/** The RSA example: big-endian bytes as little-endian limbs, and the checks before a proof. */
module Rsa {
  import opened Bytes
  import opened Numbers
  import opened PowersOfTwo
  import opened Errors
  import Cancellation
  import opened Sha256Hash

  const LIMBS: nat := 64
  const MODULUS_BYTES: nat := 4 * LIMBS
  const MESSAGE_BLOCKS: nat := 1

  /** The four bytes of limb j, counted from the end. */
  function LimbBytes(bigEndian: seq<byte>, j: nat): (b: seq<byte>)
    requires 4 * (j + 1) <= |bigEndian|
    ensures |b| == 4
  {
    var at := |bigEndian| - 4 * (j + 1);
    bigEndian[at..at + 4]
  }

  /** The limbs of a byte string of whole words: limb 0 is its last word. */
  function LimbsOf(bigEndian: seq<byte>): (limbs: seq<Word>)
    requires |bigEndian| % 4 == 0
    ensures |limbs| == |bigEndian| / 4
  {
    seq(|bigEndian| / 4, j requires 0 <= j < |bigEndian| / 4 => WordFromBe(LimbBytes(bigEndian, j)))
  }

  function Limbs(bigEndian: seq<byte>): Option<seq<Word>> {
    if |bigEndian| == MODULUS_BYTES then Some(LimbsOf(bigEndian)) else None
  }

  /** The sum of limb[j] * 2^(32 j) over the first n limbs. */
  function LimbSum(limbs: seq<Word>, n: nat): (value: nat)
    requires n <= |limbs|
  {
    if n == 0 then 0 else LimbSum(limbs, n - 1) + WordNat(limbs[n - 1]) * Pow2(32 * (n - 1))
  }

  lemma EmptyValue(b: seq<byte>)
    requires b == []
    ensures BeValue(b) == 0
  {}

  /** The limbs keep the value: limb j stands for the bytes of weight 2^(32 j). */
  lemma {:induction false} LimbsKeepValueUpTo(bytes: seq<byte>, n: nat)
    requires |bytes| % 4 == 0 && 4 * n <= |bytes|
    ensures LimbSum(LimbsOf(bytes), n) == BeValue(bytes[|bytes| - 4 * n..])
  {
    hide WordFromBe, ByteNat, WordNat, BeValue, Pow2;
    if n == 0 {
      EmptyValue(bytes[|bytes|..]);
    } else {
      LimbsKeepValueUpTo(bytes, n - 1);
      var head, tail := LimbBytes(bytes, n - 1), bytes[|bytes| - 4 * (n - 1)..];
      assert LimbsOf(bytes)[n - 1] == WordFromBe(head);
      assert bytes[|bytes| - 4 * n..] == head + tail;
      BeWordValue(head);
      BeValueSplits(head, tail);
      assert 8 * |tail| == 32 * (n - 1);
    }
  }

  lemma LimbsKeepValue(bytes: seq<byte>)
    requires |bytes| % 4 == 0
    ensures LimbSum(LimbsOf(bytes), |bytes| / 4) == BeValue(bytes)
  {
    LimbsKeepValueUpTo(bytes, |bytes| / 4);
    assert bytes[0..] == bytes;
  }

  /** The bytes a limb vector stands for. */
  function BytesOf(limbs: seq<Word>): (bytes: seq<byte>)
    ensures |bytes| == 4 * |limbs|
  {
    var n := |limbs|;
    seq(4 * n, k requires 0 <= k < 4 * n => WordToBe(limbs[n - 1 - k / 4])[k % 4])
  }

  lemma ByteOfLimbs(bytes: seq<byte>, n: nat, i: nat, c: nat)
    requires |bytes| == 4 * n && i < n && c < 4
    ensures BytesOf(LimbsOf(bytes))[4 * i + c] == bytes[4 * i + c]
  {
    hide WordToBe, WordFromBe;
    var j := n - 1 - i;
    assert (4 * i + c) / 4 == i && (4 * i + c) % 4 == c;
    assert LimbsOf(bytes)[j] == WordFromBe(LimbBytes(bytes, j));
    BytesBeRoundTrip(LimbBytes(bytes, j));
    assert LimbBytes(bytes, j)[c] == bytes[4 * i + c];
  }

  lemma BytesOfLimbs(bytes: seq<byte>)
    requires |bytes| % 4 == 0
    ensures BytesOf(LimbsOf(bytes)) == bytes
  {
    hide LimbsOf, BytesOf;
    forall k | 0 <= k < |bytes|
      ensures BytesOf(LimbsOf(bytes))[k] == bytes[k]
    {
      ByteOfLimbs(bytes, |bytes| / 4, k / 4, k % 4);
    }
  }

  lemma LimbsOfBytes(limbs: seq<Word>)
    ensures LimbsOf(BytesOf(limbs)) == limbs
  {
    hide WordToBe, WordFromBe, BytesOf;
    forall j | 0 <= j < |limbs|
      ensures LimbsOf(BytesOf(limbs))[j] == limbs[j]
    {
      BytesOfLimb(limbs, j);
      WordBeRoundTrip(limbs[j]);
    }
  }

  /** The bytes a limb vector gives for limb j are the limb's own. */
  lemma BytesOfLimb(limbs: seq<Word>, j: nat)
    requires j < |limbs|
    ensures LimbBytes(BytesOf(limbs), j) == WordToBe(limbs[j])
  {
    hide WordToBe;
    var i := |limbs| - 1 - j;
    forall b | 0 <= b < 4
      ensures LimbBytes(BytesOf(limbs), j)[b] == WordToBe(limbs[j])[b]
    {
      assert (4 * i + b) / 4 == i && (4 * i + b) % 4 == b;
    }
  }

  /** The limbs of a modulus or a signature hold the numbers below 2^2048, every one of them. */
  lemma LimbsHold2048Bits(n: nat)
    ensures n < Pow2(2048) <==> exists bytes :: |bytes| == MODULUS_BYTES && LimbSum(LimbsOf(bytes), LIMBS) == n
  {
    hide Pow2, LimbSum, LimbsOf, BeValue;
    if n < Pow2(2048) {
      var bytes := BeDigits(n, MODULUS_BYTES);
      BeDigitsValue(n, MODULUS_BYTES);
      LimbsKeepValue(bytes);
    }
    if bytes :| |bytes| == MODULUS_BYTES && LimbSum(LimbsOf(bytes), LIMBS) == n {
      BeValueBound(bytes);
      LimbsKeepValue(bytes);
    }
  }

  /** A message is hashed in one block exactly up to 55 bytes. */
  lemma OneBlockMessages(message: seq<byte>)
    ensures |Pad(message)| / BLOCK_BYTES == MESSAGE_BLOCKS <==> |message| <= 55
  {
    hide Pad;
    assert BLOCK_BYTES * PaddedBlocks(|message|) / BLOCK_BYTES == PaddedBlocks(|message|);
  }

  datatype Inputs = Inputs(modulus: seq<byte>, message: seq<byte>, signature: seq<byte>)

  /** Raises a signature to the public exponent under a modulus; None when its arguments are refused. */
  type Modexp = (seq<Word>, seq<Word>) -> Option<seq<Word>>

  /** The padded encoding of a message's SHA-256 digest, in limbs. */
  type Encoding = seq<byte> -> seq<Word>

  predicate SizesAreRight(inputs: Inputs) {
    && |inputs.message| <= 55
    && |inputs.modulus| == MODULUS_BYTES
    && |inputs.signature| == MODULUS_BYTES
  }

  /**
   * The checks before a witness is built, in order: the token, the sizes, the
   * statement (`builds` says whether the library builds it), the signature. Only
   * inputs whose signature opens to the encoded message pass, and they pass with
   * limbs that keep the values of the modulus and the signature.
   */
  method Check(modexp: Modexp, encoding: Encoding, builds: bool, inputs: Inputs,
               cancel: Option<Cancellation.CancelToken>)
    returns (r: Result<(seq<Word>, seq<Word>), ProveError>)
    ensures r == Err(ProveError.Cancelled) <==> Cancellation.IsRequested(cancel)
    ensures !Cancellation.IsRequested(cancel) ==>
      if !SizesAreRight(inputs) then r == Err(ProveError.InvalidInput)
      else if !builds then r == Err(Prover)
      else
        var recovered := modexp(LimbsOf(inputs.modulus), LimbsOf(inputs.signature));
        && (r == Err(ProveError.InvalidInput) <==> recovered.None?)
        && (r == Err(Witness) <==> recovered.Some? && recovered.value != encoding(inputs.message))
        && (r.Ok? <==> recovered == Some(encoding(inputs.message)))
    ensures r.Ok? ==>
      && |r.value.0| == |r.value.1| == LIMBS
      && LimbSum(r.value.0, LIMBS) == BeValue(inputs.modulus)
      && LimbSum(r.value.1, LIMBS) == BeValue(inputs.signature)
  {
    hide LimbsOf, LimbSum, BeValue;
    var stop := Cancellation.EnsureNotCancelled(cancel);
    if stop.Some? {
      return Err(stop.value);
    }
    OneBlockMessages(inputs.message);
    if |Pad(inputs.message)| / BLOCK_BYTES != MESSAGE_BLOCKS {
      return Err(ProveError.InvalidInput);
    }
    var modulus := Limbs(inputs.modulus);
    if modulus.None? {
      return Err(ProveError.InvalidInput);
    }
    var signature := Limbs(inputs.signature);
    if signature.None? {
      return Err(ProveError.InvalidInput);
    }
    if !builds {
      return Err(Prover);
    }
    LimbsKeepValue(inputs.modulus);
    LimbsKeepValue(inputs.signature);
    var recovered := modexp(modulus.value, signature.value);
    if recovered.None? {
      return Err(ProveError.InvalidInput);
    }
    if recovered.value != encoding(inputs.message) {
      return Err(Witness);
    }
    r := Ok((modulus.value, signature.value));
  }
}
