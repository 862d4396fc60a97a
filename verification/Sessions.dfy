/** The message both example apps expand from a challenge, written once in Swift and once in Kotlin. */
module Sessions {
  import opened Bytes
  import opened Numbers
  import opened PowersOfTwo

  const DIGEST_BYTES: nat := 32

  type Digest = d: seq<byte> | |d| == DIGEST_BYTES witness seq(DIGEST_BYTES, _ => 0)
  type Hasher = seq<byte> -> Digest

  /** A counter as eight little-endian bytes. */
  function CounterBytes(counter: nat): (b: seq<byte>)
    ensures |b| == 8
  {
    LeDigits(counter % WORD_LIMIT, 8)
  }

  /** Eight bytes are a counter below 2^64 exactly when that is the little-endian number they spell. */
  lemma CounterBytesSpell(counter: nat, bytes: seq<byte>)
    requires counter < WORD_LIMIT && |bytes| == 8
    ensures bytes == CounterBytes(counter) <==> LeValue(bytes) == counter
  {
    hide LeDigits, LeValue;
    Pow2Values();
    LeDigitsValue(counter, 8);
    if LeValue(bytes) == counter {
      LeValueDecides(bytes, CounterBytes(counter));
    }
  }

  function StreamBlock(h: Hasher, seed: seq<byte>, i: nat): Digest {
    h(seed + CounterBytes(i))
  }

  /** The first n digests of the stream. */
  function Stream(h: Hasher, seed: seq<byte>, n: nat): (bytes: seq<byte>)
    ensures |bytes| == DIGEST_BYTES * n
  {
    if n == 0 then [] else Stream(h, seed, n - 1) + StreamBlock(h, seed, n - 1)
  }

  /** The first count bytes of the stream. */
  function Expand(h: Hasher, seed: seq<byte>, count: nat): (message: seq<byte>)
    ensures |message| == count
  {
    Stream(h, seed, (count + DIGEST_BYTES - 1) / DIGEST_BYTES)[..count]
  }

  lemma {:induction false} StreamExtends(h: Hasher, seed: seq<byte>, n: nat, m: nat)
    requires n <= m
    ensures Stream(h, seed, n) == Stream(h, seed, m)[..DIGEST_BYTES * n]
  {
    hide StreamBlock;
    if n < m {
      StreamExtends(h, seed, n, m - 1);
      var before, block := Stream(h, seed, m - 1), StreamBlock(h, seed, m - 1);
      assert Stream(h, seed, m) == before + block;
      hide Stream;
      CutsInside(before, block, DIGEST_BYTES * n);
    } else {
      assert Stream(h, seed, n)[..DIGEST_BYTES * n] == Stream(h, seed, n);
    }
  }

  /** Any long enough stream cut to count bytes is the expansion. */
  lemma CutStream(h: Hasher, seed: seq<byte>, count: nat, n: nat)
    requires count <= DIGEST_BYTES * n
    ensures Stream(h, seed, n)[..count] == Expand(h, seed, count)
  {
    var least := (count + DIGEST_BYTES - 1) / DIGEST_BYTES;
    StreamExtends(h, seed, least, n);
    assert Stream(h, seed, n)[..count] == Stream(h, seed, n)[..DIGEST_BYTES * least][..count];
  }

  /** A shorter expansion is a prefix of a longer one. */
  lemma ExpansionsAreNested(h: Hasher, seed: seq<byte>, short: nat, long: nat)
    requires short <= long
    ensures Expand(h, seed, short) == Expand(h, seed, long)[..short]
  {
    hide Stream;
    var n := (long + DIGEST_BYTES - 1) / DIGEST_BYTES;
    CutStream(h, seed, short, n);
    assert Stream(h, seed, n)[..long][..short] == Stream(h, seed, n)[..short];
  }

  /**
   * Byte k of an expansion is byte k % 32 of the digest of the seed and the eight
   * bytes that spell k / 32, least significant first.
   */
  lemma ExpandAt(h: Hasher, seed: seq<byte>, count: nat, k: nat, counter: seq<byte>)
    requires k < count && |counter| == 8 && LeValue(counter) == k / 32
    ensures Expand(h, seed, count)[k] == h(seed + counter)[k % 32]
  {
    hide CounterBytes, LeValue, Expand, Stream;
    var i := k / DIGEST_BYTES;
    Pow2Values();
    LeValueBound(counter);
    CounterBytesSpell(i, counter);
    ExpansionsAreNested(h, seed, k + 1, count);
    CutStream(h, seed, k + 1, i + 1);
    assert Expand(h, seed, count)[k] == Stream(h, seed, i + 1)[..k + 1][k];
    StreamAt(h, seed, i, k % DIGEST_BYTES);
  }

  lemma StreamAt(h: Hasher, seed: seq<byte>, i: nat, offset: nat)
    requires offset < DIGEST_BYTES
    ensures Stream(h, seed, i + 1)[DIGEST_BYTES * i + offset] == StreamBlock(h, seed, i)[offset]
  {
    hide StreamBlock;
  }

  /** The Swift loop appends whole digests and cuts the message at the end. */
  method SwiftExpand(h: Hasher, seed: seq<byte>, count: nat) returns (message: seq<byte>)
    requires count + DIGEST_BYTES < 0x8000_0000_0000_0000
    ensures message == Expand(h, seed, count)
  {
    hide CounterBytes;
    message := [];
    var counter := 0;
    while |message| < count
      invariant |message| < count + DIGEST_BYTES
      invariant message == Stream(h, seed, counter)
    {
      assert counter + 1 < WORD_LIMIT;
      message := message + h(seed + CounterBytes(counter));
      counter := counter + 1;
    }
    CutStream(h, seed, count, counter);
    message := message[..count];
  }

  /** The platform digest: updates pile up until a digest takes them all. */
  class MessageDigest {
    const h: Hasher
    var pending: seq<byte>

    constructor (h: Hasher)
      ensures this.h == h && pending == []
    {
      this.h := h;
      pending := [];
    }

    method Update(bytes: seq<byte>)
      modifies this
      ensures pending == old(pending) + bytes
    {
      pending := pending + bytes;
    }

    method Finish() returns (digest: Digest)
      modifies this
      ensures digest == h(old(pending)) && pending == []
    {
      digest := h(pending);
      pending := [];
    }
  }

  method PutLong(buffer: array<byte>, value: nat)
    requires buffer.Length == 8
    modifies buffer
    ensures buffer[..] == CounterBytes(value)
  {
    hide CounterBytes;
    var bytes := CounterBytes(value);
    for i := 0 to 8
      invariant buffer[..i] == bytes[..i]
    {
      buffer[i] := bytes[i];
    }
  }

  method CopyInto(source: seq<byte>, target: array<byte>, offset: nat, take: nat)
    requires take <= |source| && offset + take <= target.Length
    modifies target
    ensures target[..] == old(target[..offset]) + source[..take] + old(target[offset + take..])
  {
    ghost var was := target[..];
    for i := 0 to take
      invariant forall k :: 0 <= k < i ==> target[offset + k] == source[k]
      invariant forall k :: 0 <= k < offset || offset + i <= k < target.Length ==> target[k] == was[k]
    {
      target[offset + i] := source[i];
    }
    assert target[..offset] == was[..offset] && target[offset + take..] == was[offset + take..];
    assert target[offset..offset + take] == source[..take];
    assert target[..] == target[..offset] + target[offset..offset + take] + target[offset + take..];
  }

  /** The Kotlin loop fills an array in place and clips the last digest. */
  method KotlinExpand(h: Hasher, seed: seq<byte>, count: nat) returns (message: array<byte>)
    requires count < 0x8000_0000
    ensures fresh(message) && message[..] == Expand(h, seed, count)
  {
    hide CounterBytes, Expand;
    var sha := new MessageDigest(h);
    var counter := new byte[8];
    message := new byte[count];
    var offset, index := 0, 0;
    CutStream(h, seed, 0, 0);
    while offset < count
      invariant offset == if DIGEST_BYTES * index < count then DIGEST_BYTES * index else count
      invariant sha.pending == [] && sha.h == h
      invariant message[..offset] == Expand(h, seed, offset)
      decreases count - offset
    {
      sha.Update(seed);
      PutLong(counter, index);
      sha.Update(counter[..]);
      assert sha.pending == seed + CounterBytes(index);
      var block := sha.Finish();
      var take := if |block| < count - offset then |block| else count - offset;
      ghost var before := message[..offset];
      CopyInto(block, message, offset, take);
      OneMoreBlock(h, seed, index, take);
      assert message[..offset + take] == before + block[..take];
      offset := offset + take;
      index := index + 1;
    }
    assert message[..] == message[..count];
  }

  lemma OneMoreBlock(h: Hasher, seed: seq<byte>, i: nat, take: nat)
    requires take <= DIGEST_BYTES
    ensures Expand(h, seed, DIGEST_BYTES * i) + StreamBlock(h, seed, i)[..take]
            == Expand(h, seed, DIGEST_BYTES * i + take)
  {
    hide Expand, StreamBlock;
    var before := Stream(h, seed, i);
    CutStream(h, seed, DIGEST_BYTES * i, i + 1);
    CutStream(h, seed, DIGEST_BYTES * i + take, i + 1);
    assert Stream(h, seed, i + 1) == before + StreamBlock(h, seed, i);
    hide Stream;
    CutConcat(before, StreamBlock(h, seed, i), take);
  }

  lemma CutsInside(a: seq<byte>, b: seq<byte>, take: nat)
    requires take <= |a|
    ensures (a + b)[..take] == a[..take]
  {}

  lemma CutConcat(a: seq<byte>, b: seq<byte>, take: nat)
    requires take <= |b|
    ensures (a + b)[..|a| + take] == (a + b)[..|a|] + b[..take]
  {}
}
