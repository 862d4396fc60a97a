/**
 * The reader of an RSAPublicKey structure (appendix A.1.1 of RFC 8017): which
 * byte strings it accepts, and what it returns for them.
 */
module RsaSigner {
  import opened Bytes
  import opened Numbers
  import opened PowersOfTwo
  import opened Errors

  const MODULUS_BITS: nat := 2048
  const MODULUS_BYTES: nat := 256
  const INTEGER: byte := 0x02
  const SEQUENCE: byte := 0x30

  function PublicExponent(): seq<byte> {
    [0x01, 0x00, 0x01]
  }

  datatype SignerError =
    | ExpectedTag
    | MissingLength
    | UnsupportedLengthForm
    | PastTheEnd
    | TrailingBytes
    | UnsupportedExponent
    | NotAModulus

  /** The outcome of a read and the bytes it leaves. */
  datatype Reading<+T> = Reading(result: Result<T, SignerError>, rest: seq<byte>)

  function ReadLength(rest: seq<byte>): Reading<nat> {
    if rest == [] then Reading(Err(MissingLength), [])
    else
      var first, tail := rest[0], rest[1..];
      if first < 0x80 then Reading(Ok(ByteNat(first)), tail)
      else
        var octets := ByteNat(first & 0x7f);
        if !(1 <= octets <= 2) || |tail| < octets then Reading(Err(UnsupportedLengthForm), tail)
        else Reading(Ok(BeValue(tail[..octets])), tail[octets..])
  }

  function Read(rest: seq<byte>, tag: byte): Reading<seq<byte>> {
    if rest == [] then Reading(Err(ExpectedTag), [])
    else if rest[0] != tag then Reading(Err(ExpectedTag), rest[1..])
    else
      var length := ReadLength(rest[1..]);
      match length.result
      case Err(e) => Reading(Err(e), length.rest)
      case Ok(n) =>
        if n > |length.rest| then Reading(Err(PastTheEnd), length.rest)
        else Reading(Ok(length.rest[..n]), length.rest[n..])
  }

  /** The reader: each read consumes the front of what is left. */
  class DerReader {
    var rest: seq<byte>

    constructor (bytes: seq<byte>)
      ensures rest == bytes
    {
      rest := bytes;
    }

    method PopFirst() returns (first: Option<byte>)
      modifies this
      ensures first == if old(rest) == [] then None else Some(old(rest)[0])
      ensures rest == if old(rest) == [] then [] else old(rest)[1..]
    {
      if rest == [] {
        return None;
      }
      first := Some(rest[0]);
      rest := rest[1..];
    }

    method ReadLengthOctets() returns (r: Result<nat, SignerError>)
      modifies this
      ensures Reading(r, rest) == ReadLength(old(rest))
    {
      hide ByteNat;
      var first := PopFirst();
      if first.None? {
        return Err(MissingLength);
      }
      if first.value < 0x80 {
        return Ok(ByteNat(first.value));
      }
      var octets := ByteNat(first.value & 0x7f);
      if !(1 <= octets <= 2) || |rest| < octets {
        return Err(UnsupportedLengthForm);
      }
      var length := 0;
      for i := 0 to octets
        invariant length == BeValue(rest[..i])
      {
        length := 256 * length + ByteNat(rest[i]);
        assert rest[..i + 1][..i] == rest[..i];
      }
      rest := rest[octets..];
      r := Ok(length);
    }

    method ReadContent(tag: byte) returns (r: Result<seq<byte>, SignerError>)
      modifies this
      ensures Reading(r, rest) == Read(old(rest), tag)
    {
      hide ReadLength;
      var found := PopFirst();
      if found.None? || found.value != tag {
        return Err(ExpectedTag);
      }
      var length := ReadLengthOctets();
      if length.Err? {
        return Err(length.error);
      }
      if length.value > |rest| {
        return Err(PastTheEnd);
      }
      r := Ok(rest[..length.value]);
      rest := rest[length.value..];
    }
  }

  function Modulus(encoded: seq<byte>): Result<seq<byte>, SignerError> {
    var outer := Read(encoded, SEQUENCE);
    if outer.result.Err? then Err(outer.result.error)
    else
      var modulus := Read(outer.result.value, INTEGER);
      if modulus.result.Err? then Err(modulus.result.error)
      else
        var exponent := Read(modulus.rest, INTEGER);
        if exponent.result.Err? then Err(exponent.result.error)
        else if outer.rest != [] || exponent.rest != [] then Err(TrailingBytes)
        else if exponent.result.value != PublicExponent() then Err(UnsupportedExponent)
        else
          var magnitude := Magnitude(modulus.result.value);
          if IsModulus(magnitude) then Ok(magnitude) else Err(NotAModulus)
  }

  /** An INTEGER's content without its sign octet. */
  function Magnitude(content: seq<byte>): seq<byte> {
    if content != [] && content[0] == 0 then content[1..] else content
  }

  /** 2048 bits, the top one set. */
  predicate IsModulus(magnitude: seq<byte>) {
    |magnitude| == MODULUS_BYTES && magnitude[0] & 0x80 != 0
  }

  lemma TopBit(b: byte)
    ensures b & 0x80 != 0 <==> ByteNat(b) >= 0x80
  {}

  /** A modulus is any number of exactly 2048 bits, in 256 bytes. */
  lemma IsModulusExactly(magnitude: seq<byte>)
    requires |magnitude| == MODULUS_BYTES
    ensures IsModulus(magnitude) <==> Pow2(MODULUS_BITS - 1) <= BeValue(magnitude) < Pow2(MODULUS_BITS)
  {
    Pow2Eight();
    hide Pow2;
    var top, low := magnitude[0], magnitude[1..];
    TopBit(top);
    BeValueSplits([top], low);
    TwoBytes([top]);
    BeValueBound(low);
    BeValueBound(magnitude);
    assert [top] + low == magnitude && 8 * |low| == 2040;
    Pow2Add(7, 2040);
    hide BeValue, ByteNat;
    TopByteDecides(ByteNat(top), BeValue(low), Pow2(2040));
  }

  lemma TopByteDecides(top: nat, low: nat, p: nat)
    requires low < p
    ensures 0x80 * p <= top * p + low <==> top >= 0x80
  {
    if top >= 0x80 {
      MoreTimes(0x80, top, p);
    } else {
      MoreTimes(top + 1, 0x80, p);
      OneMoreTime(top, p);
    }
  }

  lemma MoreTimes(a: nat, b: nat, p: nat)
    requires a <= b
    ensures a * p <= b * p
  {
    assert b * p == a * p + (b - a) * p by { SplitTimes(a, b - a, p); }
  }

  lemma SplitTimes(a: nat, d: nat, p: nat)
    ensures (a + d) * p == a * p + d * p
  {}

  lemma OneMoreTime(a: nat, p: nat)
    ensures (a + 1) * p == a * p + p
  {}

  /** The exponent is 65537. */
  lemma PublicExponentValue()
    ensures BeValue(PublicExponent()) == 65537
  {
    var e := PublicExponent();
    assert e[..2] == [0x01, 0x00];
    TwoBytes(e[..2]);
    OneByte();
    hide ByteNat;
  }

  lemma OneByte()
    ensures ByteNat(1) == 1 && ByteNat(0) == 0
  {}

  method ModulusFromPkcs1PublicKey(encoded: seq<byte>) returns (r: Result<seq<byte>, SignerError>)
    ensures r == Modulus(encoded)
  {
    hide Read;
    var outer := new DerReader(encoded);
    var body := outer.ReadContent(SEQUENCE);
    if body.Err? {
      return Err(body.error);
    }
    var sequence := new DerReader(body.value);
    var modulus := sequence.ReadContent(INTEGER);
    if modulus.Err? {
      return Err(modulus.error);
    }
    var exponent := sequence.ReadContent(INTEGER);
    if exponent.Err? {
      return Err(exponent.error);
    }
    if outer.rest != [] || sequence.rest != [] {
      return Err(TrailingBytes);
    }
    if exponent.value != PublicExponent() {
      return Err(UnsupportedExponent);
    }
    var magnitude := Magnitude(modulus.value);
    if !IsModulus(magnitude) {
      return Err(NotAModulus);
    }
    r := Ok(magnitude);
  }

  /** How a length is written: in one octet, or after a count of one or two octets. */
  datatype Form = Short | Long1 | Long2

  predicate Holds(form: Form, n: nat) {
    match form
    case Short => n < 0x80
    case Long1 => n < 0x100
    case Long2 => n < 0x1_0000
  }

  function EncodeLength(n: nat, form: Form): (b: seq<byte>)
    requires Holds(form, n)
    ensures |b| == match form case Short => 1 case Long1 => 2 case Long2 => 3
  {
    match form
    case Short => [NatByte(n)]
    case Long1 => [0x81, NatByte(n)]
    case Long2 => [0x82, NatByte(n / 0x100), NatByte(n % 0x100)]
  }

  /** What the octets say: the length itself, or how many octets follow and then the length. */
  lemma LengthOctets(n: nat, form: Form)
    requires Holds(form, n)
    ensures var b := EncodeLength(n, form);
            match form
            case Short => ByteNat(b[0]) == n
            case Long1 => ByteNat(b[0]) == 0x80 + 1 && BeValue(b[1..]) == n
            case Long2 => ByteNat(b[0]) == 0x80 + 2 && BeValue(b[1..]) == n
  {
    LongFormOctets();
    hide ByteNat, NatByte;
    var b := EncodeLength(n, form);
    match form
    case Short => NatByteValue(n);
    case Long1 =>
      NatByteValue(n);
      TwoBytes(b[1..]);
    case Long2 =>
      NatByteValue(n / 0x100);
      NatByteValue(n % 0x100);
      TwoBytes(b[1..]);
  }

  lemma LongFormOctets()
    ensures ByteNat(0x81) == 0x81 && ByteNat(0x82) == 0x82
  {}

  /** The shortest form, the one section 10.1 of X.690 demands of DER. */
  function Minimal(n: nat): (form: Form)
    requires n < 0x1_0000
    ensures Holds(form, n)
  {
    if n < 0x80 then Short else if n < 0x100 then Long1 else Long2
  }

  lemma MinimalIsShortest(n: nat, form: Form)
    requires Holds(form, n)
    ensures |EncodeLength(n, Minimal(n))| <= |EncodeLength(n, form)|
  {
    hide NatByte;
  }

  function Encode(tag: byte, content: seq<byte>, form: Form): (b: seq<byte>)
    requires Holds(form, |content|)
    ensures |b| == 1 + |EncodeLength(|content|, form)| + |content|
  {
    [tag] + EncodeLength(|content|, form) + content
  }

  lemma LongForms(first: byte)
    requires first >= 0x80
    ensures ByteNat(first & 0x7f) == 1 <==> first == 0x81
    ensures ByteNat(first & 0x7f) == 2 <==> first == 0x82
  {}

  /** Reading a written length gives it back, in every form. */
  lemma ReadEncodedLength(n: nat, form: Form, rest: seq<byte>)
    requires Holds(form, n)
    ensures ReadLength(EncodeLength(n, form) + rest) == Reading(Ok(n), rest)
  {
    hide ByteNat, NatByte;
    var bytes := EncodeLength(n, form) + rest;
    match form
    case Short =>
      NatByteValue(n);
      ByteOrder(NatByte(n));
      assert bytes[1..] == rest;
    case Long1 =>
      NatByteValue(n);
      LongForms(0x81);
      TwoBytes(bytes[1..][..1]);
      assert bytes[1..][1..] == rest;
    case Long2 =>
      NatByteValue(n / 0x100);
      NatByteValue(n % 0x100);
      LongForms(0x82);
      TwoBytes(bytes[1..][..2]);
      assert bytes[1..][2..] == rest;
  }

  /** Every length that is read was written in one of the three forms. */
  lemma ReadLengthIsEncoded(bytes: seq<byte>) returns (form: Form)
    requires ReadLength(bytes).result.Ok?
    ensures var read := ReadLength(bytes);
            Holds(form, read.result.value) && bytes == EncodeLength(read.result.value, form) + read.rest
  {
    hide ByteNat, NatByte;
    var first, tail := bytes[0], bytes[1..];
    var n := ReadLength(bytes).result.value;
    ByteOrder(first);
    ByteNatByte(first);
    if first < 0x80 {
      form := Short;
    } else {
      LongForms(first);
      ByteNatByte(tail[0]);
      if first == 0x81 {
        TwoBytes(tail[..1]);
        form := Long1;
      } else {
        TwoBytes(tail[..2]);
        ByteNatByte(tail[1]);
        assert n / 0x100 == ByteNat(tail[0]) && n % 0x100 == ByteNat(tail[1]);
        form := Long2;
      }
    }
  }

  lemma ReadEncoded(tag: byte, content: seq<byte>, form: Form, rest: seq<byte>)
    requires Holds(form, |content|)
    ensures Read(Encode(tag, content, form) + rest, tag) == Reading(Ok(content), rest)
  {
    hide EncodeLength, ReadLength;
    var bytes := Encode(tag, content, form) + rest;
    assert bytes[1..] == EncodeLength(|content|, form) + (content + rest);
    ReadEncodedLength(|content|, form, content + rest);
  }

  lemma ReadIsEncoded(bytes: seq<byte>, tag: byte) returns (form: Form)
    requires Read(bytes, tag).result.Ok?
    ensures var read := Read(bytes, tag);
            Holds(form, |read.result.value|) && bytes == Encode(tag, read.result.value, form) + read.rest
  {
    hide EncodeLength, ReadLength;
    form := ReadLengthIsEncoded(bytes[1..]);
    var length := ReadLength(bytes[1..]);
    assert bytes == [tag] + bytes[1..];
    assert length.rest == length.rest[..length.result.value] + length.rest[length.result.value..];
  }

  function ModulusContent(modulus: seq<byte>, signOctet: bool): seq<byte> {
    if signOctet then [0x00] + modulus else modulus
  }

  /** The RSAPublicKey of a modulus, with or without its sign octet, the exponent's length in a chosen form. */
  function PublicKey(modulus: seq<byte>, signOctet: bool, exponentForm: Form): (encoded: seq<byte>)
    requires |modulus| == MODULUS_BYTES
  {
    Encode(SEQUENCE,
           Encode(INTEGER, ModulusContent(modulus, signOctet), Long2) + Encode(INTEGER, PublicExponent(), exponentForm),
           Long2)
  }

  /** DER: the sign octet is there and every length is in its shortest form. */
  function Print(modulus: seq<byte>): (encoded: seq<byte>)
    requires |modulus| == MODULUS_BYTES
  {
    var integers := Encode(INTEGER, [0x00] + modulus, Minimal(1 + MODULUS_BYTES))
                    + Encode(INTEGER, PublicExponent(), Minimal(|PublicExponent()|));
    Encode(SEQUENCE, integers, Minimal(|integers|))
  }

  lemma ReaderAccepts(modulus: seq<byte>, signOctet: bool, exponentForm: Form)
    requires IsModulus(modulus)
    ensures Modulus(PublicKey(modulus, signOctet, exponentForm)) == Ok(modulus)
  {
    hide Encode, Read, EncodeLength;
    var content := ModulusContent(modulus, signOctet);
    var first, second := Encode(INTEGER, content, Long2), Encode(INTEGER, PublicExponent(), exponentForm);
    var encoded := PublicKey(modulus, signOctet, exponentForm);
    assert encoded == encoded + [] && second == second + [];
    ReadEncoded(SEQUENCE, first + second, Long2, []);
    ReadEncoded(INTEGER, content, Long2, second);
    ReadEncoded(INTEGER, PublicExponent(), exponentForm, []);
    TopBitIsNotZero(modulus[0]);
    assert Magnitude(content) == modulus;
  }

  lemma TopBitIsNotZero(b: byte)
    requires b & 0x80 != 0
    ensures b != 0
  {}

  lemma LengthForced(n: nat, form: Form)
    requires Holds(form, n) && n >= 0x100
    ensures form == Long2
  {}

  lemma AcceptedIsPublicKey(encoded: seq<byte>) returns (signOctet: bool, exponentForm: Form)
    requires Modulus(encoded).Ok?
    ensures IsModulus(Modulus(encoded).value)
    ensures encoded == PublicKey(Modulus(encoded).value, signOctet, exponentForm)
  {
    hide Encode, Read, EncodeLength;
    var outer := Read(encoded, SEQUENCE);
    var integers := outer.result.value;
    var first := Read(integers, INTEGER);
    var second := Read(first.rest, INTEGER);
    var modulus := Modulus(encoded).value;
    var outerForm := ReadIsEncoded(encoded, SEQUENCE);
    var firstForm := ReadIsEncoded(integers, INTEGER);
    exponentForm := ReadIsEncoded(first.rest, INTEGER);
    signOctet := first.result.value != [] && first.result.value[0] == 0;
    assert first.result.value == ModulusContent(modulus, signOctet);
    LengthForced(|first.result.value|, firstForm);
    LengthForced(|integers|, outerForm);
    assert Encode(INTEGER, PublicExponent(), exponentForm) + [] == Encode(INTEGER, PublicExponent(), exponentForm);
    assert encoded == Encode(SEQUENCE, integers, Long2) + [] == Encode(SEQUENCE, integers, Long2);
  }

  /**
   * What the reader accepts, exactly: one SEQUENCE of two INTEGERs with nothing
   * left over, the second 65537, the first a number of 2048 bits with or without its
   * sign octet. It is that number that is returned.
   */
  lemma AcceptedExactly(encoded: seq<byte>, modulus: seq<byte>)
    ensures Modulus(encoded) == Ok(modulus)
            <==> && |modulus| == MODULUS_BYTES && Pow2(MODULUS_BITS - 1) <= BeValue(modulus) < Pow2(MODULUS_BITS)
                 && exists signOctet, form :: encoded == PublicKey(modulus, signOctet, form)
  {
    if |modulus| == MODULUS_BYTES {
      IsModulusExactly(modulus);
    }
    hide Modulus, PublicKey, BeValue, Pow2;
    if Modulus(encoded) == Ok(modulus) {
      var signOctet, form := AcceptedIsPublicKey(encoded);
    }
    if IsModulus(modulus) {
      forall signOctet, form | encoded == PublicKey(modulus, signOctet, form)
        ensures Modulus(encoded) == Ok(modulus)
      {
        ReaderAccepts(modulus, signOctet, form);
      }
    }
  }

  /** The reader undoes the DER printer, for every number of 2048 bits. */
  lemma ReadsWhatIsPrinted(n: nat)
    requires Pow2(MODULUS_BITS - 1) <= n < Pow2(MODULUS_BITS)
    ensures var modulus := BeDigits(n, MODULUS_BYTES);
            BeValue(modulus) == n && Modulus(Print(modulus)) == Ok(modulus)
  {
    hide Modulus, Encode, Pow2, BeValue, BeDigits;
    var modulus := BeDigits(n, MODULUS_BYTES);
    BeDigitsValue(n, MODULUS_BYTES);
    IsModulusExactly(modulus);
    PrintIsPublicKey(modulus);
    ReaderAccepts(modulus, true, Short);
  }

  lemma ByteAt(n: nat, b: byte)
    requires n < 0x100 && ByteNat(b) == n
    ensures NatByte(n) == b
  {
    hide NatByte;
    ByteNatByte(b);
  }

  /** The printed key, byte by byte (appendix A.1.1 of RFC 8017, section 8.1 of X.690). */
  lemma PrintIsSpelledOut(modulus: seq<byte>)
    requires |modulus| == MODULUS_BYTES
    ensures Print(modulus)
            == [0x30, 0x82, 0x01, 0x0a, 0x02, 0x82, 0x01, 0x01, 0x00] + modulus + [0x02, 0x03, 0x01, 0x00, 0x01]
  {
    ByteAt(0x0a, 0x0a);
    ByteAt(0x03, 0x03);
    ByteAt(0x01, 0x01);
    hide NatByte;
    var content := [0x00] + modulus;
    assert EncodeLength(257, Long2) == [0x82, 0x01, 0x01];
    assert EncodeLength(3, Short) == [0x03];
    assert EncodeLength(266, Long2) == [0x82, 0x01, 0x0a];
    hide EncodeLength;
    assert Encode(INTEGER, content, Long2) == [0x02, 0x82, 0x01, 0x01, 0x00] + modulus;
    assert Encode(INTEGER, PublicExponent(), Short) == [0x02, 0x03, 0x01, 0x00, 0x01];
  }

  lemma PrintIsPublicKey(modulus: seq<byte>)
    requires |modulus| == MODULUS_BYTES
    ensures Print(modulus) == PublicKey(modulus, true, Short)
  {
    hide EncodeLength;
  }

  /** The bytes returned have the unsigned value of the first INTEGER. */
  lemma SignOctetKeepsValue(content: seq<byte>)
    ensures BeValue(Magnitude(content)) == BeValue(content)
  {
    hide ByteNat;
    if content != [] && content[0] == 0 {
      LeadingZero(content);
    }
  }

  lemma {:induction false} LeadingZero(content: seq<byte>)
    requires content != [] && content[0] == 0
    ensures BeValue(content[1..]) == BeValue(content)
  {
    hide ByteNat;
    if |content| == 1 {
      ZeroByte();
      assert content[..0] == [];
    } else {
      LeadingZero(content[..|content| - 1]);
      assert content[..|content| - 1][1..] == content[1..][..|content| - 2];
    }
  }

  lemma ZeroByte()
    ensures ByteNat(0) == 0
  {}

  /**
   * The reader is wider than DER: what it accepts is the printed form exactly when
   * the exponent length is short and the sign octet is there, two things a caller
   * sees in the bytes.
   */
  lemma AcceptedIsDerExactly(encoded: seq<byte>, modulus: seq<byte>)
    requires IsModulus(modulus) && Modulus(encoded) == Ok(modulus)
    ensures encoded == Print(modulus) <==> |encoded| == 270 && encoded[8] == 0x00
  {
    hide Modulus, EncodeLength;
    var signOctet, form := AcceptedIsPublicKey(encoded);
    PrintIsPublicKey(modulus);
    TopBitIsNotZero(modulus[0]);
    ContentAt(modulus, signOctet, form);
    ContentAt(modulus, true, Short);
  }

  lemma ContentAt(modulus: seq<byte>, signOctet: bool, form: Form)
    requires |modulus| == MODULUS_BYTES
    ensures var encoded := PublicKey(modulus, signOctet, form);
            && |encoded| == (match form case Short => 269 case Long1 => 270 case Long2 => 271)
                            + (if signOctet then 1 else 0)
            && encoded[8] == ModulusContent(modulus, signOctet)[0]
  {
    hide EncodeLength;
  }

  /** A key no DER printer writes, and the reader accepts: no sign octet, and a padded length. */
  lemma AcceptsMoreThanDer(modulus: seq<byte>)
    requires IsModulus(modulus)
    ensures Modulus(PublicKey(modulus, false, Long2)) == Ok(modulus)
    ensures PublicKey(modulus, false, Long2) != Print(modulus)
  {
    hide Modulus, EncodeLength;
    ReaderAccepts(modulus, false, Long2);
    PrintIsPublicKey(modulus);
    ContentAt(modulus, false, Long2);
    ContentAt(modulus, true, Short);
  }
}
