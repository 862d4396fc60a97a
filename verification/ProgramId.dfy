/** The program id a proof carries: 32 bytes printed as 64 lowercase hex digits. */
module ProgramId {
  import opened Bytes
  import opened Numbers
  import opened Errors

  const ID_BYTES: nat := 32

  datatype IdError = BadLength(digits: nat) | BadByte(at: nat)

  function HexValue(digit: byte): Option<byte> {
    if 0x30 <= digit <= 0x39 then Some(digit - 0x30)
    else if 0x61 <= digit <= 0x66 then Some(digit - 0x61 + 10)
    else None
  }

  function HexPair(high: byte, low: byte): Option<byte> {
    match (HexValue(high), HexValue(low))
    case (Some(h), Some(l)) => Some((h << 4) | l)
    case _ => None
  }

  function HexDigit(value: byte): byte
    requires value < 16
  {
    if value < 10 then value + 0x30 else value - 10 + 0x61
  }

  function HighDigit(b: byte): byte {
    HexDigit((b >> 4) & 0x0f)
  }

  function LowDigit(b: byte): byte {
    HexDigit(b & 0x0f)
  }

  lemma PairOfDigits(b: byte)
    ensures HexPair(HighDigit(b), LowDigit(b)) == Some(b)
  {}

  lemma DigitsOfPair(high: byte, low: byte)
    requires HexPair(high, low).Some?
    ensures HighDigit(HexPair(high, low).value) == high && LowDigit(HexPair(high, low).value) == low
  {}

  /** Prints an id. */
  function Print(id: seq<byte>): (hex: seq<byte>)
    ensures |hex| == 2 * |id|
  {
    seq(2 * |id|, k requires 0 <= k < 2 * |id| => if k % 2 == 0 then HighDigit(id[k / 2]) else LowDigit(id[k / 2]))
  }

  function PairAt(hex: seq<byte>, i: nat): Option<byte>
    requires 2 * i + 1 < |hex|
  {
    HexPair(hex[2 * i], hex[2 * i + 1])
  }

  /** One of the characters 0 to 9 and a to f. */
  predicate IsHexDigit(digit: byte) {
    48 <= ByteNat(digit) <= 57 || 97 <= ByteNat(digit) <= 102
  }

  predicate IsLowercaseHex(hex: seq<byte>) {
    forall k :: 0 <= k < |hex| ==> IsHexDigit(hex[k])
  }

  /** The value of a digit: 0 to 9 count from character 48, a to f from character 97. */
  function DigitNat(digit: byte): int {
    if ByteNat(digit) <= 57 then ByteNat(digit) - 48 else ByteNat(digit) - 97 + 10
  }

  /** The number a string of digits spells in base 16, most significant first. */
  function HexNumber(hex: seq<byte>): int {
    if hex == [] then 0 else 16 * HexNumber(hex[..|hex| - 1]) + DigitNat(hex[|hex| - 1])
  }

  lemma HexValueOfDigit(digit: byte)
    ensures HexValue(digit).Some? <==> IsHexDigit(digit)
  {}

  /** A pair of digits has a value exactly when both are hex, and it is their number. */
  lemma PairValue(high: byte, low: byte)
    ensures HexPair(high, low).Some? <==> IsHexDigit(high) && IsHexDigit(low)
    ensures HexPair(high, low).Some? ==> ByteNat(HexPair(high, low).value) == 16 * DigitNat(high) + DigitNat(low)
  {}

  lemma LastTwoDigits(hex: seq<byte>)
    requires |hex| >= 2
    ensures var n := |hex| - 2;
            HexNumber(hex) == 256 * HexNumber(hex[..n]) + 16 * DigitNat(hex[n]) + DigitNat(hex[n + 1])
  {
    hide DigitNat;
    var n := |hex| - 2;
    assert hex[..n + 1][..n] == hex[..n];
    assert HexNumber(hex[..n + 1]) == 16 * HexNumber(hex[..n]) + DigitNat(hex[n]);
  }

  lemma PrintedEnd(id: seq<byte>)
    requires id != []
    ensures var n, hex := |id| - 1, Print(id);
            hex[..2 * n] == Print(id[..n]) && hex[2 * n] == HighDigit(id[n]) && hex[2 * n + 1] == LowDigit(id[n])
  {
    hide HighDigit, LowDigit;
  }

  /** A printed id spells, in base 16, the number its bytes spell. */
  lemma {:induction false} PrintValue(id: seq<byte>)
    ensures HexNumber(Print(id)) == BeValue(id)
  {
    hide HexPair, HighDigit, LowDigit, DigitNat, ByteNat, Print;
    if id != [] {
      var n := |id| - 1;
      var hex := Print(id);
      hide HexNumber;
      PrintedEnd(id);
      PrintValue(id[..n]);
      LastTwoDigits(hex);
      PairOfDigits(id[n]);
      PairValue(hex[2 * n], hex[2 * n + 1]);
    }
  }

  /** The bytes of the first n pairs. */
  ghost predicate Spells(hex: seq<byte>, id: seq<byte>, n: nat)
    requires 2 * n <= |hex| && n <= |id|
  {
    forall i :: 0 <= i < n ==> PairAt(hex, i) == Some(id[i])
  }

  /**
   * Decodes an id pair by pair. It succeeds exactly on 64 lowercase hex digits,
   * with the one id that prints as them and is their number; otherwise it names the length, or the
   * first pair that is not hex.
   */
  method Decode(hex: seq<byte>) returns (r: Result<seq<byte>, IdError>)
    ensures r.Ok? <==> |hex| == 64 && IsLowercaseHex(hex)
    ensures r.Ok? ==> |r.value| == 32 && Print(r.value) == hex
    ensures r.Ok? ==> BeValue(r.value) == HexNumber(hex)
    ensures forall id :: r.Ok? && Print(id) == hex ==> id == r.value
    ensures r.Err? && r.error.BadLength? <==> |hex| != 64
    ensures r.Err? && r.error.BadByte? ==>
      && r.error.at < ID_BYTES && PairAt(hex, r.error.at).None?
      && forall i :: 0 <= i < r.error.at ==> PairAt(hex, i).Some?
  {
    hide HexPair, HighDigit, LowDigit, IsHexDigit, HexNumber, BeValue;
    if |hex| != 2 * ID_BYTES {
      return Err(BadLength(|hex|));
    }
    var id := new byte[ID_BYTES](_ => 0);
    for i := 0 to ID_BYTES
      invariant Spells(hex, id[..], i)
    {
      var pair := PairAt(hex, i);
      if pair.None? {
        BadPair(hex, i);
        return Err(BadByte(i));
      }
      id[i] := pair.value;
    }
    SpelledPrints(hex, id[..]);
    PrintValue(id[..]);
    r := Ok(id[..]);
  }

  lemma BadPair(hex: seq<byte>, i: nat)
    requires 2 * i + 1 < |hex| && PairAt(hex, i).None?
    ensures !IsLowercaseHex(hex)
  {
    PairValue(hex[2 * i], hex[2 * i + 1]);
  }

  lemma SpelledPrints(hex: seq<byte>, id: seq<byte>)
    requires |hex| == 2 * |id| && Spells(hex, id, |id|)
    ensures Print(id) == hex && IsLowercaseHex(hex)
    ensures forall other :: |other| == |id| && Print(other) == hex ==> other == id
  {
    hide HighDigit, LowDigit, HexPair, IsHexDigit;
    forall k | 0 <= k < |hex|
      ensures Print(id)[k] == hex[k] && IsHexDigit(hex[k])
    {
      PairValue(hex[2 * (k / 2)], hex[2 * (k / 2) + 1]);
      assert PairAt(hex, k / 2) == Some(id[k / 2]);
      assert hex[k] == hex[2 * (k / 2)] || hex[k] == hex[2 * (k / 2) + 1];
      DigitsOfPair(hex[2 * (k / 2)], hex[2 * (k / 2) + 1]);
    }
    forall other | |other| == |id| && Print(other) == hex
      ensures other == id
    {
      PrintDecides(other, id);
    }
  }

  /** Two ids that print alike are the same id. */
  lemma PrintDecides(a: seq<byte>, b: seq<byte>)
    requires Print(a) == Print(b)
    ensures a == b
  {
    hide HexPair, HighDigit, LowDigit;
    assert |a| == |b|;
    forall i | 0 <= i < |a|
      ensures a[i] == b[i]
    {
      assert Print(a)[2 * i] == HighDigit(a[i]) && Print(a)[2 * i + 1] == LowDigit(a[i]);
      assert Print(b)[2 * i] == HighDigit(b[i]) && Print(b)[2 * i + 1] == LowDigit(b[i]);
      PairOfDigits(a[i]);
      PairOfDigits(b[i]);
    }
  }

  /** A printed id is always lowercase hex, so decoding it gives it back. */
  lemma PrintIsLowercaseHex(id: seq<byte>)
    ensures IsLowercaseHex(Print(id))
  {
    hide HexPair, HighDigit, LowDigit, IsHexDigit;
    forall k | 0 <= k < |Print(id)|
      ensures IsHexDigit(Print(id)[k])
    {
      PairOfDigits(id[k / 2]);
      PairValue(HighDigit(id[k / 2]), LowDigit(id[k / 2]));
    }
  }
}
