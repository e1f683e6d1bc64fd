/**
  * The DER encoder of the test certificates: lengths, TLVs, INTEGER, OBJECT IDENTIFIER and named bit lists
  * (ITU-T X.690, sections 8.1.3, 8.3, 8.19, 10.1 and 11.2; section 4.2.1.3 of RFC 5280). Numbers are JavaScript
  * numbers: `>>` first reduces its operand to 32 bits with sign, which `Int32` writes out.
  */
module Der {
  import opened Text

  type byte = b: int | 0 <= b < 256

  const TWO_31: int := 0x8000_0000

  /** The 32-bit signed integer a JavaScript bit operator reads its operand as. */
  function Int32(x: int): (r: int)
    ensures -TWO_31 <= r < TWO_31
    ensures 0 <= x < TWO_31 ==> r == x
    ensures x >= 0 ==> r <= x
  {
    var m := x % 0x1_0000_0000;
    if m >= TWO_31 then m - 0x1_0000_0000 else m
  }

  /** The reduction keeps the low bits. */
  lemma Int32Low(x: int)
    ensures Int32(x) % 256 == x % 256 && Int32(x) % 128 == x % 128
  {
    var q := (x - Int32(x)) / 0x1_0000_0000;
    assert x == 0x1_0000_0000 * q + Int32(x);
    var k := 0x100_0000 * q;
    assert x == 256 * k + Int32(x);
    assert x == 128 * (2 * k) + Int32(x);
  }

  // ---------------------------------------------------------------- lengths and TLVs

  /** The digits the length loop leaves for `remaining`. */
  function LengthDigits(remaining: int): (r: seq<byte>)
    decreases if remaining > 0 then remaining else 0
  {
    if remaining <= 0 then [] else LengthDigits(Int32(remaining) / 256) + [remaining % 256]
  }

  lemma {:induction false} LengthDigitsBound(remaining: int)
    requires remaining < 0x80_0000
    ensures |LengthDigits(remaining)| <= 3
  {
    if remaining > 0 {
      var a := remaining / 256;
      assert LengthDigits(remaining) == LengthDigits(a) + [remaining % 256];
      if a > 0 {
        var b := a / 256;
        assert LengthDigits(a) == LengthDigits(b) + [a % 256];
        if b > 0 {
          assert b / 256 == 0 && LengthDigits(0) == [];
          assert LengthDigits(b) == LengthDigits(b / 256) + [b % 256];
        }
      }
    }
  }

  /** There are at most four of them, so the count always fits its octet. */
  lemma AtMostFourDigits(length: nat)
    ensures |LengthDigits(length)| <= 4
  {
    if length > 0 { LengthDigitsBound(Int32(length) / 256); }
  }

  function LengthHeader(length: nat): (r: seq<byte>)
  {
    if length < 0x80 then [length]
    else
      AtMostFourDigits(length);
      [0x80 + |LengthDigits(length)|] + LengthDigits(length)
  }

  method DerLength(length: nat) returns (r: seq<byte>)
    ensures r == LengthHeader(length)
  {
    if length < 0x80 { return [length]; }
    var bytes: seq<byte> := [];
    var remaining: int := length;
    while remaining > 0
      invariant LengthDigits(length) == LengthDigits(remaining) + bytes
      decreases if remaining > 0 then remaining else 0
    {
      bytes := [remaining % 256] + bytes;
      remaining := Int32(remaining) / 256;
    }
    AtMostFourDigits(length);
    r := [0x80 + |bytes|] + bytes;
  }

  /** Tag octet, length header, contents octets. */
  function Tlv(tag: byte, content: seq<byte>): (r: seq<byte>)
  {
    [tag] + LengthHeader(|content|) + content
  }

  // ---------------------------------------------------------------- INTEGER

  function Base256(n: nat): (r: seq<byte>)
  {
    if n == 0 then [] else Base256(n / 256) + [n % 256]
  }

  /** The base-256 digits of a value, at least one. */
  function IntegerDigits(value: nat): (r: seq<byte>)
    ensures r != []
  {
    if value == 0 then [0] else Base256(value)
  }

  /** The content octets of a non-negative INTEGER, in two's complement (section 8.3 of ITU-T X.690). */
  function IntegerContent(value: nat): (r: seq<byte>)
  {
    if IntegerDigits(value)[0] >= 0x80 then [0] + IntegerDigits(value) else IntegerDigits(value)
  }

  method IntegerBytes(value: nat) returns (bytes: seq<byte>)
    ensures bytes == IntegerDigits(value)
  {
    bytes := [value % 256];
    var remaining: nat := value / 256;
    assert value > 0 ==> Base256(value) == Base256(remaining) + bytes;
    while remaining > 0
      invariant IntegerDigits(value) == Base256(remaining) + bytes
    {
      assert Base256(remaining) + bytes == Base256(remaining / 256) + ([remaining % 256] + bytes);
      bytes := [remaining % 256] + bytes;
      remaining := remaining / 256;
    }
  }

  method DerInteger(value: nat) returns (r: seq<byte>)
    ensures r == Tlv(0x02, IntegerContent(value))
  {
    hide IntegerDigits, LengthHeader;
    var bytes := IntegerBytes(value);
    if bytes[0] >= 0x80 { bytes := [0] + bytes; }
    var length := DerLength(|bytes|);
    r := [0x02] + length + bytes;
  }

  // ---------------------------------------------------------------- OBJECT IDENTIFIER

  /** The continuation octets the arc loop leaves for `remaining`. */
  function HighGroups(remaining: int): (r: seq<byte>)
    ensures forall i :: 0 <= i < |r| ==> r[i] >= 0x80
    decreases if remaining > 0 then remaining else 0
  {
    if remaining <= 0 then [] else HighGroups(Int32(remaining) / 128) + [remaining % 128 + 0x80]
  }

  function ArcOctets(part: nat): (r: seq<byte>)
  {
    HighGroups(Int32(part) / 128) + [part % 128]
  }

  function ArcsOctets(parts: seq<nat>): (r: seq<byte>)
  {
    if parts == [] then [] else ArcOctets(parts[0]) + ArcsOctets(parts[1..])
  }

  function OidContent(arcs: seq<nat>): (r: seq<byte>)
    requires |arcs| >= 2
  {
    [(arcs[0] * 40 + arcs[1]) % 256] + ArcsOctets(arcs[2..])
  }

  method ArcChunk(part: nat) returns (chunk: seq<byte>)
    ensures chunk == ArcOctets(part)
  {
    chunk := [part % 128];
    var remaining := Int32(part) / 128;
    while remaining > 0
      invariant ArcOctets(part) == HighGroups(remaining) + chunk
      decreases if remaining > 0 then remaining else 0
    {
      chunk := [remaining % 128 + 0x80] + chunk;
      remaining := Int32(remaining) / 128;
    }
  }

  method DerOid(parts: seq<nat>) returns (r: seq<byte>)
    requires |parts| >= 2
    ensures r == Tlv(0x06, OidContent(parts))
  {
    var bytes: seq<byte> := [(parts[0] * 40 + parts[1]) % 256];
    var i := 2;
    while i < |parts|
      invariant 2 <= i <= |parts|
      invariant OidContent(parts) == bytes + ArcsOctets(parts[i..])
    {
      var chunk := ArcChunk(parts[i]);
      assert parts[i..][0] == parts[i] && parts[i..][1..] == parts[i + 1..];
      bytes := bytes + chunk;
      i := i + 1;
    }
    var length := DerLength(|bytes|);
    r := [0x06] + length + bytes;
  }

  // ---------------------------------------------------------------- keyUsage

  /** The bit positions of the usages a fixture can assert. */
  datatype Usage = DigitalSignature | NonRepudiation | KeyEncipherment | DataEncipherment | KeyAgreement | KeyCertSign | CRLSign

  function BitOf(u: Usage): (bit: nat)
    ensures bit <= 6
  {
    match u
    case DigitalSignature => 0
    case NonRepudiation => 1
    case KeyEncipherment => 2
    case DataEncipherment => 3
    case KeyAgreement => 4
    case KeyCertSign => 5
    case CRLSign => 6
  }

  /** `0x80 >> bit` */
  function Mask(bit: nat): (m: bv8)
    requires bit <= 7
  {
    if bit == 0 then 0x80 else if bit == 1 then 0x40 else if bit == 2 then 0x20 else if bit == 3 then 0x10
    else if bit == 4 then 0x08 else if bit == 5 then 0x04 else if bit == 6 then 0x02 else 0x01
  }

  predicate HasBit(b: bv8, bit: nat)
    requires bit <= 7
  {
    b & Mask(bit) != 0
  }

  lemma OrSetsOneBit(b: bv8, bit: nat, other: nat)
    requires bit <= 7 && other <= 7
    ensures HasBit(b | Mask(bit), other) <==> HasBit(b, other) || other == bit
  {
  }

  ghost function Bits(usages: seq<Usage>): (r: set<nat>)
  {
    set i | 0 <= i < |usages| :: BitOf(usages[i])
  }

  predicate OctetHasBit(b: byte, bit: nat)
    requires bit <= 7
  {
    HasBit(b as bv8, bit)
  }

  /** A content octet string lists exactly `bits`, in the named-bit-list form with no trailing zero bit. */
  ghost predicate NamedBits(content: seq<byte>, bits: set<nat>)
  {
    if bits == {} then content == [0]
    else
      && |content| == 2 && content[0] <= 7
      && OctetHasBit(content[1], 7 - content[0])
      && (forall i :: 0 <= i <= 7 ==> (OctetHasBit(content[1], i) <==> i in bits))
      && (forall i :: 7 - content[0] < i <= 7 ==> !OctetHasBit(content[1], i))
  }

  lemma NothingSet()
    ensures Bits([]) == {} && forall bit :: 0 <= bit <= 7 ==> !HasBit(0, bit)
  {
  }

  /** The BIT STRING content of a key usage list. */
  method KeyUsageContent(usages: seq<Usage>) returns (content: seq<byte>)
    ensures NamedBits(content, Bits(usages))
  {
    hide HasBit, BitOf, Bits;
    var b: bv8 := 0;
    NothingSet();
    assert usages[..0] == [];
    var highest: int := -1;
    var i := 0;
    while i < |usages|
      invariant 0 <= i <= |usages| && -1 <= highest <= 6
      invariant highest == -1 <==> i == 0
      invariant highest >= 0 ==> highest in Bits(usages[..i])
      invariant forall bit :: bit in Bits(usages[..i]) ==> bit <= highest
      invariant forall bit :: 0 <= bit <= 7 ==> (HasBit(b, bit) <==> bit in Bits(usages[..i]))
    {
      var bit := BitOf(usages[i]);
      AddUsage(usages, i);
      forall other | 0 <= other <= 7
        ensures HasBit(b | Mask(bit), other) <==> HasBit(b, other) || other == bit
      {
        OrSetsOneBit(b, bit, other);
      }
      b := b | Mask(bit);
      if bit > highest { highest := bit; }
      i := i + 1;
    }
    assert usages[..|usages|] == usages;
    if highest < 0 {
      content := [0];
      assert Bits(usages) == {};
    } else {
      content := [7 - highest, b as int];
      assert content[1] as bv8 == b;
    }
  }

  lemma AddUsage(usages: seq<Usage>, i: nat)
    requires i < |usages|
    ensures Bits(usages[..i + 1]) == Bits(usages[..i]) + {BitOf(usages[i])}
  {
    var longer, shorter := usages[..i + 1], usages[..i];
    forall b ensures b in Bits(longer) <==> b in Bits(shorter) || b == BitOf(usages[i]) {
      if b in Bits(longer) {
        var k :| 0 <= k < |longer| && BitOf(longer[k]) == b;
        if k < i { assert shorter[k] == longer[k]; }
      }
      if b in Bits(shorter) {
        var k :| 0 <= k < |shorter| && BitOf(shorter[k]) == b;
        assert longer[k] == shorter[k];
      }
      assert longer[i] == usages[i];
    }
  }

  // ---------------------------------------------------------------- extensions

  /** Identifier, the critical mark when it is set, and the value as an OCTET STRING (section 4.1 of RFC 5280). */
  function Extension(oid: seq<nat>, critical: bool, value: seq<byte>): (r: seq<byte>)
    requires |oid| >= 2
  {
    Tlv(0x30, Tlv(0x06, OidContent(oid)) + (if critical then Tlv(0x01, [0xff]) else []) + Tlv(0x04, value))
  }

  const KEY_USAGE_OID: seq<nat> := [2, 5, 29, 15]

  method KeyUsageExtension(usages: seq<Usage>) returns (r: seq<byte>, ghost content: seq<byte>)
    ensures r == Extension(KEY_USAGE_OID, true, Tlv(0x03, content))
    ensures NamedBits(content, Bits(usages))
  {
    var c := KeyUsageContent(usages);
    content := c;
    r := Extension(KEY_USAGE_OID, true, Tlv(0x03, c));
  }
}
