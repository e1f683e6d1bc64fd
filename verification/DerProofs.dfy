/**
  * The encoders against a strict DER decoder: what is decoded back, exactly when, and that no other octets decode to
  * the same thing. The decoder refuses every length, INTEGER, subidentifier or bit list that is not minimal.
  */
module DerProofs {
  import opened Text
  import opened Der

  // ---------------------------------------------------------------- a strict decoder

  function BigEndian(bs: seq<byte>): (n: nat)
  {
    if bs == [] then 0 else BigEndian(bs[..|bs| - 1]) * 256 + bs[|bs| - 1]
  }

  /** A definite length in its shortest form, and the octets after it. */
  function DecodeLength(bs: seq<byte>): (r: Option<(nat, seq<byte>)>)
    ensures r.Some? ==> |r.value.1| < |bs|
  {
    if bs == [] then None
    else if bs[0] < 0x80 then Some((bs[0], bs[1..]))
    else
      var k := bs[0] - 0x80;
      if k == 0 || bs[0] == 0xff || |bs| < 1 + k || bs[1] == 0 || BigEndian(bs[1..1 + k]) < 0x80 then None
      else Some((BigEndian(bs[1..1 + k]), bs[1 + k..]))
  }

  /** A tag, its content and the octets after it. */
  function DecodeTlv(bs: seq<byte>): (r: Option<(byte, seq<byte>, seq<byte>)>)
    ensures r.Some? ==> |r.value.1| + |r.value.2| < |bs|
  {
    if bs == [] then None
    else
      match DecodeLength(bs[1..])
      case None => None
      case Some((n, rest)) => if |rest| < n then None else Some((bs[0], rest[..n], rest[n..]))
  }

  // ---------------------------------------------------------------- base 256

  lemma {:induction false} BigEndianOfBase256(n: nat)
    ensures BigEndian(Base256(n)) == n
    ensures n > 0 ==> Base256(n) != [] && Base256(n)[0] > 0
  {
    if n > 0 {
      BigEndianOfBase256(n / 256);
      assert Base256(n)[..|Base256(n)| - 1] == Base256(n / 256);
    }
  }

  lemma {:induction false} BigEndianPositive(bs: seq<byte>)
    requires bs != [] && bs[0] > 0
    ensures BigEndian(bs) > 0
  {
    if |bs| > 1 { BigEndianPositive(bs[..|bs| - 1]); }
  }

  /** Octets with no leading zero are the base-256 digits of their value. */
  lemma {:induction false} Base256OfBigEndian(bs: seq<byte>)
    requires bs != [] ==> bs[0] > 0
    ensures Base256(BigEndian(bs)) == bs
  {
    if bs != [] {
      var front, last := bs[..|bs| - 1], bs[|bs| - 1];
      BigEndianPositive(bs);
      Base256OfBigEndian(front);
      DivMod256(BigEndian(front), last);
      assert bs == front + [last];
    }
  }

  lemma DivMod256(q: nat, r: byte)
    ensures (q * 256 + r) / 256 == q && (q * 256 + r) % 256 == r
  {
  }

  lemma {:induction false} ShortDigits(n: nat)
    requires n < TWO_31
    ensures LengthDigits(n) == Base256(n)
  {
    if n > 0 { ShortDigits(n / 256); }
  }

  // ---------------------------------------------------------------- lengths

  lemma LengthDecodes(n: nat, rest: seq<byte>)
    requires n < TWO_31
    ensures DecodeLength(LengthHeader(n) + rest) == Some((n, rest))
  {
    hide BigEndian, Base256, LengthDigits;
    if n < 0x80 {
      assert ([n] + rest)[1..] == rest;
    } else {
      var digits := LengthDigits(n);
      ShortDigits(n);
      BigEndianOfBase256(n);
      AtMostFourDigits(n);
      var bs := LengthHeader(n) + rest;
      assert bs[1..1 + |digits|] == digits && bs[1 + |digits|..] == rest;
      assert bs[1] == digits[0];
    }
  }

  /** The value of the digits the loop leaves for a length of 2^31 or more. */
  lemma LongDigitsValue(n: nat)
    requires n >= TWO_31
    ensures BigEndian(LengthDigits(n)) < n
  {
    var t := Int32(n);
    var front := LengthDigits(t / 256);
    var digits := LengthDigits(n);
    Int32Low(n);
    assert digits == front + [n % 256] && digits[..|digits| - 1] == front;
    if t >= 0 {
      ShortDigits(t / 256);
      BigEndianOfBase256(t / 256);
      assert BigEndian(digits) == t / 256 * 256 + t % 256 == t;
    } else {
      assert front == [];
    }
  }

  /** A length comes back exactly when it is below 2^31: above, the 32-bit shift of the loop loses it. */
  lemma LengthRoundTrip(n: nat, rest: seq<byte>)
    ensures DecodeLength(LengthHeader(n) + rest) == Some((n, rest)) <==> n < TWO_31
  {
    if n < TWO_31 {
      LengthDecodes(n, rest);
    } else {
      hide BigEndian, LengthDigits;
      LongDigitsValue(n);
      var digits := LengthDigits(n);
      AtMostFourDigits(n);
      var bs := LengthHeader(n) + rest;
      assert bs[0] == 0x80 + |digits|;
      assert bs[1..1 + |digits|] == digits;
    }
  }

  /** The shortest form is the only one decoded: the octets of a length are its header. */
  lemma LengthIsCanonical(bs: seq<byte>)
    requires DecodeLength(bs).Some? && DecodeLength(bs).value.0 < TWO_31
    ensures var (n, rest) := DecodeLength(bs).value; bs == LengthHeader(n) + rest
  {
    hide BigEndian, LengthDigits, Base256;
    var (n, rest) := DecodeLength(bs).value;
    if bs[0] >= 0x80 {
      var k := bs[0] - 0x80;
      var digits := bs[1..1 + k];
      assert digits[0] == bs[1];
      Base256OfBigEndian(digits);
      ShortDigits(n);
      AtMostFourDigits(n);
      assert bs == [bs[0]] + digits + rest;
    }
  }

  // ---------------------------------------------------------------- TLVs

  /** A TLV followed by anything gives back its tag, its content and what follows, exactly below 2^31 octets. */
  lemma TlvIsSelfDelimiting(tag: byte, content: seq<byte>, rest: seq<byte>)
    ensures DecodeTlv(Tlv(tag, content) + rest) == Some((tag, content, rest)) <==> |content| < TWO_31
  {
    hide DecodeLength, LengthHeader;
    var bs := Tlv(tag, content) + rest;
    var n := |content|;
    assert bs[1..] == LengthHeader(n) + (content + rest);
    LengthRoundTrip(n, content + rest);
    if n < TWO_31 {
      assert (content + rest)[..n] == content && (content + rest)[n..] == rest;
    } else if DecodeTlv(bs) == Some((tag, content, rest)) {
      TlvHasLength(bs, tag, content, rest);
    }
  }

  lemma TlvHasLength(bs: seq<byte>, tag: byte, content: seq<byte>, rest: seq<byte>)
    requires DecodeTlv(bs) == Some((tag, content, rest))
    ensures DecodeLength(bs[1..]) == Some((|content|, content + rest))
  {
    hide DecodeLength;
    var (m, after) := DecodeLength(bs[1..]).value;
    assert after == after[..m] + after[m..];
  }

  lemma TlvIsCanonical(bs: seq<byte>)
    requires DecodeTlv(bs).Some? && |DecodeTlv(bs).value.1| < TWO_31
    ensures var (tag, content, rest) := DecodeTlv(bs).value; bs == Tlv(tag, content) + rest
  {
    hide DecodeLength, LengthHeader;
    LengthIsCanonical(bs[1..]);
    assert bs == [bs[0]] + bs[1..];
  }

  /** Two encodings, one the start of the other, are the same: a TLV is a prefix code. */
  lemma TlvIsPrefixFree(tag: byte, content: seq<byte>, tag': byte, content': seq<byte>)
    requires |content| < TWO_31 && |content'| < TWO_31
    requires Tlv(tag, content) <= Tlv(tag', content')
    ensures tag == tag' && content == content'
  {
    var a, b := Tlv(tag, content), Tlv(tag', content');
    TlvIsSelfDelimiting(tag, content, b[|a|..]);
    TlvIsSelfDelimiting(tag', content', []);
    assert a + b[|a|..] == b && b + [] == b;
  }

  // ---------------------------------------------------------------- nested TLVs

  /** Bit 6 of the identifier octet: the content is itself TLVs. */
  predicate IsConstructed(tag: byte) { tag / 32 % 2 == 1 }

  datatype Tree = Primitive(tag: byte, octets: seq<byte>) | Constructed(tag: byte, children: seq<Tree>)

  function Encoded(t: Tree): (r: seq<byte>)
    decreases t, 1
  {
    match t
    case Primitive(tag, octets) => Tlv(tag, octets)
    case Constructed(tag, children) => Tlv(tag, EncodedAll(children))
  }

  function EncodedAll(ts: seq<Tree>): (r: seq<byte>)
    decreases ts, 0
  {
    if ts == [] then [] else Encoded(ts[0]) + EncodedAll(ts[1..])
  }

  /** Tags say what they hold, and every content is below 2^31 octets. */
  predicate Fits(t: Tree)
    decreases t, 1
  {
    match t
    case Primitive(tag, octets) => !IsConstructed(tag) && |octets| < TWO_31
    case Constructed(tag, children) => IsConstructed(tag) && |EncodedAll(children)| < TWO_31 && AllFit(children)
  }

  predicate AllFit(ts: seq<Tree>)
    decreases ts, 0
  {
    ts == [] || (Fits(ts[0]) && AllFit(ts[1..]))
  }

  function Parse(bs: seq<byte>): (r: Option<seq<Tree>>)
    decreases |bs|
  {
    if bs == [] then Some([])
    else
      match DecodeTlv(bs)
      case None => None
      case Some((tag, content, rest)) =>
        var after := Parse(rest);
        if after.None? then None
        else if !IsConstructed(tag) then Some([Primitive(tag, content)] + after.value)
        else
          var children := Parse(content);
          if children.None? then None else Some([Constructed(tag, children.value)] + after.value)
  }

  /** Any sequence of nested TLVs parses back to itself. */
  lemma {:induction false} NestedParsesBack(ts: seq<Tree>)
    requires AllFit(ts)
    ensures Parse(EncodedAll(ts)) == Some(ts)
    decreases ts
  {
    hide Tlv, DecodeTlv, IsConstructed;
    if ts != [] {
      var t, rest := ts[0], EncodedAll(ts[1..]);
      var content := match t case Primitive(_, octets) => octets case Constructed(_, children) => EncodedAll(children);
      TlvIsSelfDelimiting(t.tag, content, rest);
      NonEmpty(t.tag, content);
      NestedParsesBack(ts[1..]);
      if t.Constructed? {
        NestedParsesBack(t.children);
      }
      assert ts == [t] + ts[1..];
    }
  }

  lemma NonEmpty(tag: byte, content: seq<byte>)
    ensures Tlv(tag, content) != []
  {
  }

  /** And no other octets parse to it. */
  lemma {:induction false} NestedIsCanonical(bs: seq<byte>)
    requires Parse(bs).Some? && |bs| < TWO_31
    ensures EncodedAll(Parse(bs).value) == bs
    decreases |bs|
  {
    hide Tlv, DecodeTlv, IsConstructed;
    if bs != [] {
      var (tag, content, rest) := DecodeTlv(bs).value;
      TlvIsCanonical(bs);
      NestedIsCanonical(rest);
      var ts := Parse(bs).value;
      assert ts[1..] == Parse(rest).value;
      if IsConstructed(tag) {
        NestedIsCanonical(content);
        assert Encoded(ts[0]) == Tlv(tag, EncodedAll(ts[0].children));
      }
      assert Encoded(ts[0]) == Tlv(tag, content);
    }
  }

  // ---------------------------------------------------------------- INTEGER

  function Power256(n: nat): (r: nat)
  {
    if n == 0 then 1 else 256 * Power256(n - 1)
  }

  /** Two's complement in the fewest octets. */
  function DecodeInteger(bs: seq<byte>): (r: Option<int>)
  {
    if bs == [] then None
    else if |bs| > 1 && ((bs[0] == 0 && bs[1] < 0x80) || (bs[0] == 0xff && bs[1] >= 0x80)) then None
    else Some(if bs[0] >= 0x80 then BigEndian(bs) - Power256(|bs|) else BigEndian(bs))
  }

  lemma {:induction false} BigEndianBelowPower(bs: seq<byte>)
    ensures BigEndian(bs) < Power256(|bs|)
  {
    if bs != [] { BigEndianBelowPower(bs[..|bs| - 1]); }
  }

  lemma {:induction false} LeadingZero(bs: seq<byte>)
    ensures BigEndian([0] + bs) == BigEndian(bs)
  {
    if bs == [] {
      assert ([0] + bs)[..0] == [];
    } else {
      LeadingZero(bs[..|bs| - 1]);
      assert ([0] + bs)[..|bs|] == [0] + bs[..|bs| - 1];
    }
  }

  /** Every non-negative integer comes back. */
  lemma IntegerRoundTrip(value: nat)
    ensures DecodeInteger(IntegerContent(value)) == Some(value)
  {
    hide Base256, BigEndian;
    BigEndianOfBase256(value);
    if value == 0 {
      LeadingZero([]);
      assert [0] + [] == [0] && BigEndian([]) == 0 by { EmptyIsZero(); }
    } else {
      LeadingZero(Base256(value));
    }
  }

  lemma EmptyIsZero()
    ensures BigEndian([]) == 0
  {
  }

  /** And its content octets are the only ones that decode to it. */
  lemma IntegerIsCanonical(bs: seq<byte>)
    requires DecodeInteger(bs).Some? && DecodeInteger(bs).value >= 0
    ensures bs == IntegerContent(DecodeInteger(bs).value)
  {
    hide Base256, BigEndian, Power256;
    BigEndianBelowPower(bs);
    assert bs[0] < 0x80;
    var value := BigEndian(bs);
    if bs[0] > 0 {
      BigEndianPositive(bs);
      Base256OfBigEndian(bs);
    } else {
      var digits := bs[1..];
      assert bs == [0] + digits;
      LeadingZero(digits);
      EmptyIsZero();
      if digits != [] {
        assert digits[0] == bs[1];
        BigEndianPositive(digits);
        Base256OfBigEndian(digits);
      }
    }
  }

  // ---------------------------------------------------------------- OBJECT IDENTIFIER

  function DecodeGroups(acc: nat, bs: seq<byte>): (r: Option<(nat, seq<byte>)>)
    ensures r.Some? ==> |r.value.1| < |bs|
    decreases |bs|
  {
    if bs == [] then None
    else if bs[0] < 0x80 then Some((acc * 128 + bs[0], bs[1..]))
    else DecodeGroups(acc * 128 + (bs[0] - 0x80), bs[1..])
  }

  /** Subidentifiers, each in the fewest base-128 octets. */
  function DecodeSubidentifiers(bs: seq<byte>): (r: Option<seq<nat>>)
    decreases |bs|
  {
    if bs == [] then Some([])
    else if bs[0] == 0x80 then None
    else
      match DecodeGroups(0, bs)
      case None => None
      case Some((n, rest)) =>
        var after := DecodeSubidentifiers(rest);
        if after.None? then None else Some([n] + after.value)
  }

  /** The first subidentifier holds two arcs. */
  function DecodeOid(bs: seq<byte>): (r: Option<seq<nat>>)
  {
    match DecodeSubidentifiers(bs)
    case None => None
    case Some(subs) =>
      if subs == [] then None
      else if subs[0] < 40 then Some([0, subs[0]] + subs[1..])
      else if subs[0] < 80 then Some([1, subs[0] - 40] + subs[1..])
      else Some([2, subs[0] - 80] + subs[1..])
  }

  /** The identifiers the encoder can write: the first two arcs in one octet below 128, later arcs below 2^31. */
  predicate Encodable(arcs: seq<nat>)
    requires |arcs| >= 2
  {
    && arcs[0] <= 2 && (arcs[0] < 2 ==> arcs[1] < 40) && arcs[0] * 40 + arcs[1] < 128
    && forall i :: 2 <= i < |arcs| ==> arcs[i] < TWO_31
  }

  /** What the octets of an arc read as. */
  function ArcValue(part: nat): (n: nat)
    ensures n == part <==> part < TWO_31
  {
    if Int32(part) >= 0 then Int32(part) else part % 128
  }

  lemma {:induction false} HighGroupsDecode(acc: nat, remaining: nat, rest: seq<byte>)
    requires remaining < TWO_31
    ensures exists shift: nat ::
              shift >= 1 && (remaining == 0 ==> shift == 1) &&
              DecodeGroups(acc, HighGroups(remaining) + rest) == DecodeGroups(acc * shift + remaining, rest)
    decreases remaining
  {
    hide DecodeGroups;
    if remaining == 0 {
      assert HighGroups(0) + rest == rest;
      assert DecodeGroups(acc, HighGroups(remaining) + rest) == DecodeGroups(acc * 1 + remaining, rest);
    } else {
      var high, low := remaining / 128, remaining % 128 + 0x80;
      HighGroupsDecode(acc, high, [low] + rest);
      var shift: nat :| shift >= 1 && DecodeGroups(acc, HighGroups(high) + ([low] + rest)) == DecodeGroups(acc * shift + high, [low] + rest);
      assert HighGroups(remaining) + rest == HighGroups(high) + ([low] + rest);
      GroupStep(acc * shift + high, low, rest);
      var next := shift * 128;
      assert (acc * shift + high) * 128 + remaining % 128 == acc * next + remaining by {
        assert acc * shift * 128 == acc * next;
      }
      assert DecodeGroups(acc, HighGroups(remaining) + rest) == DecodeGroups(acc * next + remaining, rest);
    }
  }

  lemma GroupStep(acc: nat, low: byte, rest: seq<byte>)
    requires low >= 0x80
    ensures DecodeGroups(acc, [low] + rest) == DecodeGroups(acc * 128 + (low - 0x80), rest)
  {
    assert ([low] + rest)[1..] == rest;
  }

  lemma GroupEnd(acc: nat, last: byte, rest: seq<byte>)
    requires last < 0x80
    ensures DecodeGroups(acc, [last] + rest) == Some((acc * 128 + last, rest))
  {
    assert ([last] + rest)[1..] == rest;
  }

  lemma {:induction false} FirstGroup(remaining: nat)
    requires 0 < remaining < TWO_31
    ensures HighGroups(remaining) != [] && HighGroups(remaining)[0] > 0x80
  {
    if remaining >= 128 { FirstGroup(remaining / 128); }
  }

  /** An arc's octets are one minimal subidentifier, whatever follows. */
  lemma ArcDecodes(part: nat, rest: seq<byte>)
    ensures ArcOctets(part) != [] && ArcOctets(part)[0] != 0x80
    ensures DecodeGroups(0, ArcOctets(part) + rest) == Some((ArcValue(part), rest))
  {
    hide DecodeGroups, HighGroups;
    var t := Int32(part);
    Int32Low(part);
    var last := part % 128;
    if t >= 0 {
      var high := t / 128;
      assert ArcOctets(part) + rest == HighGroups(high) + ([last] + rest);
      HighGroupsDecode(0, high, [last] + rest);
      GroupEnd(high, last, rest);
      if high > 0 { FirstGroup(high); } else { NoGroups(high); }
    } else {
      NoGroups(t / 128);
      assert ArcOctets(part) == [last];
      GroupEnd(0, last, rest);
    }
  }

  lemma NoGroups(remaining: int)
    requires remaining <= 0
    ensures HighGroups(remaining) == []
  {
  }

  function ArcValues(parts: seq<nat>): (r: seq<nat>)
    ensures |r| == |parts|
    ensures forall i :: 0 <= i < |parts| ==> r[i] == ArcValue(parts[i])
  {
    if parts == [] then [] else [ArcValue(parts[0])] + ArcValues(parts[1..])
  }

  lemma {:induction false} ArcsDecode(parts: seq<nat>)
    ensures DecodeSubidentifiers(ArcsOctets(parts)) == Some(ArcValues(parts))
  {
    hide DecodeGroups, ArcOctets, ArcValue;
    if parts != [] {
      ArcDecodes(parts[0], ArcsOctets(parts[1..]));
      ArcsDecode(parts[1..]);
    }
  }

  /** The number of subidentifiers is the number of octets that end one. */
  function Ends(bs: seq<byte>): (n: nat)
  {
    if bs == [] then 0 else (if bs[0] < 0x80 then 1 else 0) + Ends(bs[1..])
  }

  lemma {:induction false} GroupsTakeOneEnd(acc: nat, bs: seq<byte>)
    requires DecodeGroups(acc, bs).Some?
    ensures Ends(bs) == 1 + Ends(DecodeGroups(acc, bs).value.1)
    decreases |bs|
  {
    if bs[0] >= 0x80 { GroupsTakeOneEnd(acc * 128 + (bs[0] - 0x80), bs[1..]); }
  }

  lemma {:induction false} OneSubidentifierPerEnd(bs: seq<byte>)
    requires DecodeSubidentifiers(bs).Some?
    ensures |DecodeSubidentifiers(bs).value| == Ends(bs)
    decreases |bs|
  {
    if bs != [] {
      GroupsTakeOneEnd(0, bs);
      OneSubidentifierPerEnd(DecodeGroups(0, bs).value.1);
    }
  }

  /** The encoder writes one end for each later arc, and one more only when the first octet is below 128. */
  lemma FirstOctetCounts(arcs: seq<nat>)
    requires |arcs| >= 2
    ensures Ends(OidContent(arcs)) == |arcs| - 2 + (if (arcs[0] * 40 + arcs[1]) % 256 < 0x80 then 1 else 0)
  {
    var tail := ArcsOctets(arcs[2..]);
    ArcsDecode(arcs[2..]);
    OneSubidentifierPerEnd(tail);
    assert OidContent(arcs)[1..] == tail;
  }

  /** With a first octet below 128, the decoder reads that octet and then the arcs' values. */
  lemma OidSubidentifiers(arcs: seq<nat>)
    requires |arcs| >= 2 && (arcs[0] * 40 + arcs[1]) % 256 < 0x80
    ensures DecodeSubidentifiers(OidContent(arcs)) == Some([(arcs[0] * 40 + arcs[1]) % 256] + ArcValues(arcs[2..]))
  {
    var first := (arcs[0] * 40 + arcs[1]) % 256;
    ArcsDecode(arcs[2..]);
    GroupEnd(0, first, ArcsOctets(arcs[2..]));
  }

  /** An identifier comes back exactly when the encoder can write it. */
  lemma OidRoundTrip(arcs: seq<nat>)
    requires |arcs| >= 2
    ensures DecodeOid(OidContent(arcs)) == Some(arcs) <==> Encodable(arcs)
  {
    hide DecodeSubidentifiers, OidContent, ArcValue;
    var first := (arcs[0] * 40 + arcs[1]) % 256;
    var bs := OidContent(arcs);
    var values := ArcValues(arcs[2..]);
    assert arcs == [arcs[0], arcs[1]] + arcs[2..];
    FirstOctetCounts(arcs);
    if DecodeSubidentifiers(bs).Some? { OneSubidentifierPerEnd(bs); }
    if first < 0x80 {
      OidSubidentifiers(arcs);
      assert ([first] + values)[1..] == values;
      SameArcs(arcs);
      DecodedHead(arcs, values);
    } else {
      assert DecodeOid(bs) != Some(arcs);
      assert !Encodable(arcs);
    }
  }

  lemma SameArcs(arcs: seq<nat>)
    requires |arcs| >= 2
    ensures ArcValues(arcs[2..]) == arcs[2..] <==> forall i :: 2 <= i < |arcs| ==> arcs[i] < TWO_31
  {
    hide Int32;
    var values := ArcValues(arcs[2..]);
    if forall i :: 2 <= i < |arcs| ==> arcs[i] < TWO_31 {
      assert values == arcs[2..];
    } else {
      var i :| 2 <= i < |arcs| && arcs[i] >= TWO_31;
      assert values[i - 2] != arcs[2..][i - 2];
    }
  }

  lemma DecodedHead(arcs: seq<nat>, values: seq<nat>)
    requires |arcs| >= 2 && (arcs[0] * 40 + arcs[1]) % 256 < 0x80
    ensures var first := (arcs[0] * 40 + arcs[1]) % 256;
            var decoded := if first < 40 then [0, first] + values else if first < 80 then [1, first - 40] + values else [2, first - 80] + values;
            decoded == arcs <==>
              values == arcs[2..] && arcs[0] <= 2 && (arcs[0] < 2 ==> arcs[1] < 40) && arcs[0] * 40 + arcs[1] < 128
  {
    var first := (arcs[0] * 40 + arcs[1]) % 256;
    var decoded := if first < 40 then [0, first] + values else if first < 80 then [1, first - 40] + values else [2, first - 80] + values;
    assert decoded[2..] == values;
    assert arcs == [arcs[0], arcs[1]] + arcs[2..];
    assert decoded == [decoded[0], decoded[1]] + values;
    assert decoded == arcs ==> decoded[0] == arcs[0] && decoded[1] == arcs[1];
  }

  /** Inputs the encoders do not carry: a second arc past one octet, an arc and a length of 2^31. */
  lemma WhatDoesNotComeBack(rest: seq<byte>)
    ensures DecodeOid(OidContent([2, 999])) != Some([2, 999])
    ensures DecodeOid(OidContent([1, 2, 0x8000_0000])) != Some([1, 2, 0x8000_0000])
    ensures DecodeLength(LengthHeader(0x8000_0000) + rest) != Some((0x8000_0000, rest))
  {
    hide DecodeOid, OidContent, DecodeLength, LengthHeader;
    OidRoundTrip([2, 999]);
    var arcs := [1, 2, 0x8000_0000];
    OidRoundTrip(arcs);
    assert arcs[2] >= TWO_31;
    LengthRoundTrip(0x8000_0000, rest);
  }

  // ---------------------------------------------------------------- keyUsage and extensions

  /** A named bit list with no trailing zero bit: None for any other content. */
  function DecodeBits(content: seq<byte>): (r: Option<set<nat>>)
  {
    if content == [0] then Some({})
    else if |content| != 2 || content[0] > 7 || !OctetHasBit(content[1], 7 - content[0]) then None
    else if exists i :: 7 - content[0] < i <= 7 && OctetHasBit(content[1], i) then None
    else Some(set i: nat | 0 <= i <= 7 && OctetHasBit(content[1], i))
  }

  lemma NamedBitsDecode(content: seq<byte>, bits: set<nat>)
    requires NamedBits(content, bits) && forall b :: b in bits ==> b <= 7
    ensures DecodeBits(content) == Some(bits)
  {
    hide OctetHasBit;
    if bits != {} {
      assert (set i: nat | 0 <= i <= 7 && OctetHasBit(content[1], i)) == bits;
    }
  }

  /** The identifier, the critical mark (absent for its default) and the value of an extension. */
  function DecodeExtension(bs: seq<byte>): (r: Option<(seq<nat>, bool, seq<byte>)>)
  {
    match DecodeTlv(bs)
    case None => None
    case Some((tag, body, rest)) =>
      if tag != 0x30 || rest != [] then None else DecodeExtensionBody(body)
  }

  function DecodeExtensionBody(body: seq<byte>): (r: Option<(seq<nat>, bool, seq<byte>)>)
  {
    match DecodeTlv(body)
    case None => None
    case Some((oidTag, oidContent, afterOid)) =>
      var oid := DecodeOid(oidContent);
      if oidTag != 0x06 || oid.None? then None
      else
        match DecodeTlv(afterOid)
        case None => None
        case Some((tag, content, after)) =>
          if tag == 0x04 && after == [] then Some((oid.value, false, content))
          else if tag == 0x01 && content == [0xff] then
            match DecodeTlv(after)
            case None => None
            case Some((valueTag, value, end)) =>
              if valueTag == 0x04 && end == [] then Some((oid.value, true, value)) else None
          else None
  }

  /** An extension of fewer than 2^31 octets decodes to what it was built from. */
  lemma ExtensionRoundTrip(oid: seq<nat>, critical: bool, value: seq<byte>)
    requires |oid| >= 2 && Encodable(oid) && |Extension(oid, critical, value)| < TWO_31
    ensures DecodeExtension(Extension(oid, critical, value)) == Some((oid, critical, value))
  {
    hide Tlv, DecodeTlv, DecodeOid, OidContent, Encodable;
    var id := Tlv(0x06, OidContent(oid));
    var mark := if critical then Tlv(0x01, [0xff]) else [];
    var octets := Tlv(0x04, value);
    var body := id + mark + octets;
    DerIsLonger(0x30, body);
    DerIsLonger(0x06, OidContent(oid));
    DerIsLonger(0x04, value);
    OidRoundTrip(oid);
    TlvIsSelfDelimiting(0x30, body, []);
    assert Tlv(0x30, body) + [] == Tlv(0x30, body);
    TlvIsSelfDelimiting(0x06, OidContent(oid), mark + octets);
    assert body == id + (mark + octets);
    TlvIsSelfDelimiting(0x04, value, []);
    assert octets + [] == octets;
    if critical {
      TlvIsSelfDelimiting(0x01, [0xff], octets);
    } else {
      assert mark + octets == octets;
    }
  }

  lemma DerIsLonger(tag: byte, content: seq<byte>)
    ensures |Tlv(tag, content)| > |content|
  {
  }

  /** A key usage extension decodes, through all its layers, to exactly the usages it was given. */
  lemma KeyUsageRoundTrip(usages: seq<Usage>, content: seq<byte>)
    requires NamedBits(content, Bits(usages))
    ensures DecodeExtension(Extension(KEY_USAGE_OID, true, Tlv(0x03, content))) == Some((KEY_USAGE_OID, true, Tlv(0x03, content)))
    ensures DecodeTlv(Tlv(0x03, content)) == Some((0x03, content, []))
    ensures DecodeBits(content) == Some(Bits(usages))
  {
    hide DecodeTlv, DecodeBits, NamedBits, DecodeExtension, Extension, BitOf;
    NamedBitsDecode(content, Bits(usages));
    assert |content| <= 2 by { NamedBitsAreShort(content, Bits(usages)); }
    TlvIsSelfDelimiting(0x03, content, []);
    assert Tlv(0x03, content) + [] == Tlv(0x03, content);
    KeyUsageExtensionIsShort(content);
    assert Encodable(KEY_USAGE_OID);
    ExtensionRoundTrip(KEY_USAGE_OID, true, Tlv(0x03, content));
  }

  lemma NamedBitsAreShort(content: seq<byte>, bits: set<nat>)
    requires NamedBits(content, bits)
    ensures |content| <= 2
  {
  }

  lemma KeyUsageExtensionIsShort(content: seq<byte>)
    requires |content| <= 2
    ensures |Extension(KEY_USAGE_OID, true, Tlv(0x03, content))| < TWO_31
  {
    hide ArcOctets;
    var arcs := KEY_USAGE_OID[2..];
    assert arcs == [29, 15] && arcs[1..] == [15] && arcs[1..][1..] == [];
    assert |ArcOctets(29)| == 1 && |ArcOctets(15)| == 1 by { SmallArc(29); SmallArc(15); }
    assert ArcsOctets([]) == [];
    assert ArcsOctets(arcs[1..]) == ArcOctets(15) + ArcsOctets([]);
    assert ArcsOctets(arcs) == ArcOctets(29) + ArcsOctets(arcs[1..]);
  }

  lemma SmallArc(part: nat)
    requires part < 128
    ensures |ArcOctets(part)| == 1
  {
  }

  /** The octet of a key usage, mask by mask (section 4.2.1.3 of RFC 5280), and the number of unused bits before it. */
  lemma UsageOctets(usages: seq<Usage>, content: seq<byte>)
    requires NamedBits(content, Bits(usages))
    ensures usages == [] ==> content == [0]
    ensures usages != [] ==>
              && |content| == 2
              && (content[1] as bv8 & 0x80 != 0 <==> DigitalSignature in usages)
              && (content[1] as bv8 & 0x40 != 0 <==> NonRepudiation in usages)
              && (content[1] as bv8 & 0x20 != 0 <==> KeyEncipherment in usages)
              && (content[1] as bv8 & 0x10 != 0 <==> DataEncipherment in usages)
              && (content[1] as bv8 & 0x08 != 0 <==> KeyAgreement in usages)
              && (content[1] as bv8 & 0x04 != 0 <==> KeyCertSign in usages)
              && (content[1] as bv8 & 0x02 != 0 <==> CRLSign in usages)
              && content[1] as bv8 & 0x01 == 0
  {
    hide Bits;
    UsageBit(usages, DigitalSignature);
    UsageBit(usages, NonRepudiation);
    UsageBit(usages, KeyEncipherment);
    UsageBit(usages, DataEncipherment);
    UsageBit(usages, KeyAgreement);
    UsageBit(usages, KeyCertSign);
    UsageBit(usages, CRLSign);
    if usages != [] {
      UsageBit(usages, usages[0]);
      assert forall i :: 0 <= i <= 7 ==> (OctetHasBit(content[1], i) <==> i in Bits(usages));
    }
  }

  lemma UsageBit(usages: seq<Usage>, u: Usage)
    ensures u in usages <==> BitOf(u) in Bits(usages)
    ensures usages == [] ==> Bits(usages) == {}
    ensures 7 !in Bits(usages)
  {
    if BitOf(u) in Bits(usages) {
      var i :| 0 <= i < |usages| && BitOf(usages[i]) == BitOf(u);
      assert usages[i] == u;
    }
  }

  /** The whole extension for a signing key, octet by octet. */
  lemma SigningKeyUsage(content: seq<byte>)
    requires NamedBits(content, Bits([DigitalSignature]))
    ensures Extension(KEY_USAGE_OID, true, Tlv(0x03, content)) ==
            [0x30, 0x0e, 0x06, 0x03, 0x55, 0x1d, 0x0f, 0x01, 0x01, 0xff, 0x04, 0x04, 0x03, 0x02, 0x07, 0x80]
  {
    OneBit(content);
    KeyUsageOid();
    ShortTlv(0x03, content);
    ShortTlv(0x01, [0xff]);
    var inner: seq<byte> := [0x03, 0x02, 0x07, 0x80];
    ShortTlv(0x04, inner);
    ShortTlv(0x06, [0x55, 0x1d, 0x0f]);
    assert [0x06, 0x03] + [0x55, 0x1d, 0x0f] == [0x06, 0x03, 0x55, 0x1d, 0x0f];
    hide Tlv, OidContent, LengthHeader;
    var body: seq<byte> := [0x06, 0x03, 0x55, 0x1d, 0x0f, 0x01, 0x01, 0xff, 0x04, 0x04, 0x03, 0x02, 0x07, 0x80];
    assert Tlv(0x03, content) == inner;
    ExtensionBody();
    ShortTlv(0x30, body);
  }

  lemma ExtensionBody()
    ensures var oid: seq<byte> := [0x06, 0x03, 0x55, 0x1d, 0x0f];
            var critical: seq<byte> := [0x01, 0x01, 0xff];
            oid + critical + [0x04, 0x04, 0x03, 0x02, 0x07, 0x80] ==
            [0x06, 0x03, 0x55, 0x1d, 0x0f, 0x01, 0x01, 0xff, 0x04, 0x04, 0x03, 0x02, 0x07, 0x80]
  {
  }

  lemma ShortTlv(tag: byte, content: seq<byte>)
    requires |content| < 0x80
    ensures Tlv(tag, content) == [tag, |content|] + content
  {
  }

  lemma KeyUsageOid()
    ensures OidContent(KEY_USAGE_OID) == [0x55, 0x1d, 0x0f]
  {
    assert ArcOctets(29) == [29] && ArcOctets(15) == [15] by { SmallArc(29); SmallArc(15); }
    var arcs: seq<nat> := [29, 15];
    assert arcs[1..] == [15] && KEY_USAGE_OID[2..] == arcs && [15][1..] == [];
    hide ArcOctets;
    assert ArcsOctets([]) == [] && ArcsOctets([15]) == [15] + ArcsOctets([15][1..]);
    assert ArcsOctets(arcs) == [29] + ArcsOctets(arcs[1..]);
    assert (KEY_USAGE_OID[0] * 40 + KEY_USAGE_OID[1]) % 256 == 0x55;
  }

  lemma OneBit(content: seq<byte>)
    requires NamedBits(content, Bits([DigitalSignature]))
    ensures content == [0x07, 0x80]
  {
    UsageOctets([DigitalSignature], content);
    assert Bits([DigitalSignature]) == {0};
    var b := content[1] as bv8;
    assert b == 0x80;
    assert content[1] == b as int;
  }
}
