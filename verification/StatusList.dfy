/**
  * The 2-bit status list of section 4.1 of draft-ietf-oauth-status-list: entry `i` takes bits `2 * (i % 4)` and
  * `2 * (i % 4) + 1` of byte `i / 4`. Compression and base64 are calls into libraries.
  */
module StatusList {

  /** `value & 0b11` */
  function Low2(value: int): (b: bv8)
  {
    var m := value % 4;
    if m == 0 then 0 else if m == 1 then 1 else if m == 2 then 2 else 3
  }

  /** `bits << shift`, for the entry at `slot` in its byte. */
  function ShiftUp(bits: bv8, slot: nat): (b: bv8)
    requires slot < 4
  {
    if slot == 0 then bits else if slot == 1 then bits << 2 else if slot == 2 then bits << 4 else bits << 6
  }

  /** The two bits at `slot`. */
  function ReadSlot(b: bv8, slot: nat): (r: bv8)
    requires slot < 4
  {
    (if slot == 0 then b else if slot == 1 then b >> 2 else if slot == 2 then b >> 4 else b >> 6) & 3
  }

  lemma OrIntoFreeSlot(b: bv8, value: int, slot: nat, other: nat)
    requires slot < 4 && other < 4 && ReadSlot(b, slot) == 0
    ensures ReadSlot(b | ShiftUp(Low2(value), slot), other) == if other == slot then Low2(value) else ReadSlot(b, other)
  {
  }

  /** The entry at `i` of a packed list. */
  function ReadEntry(bytes: seq<bv8>, i: nat): (r: bv8)
    requires i < 4 * |bytes|
  {
    ReadSlot(bytes[i / 4], i % 4)
  }

  function PackedLength(n: nat): (r: nat) { if n == 0 then 1 else (n + 3) / 4 }

  /** What entry `i` reads as once the first `done` entries are packed: its value modulo 4, zero from there on. */
  function EntryAt(entries: seq<int>, done: nat, i: nat): (r: bv8)
    requires done <= |entries|
  {
    if i < done then Low2(entries[i]) else 0
  }

  /** Every entry reads back as its value modulo 4, and the padding as zero. */
  method PackStatusList(entries: seq<int>) returns (bytes: array<bv8>)
    ensures fresh(bytes) && bytes.Length == PackedLength(|entries|)
    ensures forall i :: 0 <= i < 4 * bytes.Length ==> ReadEntry(bytes[..], i) == EntryAt(entries, |entries|, i)
  {
    hide Low2, ShiftUp, ReadSlot;
    bytes := new bv8[PackedLength(|entries|)](_ => 0);
    ZeroReadsZero();
    var index := 0;
    while index < |entries|
      invariant 0 <= index <= |entries|
      invariant forall i :: 0 <= i < 4 * bytes.Length ==> ReadEntry(bytes[..], i) == EntryAt(entries, index, i)
    {
      ghost var before := bytes[..];
      var byteIndex := index / 4;
      assert ReadEntry(before, index) == 0;
      bytes[byteIndex] := bytes[byteIndex] | ShiftUp(Low2(entries[index]), index % 4);
      forall i | 0 <= i < 4 * bytes.Length ensures ReadEntry(bytes[..], i) == EntryAt(entries, index + 1, i) {
        assert ReadEntry(before, i) == EntryAt(entries, index, i);
        if i / 4 == byteIndex {
          OrIntoFreeSlot(before[byteIndex], entries[index], index % 4, i % 4);
        }
      }
      index := index + 1;
    }
  }

  lemma ZeroReadsZero()
    ensures forall slot :: 0 <= slot < 4 ==> ReadSlot(0, slot) == 0
  {
  }

  /** Two lists of one length pack to the same bytes exactly when their entries agree modulo 4. */
  lemma PackingKeepsEntries(a: seq<int>, b: seq<int>, packedA: seq<bv8>, packedB: seq<bv8>)
    requires |a| == |b| && |packedA| == |packedB| == PackedLength(|a|)
    requires forall i :: 0 <= i < 4 * |packedA| ==> ReadEntry(packedA, i) == EntryAt(a, |a|, i)
    requires forall i :: 0 <= i < 4 * |packedB| ==> ReadEntry(packedB, i) == EntryAt(b, |b|, i)
    ensures packedA == packedB <==> forall i :: 0 <= i < |a| ==> a[i] % 4 == b[i] % 4
  {
    hide ReadSlot, Low2;
    if packedA == packedB {
      forall i | 0 <= i < |a| ensures a[i] % 4 == b[i] % 4 {
        assert ReadEntry(packedA, i) == ReadEntry(packedB, i);
        Low2IsModulo(a[i], b[i]);
      }
    }
    if forall i :: 0 <= i < |a| ==> a[i] % 4 == b[i] % 4 {
      forall k | 0 <= k < |packedA| ensures packedA[k] == packedB[k] {
        forall slot | 0 <= slot < 4 ensures ReadSlot(packedA[k], slot) == ReadSlot(packedB[k], slot) {
          var i := 4 * k + slot;
          assert ReadEntry(packedA, i) == EntryAt(a, |a|, i) && ReadEntry(packedB, i) == EntryAt(b, |b|, i);
          if i < |a| { Low2IsModulo(a[i], b[i]); }
        }
        SlotsAreTheByte(packedA[k], packedB[k]);
      }
    }
  }

  lemma Low2IsModulo(a: int, b: int)
    ensures Low2(a) == Low2(b) <==> a % 4 == b % 4
  {
  }

  lemma SlotsAreTheByte(a: bv8, b: bv8)
    requires forall slot :: 0 <= slot < 4 ==> ReadSlot(a, slot) == ReadSlot(b, slot)
    ensures a == b
  {
    assert ReadSlot(a, 0) == ReadSlot(b, 0) && ReadSlot(a, 1) == ReadSlot(b, 1);
    assert ReadSlot(a, 2) == ReadSlot(b, 2) && ReadSlot(a, 3) == ReadSlot(b, 3);
  }

  /** What entry `i` of the list counts for in its byte: its value modulo 4, nothing beyond the end. */
  function Weight(entries: seq<int>, i: nat): (r: nat) { if i < |entries| then entries[i] % 4 else 0 }

  /** Each byte of the packed list is the number its four entries make, the first of them lowest. */
  lemma PackedBytes(entries: seq<int>, packed: seq<bv8>, k: nat)
    requires |packed| == PackedLength(|entries|) && k < |packed|
    requires forall i :: 0 <= i < 4 * |packed| ==> ReadEntry(packed, i) == EntryAt(entries, |entries|, i)
    ensures packed[k] as int == Weight(entries, 4 * k) + 4 * Weight(entries, 4 * k + 1) + 16 * Weight(entries, 4 * k + 2) + 64 * Weight(entries, 4 * k + 3)
  {
    hide ReadSlot, Low2;
    forall slot | 0 <= slot < 4 ensures ReadSlot(packed[k], slot) as int == Weight(entries, 4 * k + slot) {
      var i := 4 * k + slot;
      assert ReadEntry(packed, i) == EntryAt(entries, |entries|, i);
      if i < |entries| { Low2Value(entries[i]); }
    }
    ByteOfSlots(packed[k]);
  }

  lemma Low2Value(value: int)
    ensures Low2(value) as int == value % 4
  {
  }

  lemma ByteOfSlots(b: bv8)
    ensures b as int == ReadSlot(b, 0) as int + 4 * (ReadSlot(b, 1) as int) + 16 * (ReadSlot(b, 2) as int) + 64 * (ReadSlot(b, 3) as int)
  {
  }

  /** The list takes as many bytes as its entries need, and at least one. */
  lemma PackedLengthMeans(n: nat)
    ensures var r := PackedLength(n); r >= 1 && 4 * r >= n && (r > 1 ==> 4 * (r - 1) < n)
  {
  }
}
