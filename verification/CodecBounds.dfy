/**
 How long a message can become when it is read and written again: no record
 grows, but a negative itemid can take five bytes more. An embedded item that
 was read from a buffer therefore always fits a length prefix.
 */
module CodecBounds {
  import opened Wire
  import opened Records
  import opened Messages
  import opened MessageLaws
  import opened Layouts

  // ------------------------------------------------------------------ records

  /** The canonical varint is the shortest one that reads to its value. */
  lemma {:induction false} VarintIsShortest(b: bytes, limit: nat)
    requires ReadVarint(b, limit).Some?
    ensures var v := ReadVarint(b, limit).value; |VarintBytes(v.value)| <= v.size
  {
    if b[0] >= 128 { VarintIsShortest(b[1..], limit - 1); }
  }

  lemma ValueIsShortest(rt: Runtime, wireType: nat, b: bytes)
    requires ReadValue(rt, wireType, b).Some?
    ensures var field := ReadValue(rt, wireType, b).value; |ValueBytes(field.value)| <= field.size
  {
    if wireType == 0 {
      VarintIsShortest(b, 10);
      var v := ReadVarint(b, 10).value.value;
      VarintLengthMonotone(v % TWO_64, v);
    } else if wireType == 2 {
      var limit := if rt.CSharp? then 10 else 5;
      VarintIsShortest(b, limit);
      var v := ReadVarint(b, limit).value.value;
      VarintLengthMonotone(ReadLength(rt, b).value.value, v);
    }
  }

  lemma TagIsShortest(rt: Runtime, b: bytes)
    requires ReadTag(rt, b).Some?
    ensures |VarintBytes(ReadTag(rt, b).value.value)| <= ReadTag(rt, b).value.size
  {
    var limit := if rt.CSharp? then 10 else 5;
    VarintIsShortest(b, limit);
    var v := ReadVarint(b, limit).value.value;
    VarintLengthMonotone(v % TWO_32, v);
  }

  lemma RecordIsShortest(rt: Runtime, b: bytes)
    requires ReadRecord(rt, b).Some?
    ensures var step := ReadRecord(rt, b).value; |RecordBytes(step.record)| <= step.size
  {
    hide ReadTag, ReadValue, ValueBytes;
    var tag := ReadTag(rt, b).value;
    TagIsShortest(rt, b);
    ValueIsShortest(rt, tag.value % 8, b[tag.size..]);
    assert ReadRecord(rt, b).value.record.Tag() == tag.value;
  }

  /** Printing what was scanned is no longer than the input. */
  lemma {:induction false} PrintedIsShortest(rt: Runtime, b: bytes)
    requires Scan(rt, b).Some?
    ensures |Print(Scan(rt, b).value)| <= |b|
    decreases |b|
  {
    hide ReadRecord, RecordBytes;
    if b != [] {
      var step := ReadRecord(rt, b).value;
      RecordIsShortest(rt, b);
      PrintedIsShortest(rt, b[step.size..]);
      var rest := Scan(rt, b[step.size..]).value;
      assert ([step.record] + rest)[1..] == rest;
    }
  }

  // -------------------------------------------------------------------- items

  function FieldSize(present: bool, size: nat): nat {
    if present then 1 + size else 0
  }

  /** The size of an item with its id counted as the 32-bit pattern that was read. */
  function Weight(i: ItemInfo): nat {
    FieldSize(i.itemid != 0, |VarintBytes(i.itemid % TWO_32)|) +
    FieldSize(i.itemName != [], |ValueBytes(LEN(i.itemName))|) +
    FieldSize(i.itemDesc != [], |ValueBytes(LEN(i.itemDesc))|) +
    FieldSize(i.count != 0, |VarintBytes(i.count)|) + |Print(i.unknown)|
  }

  lemma SignExtensionCost(v: int32)
    ensures |VarintBytes(SignExtend(v))| <= |VarintBytes(v % TWO_32)| + 5
  {
    if v < 0 {
      NegativeInt32TakesTenBytes(v);
      assert v % TWO_32 == v + TWO_32;
      assert Pow128(2) == 0x4000 && Pow128(4) == 0x1000_0000;
      VarintManyBytes(v % TWO_32, 4);
    }
  }

  lemma ItemBytesWeight(i: ItemInfo)
    ensures |ItemBytes(i)| <= Weight(i) + 5
  {
    hide Print, ItemBytes, ValueBytes, VarintBytes;
    ItemLayout(i);
    SignExtensionCost(i.itemid);
  }

  lemma VarintRecordSize(r: Record)
    requires 1 <= r.number < 16 && r.value.VARINT?
    ensures |RecordBytes(r)| >= 1 + |VarintBytes(r.value.v % TWO_32)|
  {
    VarintLengthMonotone(r.value.v % TWO_32, r.value.v);
  }

  lemma RecordSize(r: Record)
    ensures |RecordBytes(r)| >= 1 + |ValueBytes(r.value)|
  {}

  lemma UnknownWeight(i: ItemInfo, r: Record)
    ensures Weight(i.(unknown := i.unknown + [r])) == Weight(i) + |RecordBytes(r)|
  {
    hide Print, RecordBytes, VarintBytes, ValueBytes;
    PrintConcat(i.unknown, [r]);
    PrintOne(r);
  }

  lemma IdWeight(i: ItemInfo, v: nat)
    ensures Weight(i.(itemid := ToInt32(v))) <= Weight(i) + 1 + |VarintBytes(v % TWO_32)|
  {
    hide VarintBytes, ValueBytes, Print;
    assert ToInt32(v) % TWO_32 == v % TWO_32;
  }

  lemma OtherWeights(i: ItemInfo, s: bytes, n: uint32)
    ensures Weight(i.(itemName := s)) <= Weight(i) + 1 + |ValueBytes(LEN(s))|
    ensures Weight(i.(itemDesc := s)) <= Weight(i) + 1 + |ValueBytes(LEN(s))|
    ensures Weight(i.(count := n)) <= Weight(i) + 1 + |VarintBytes(n)|
  {
    hide VarintBytes, ValueBytes, Print;
  }

  /** A record makes an item heavier by no more than its own size. */
  lemma ApplyWeight(i: ItemInfo, r: Record)
    ensures Weight(ApplyItem(i, r)) <= Weight(i) + |RecordBytes(r)|
  {
    hide Weight, VarintBytes, ValueBytes, RecordBytes, ToInt32;
    RecordSize(r);
    match r
    case Record(1, VARINT(v)) =>
      VarintRecordSize(r);
      IdWeight(i, v);
    case Record(4, VARINT(v)) =>
      VarintRecordSize(r);
      OtherWeights(i, [], v % TWO_32);
    case Record(2, LEN(s)) => OtherWeights(i, s, 0);
    case Record(3, LEN(s)) => OtherWeights(i, s, 0);
    case _ => UnknownWeight(i, r);
  }

  lemma {:induction false} FoldWeight(i: ItemInfo, rs: seq<Record>)
    ensures Weight(FoldItem(i, rs)) <= Weight(i) + |Print(rs)|
    decreases |rs|
  {
    hide Weight, ApplyItem, RecordBytes;
    if rs != [] {
      ApplyWeight(i, rs[0]);
      FoldWeight(ApplyItem(i, rs[0]), rs[1..]);
    }
  }

  /** An item takes at most five bytes more than the records it was read from. */
  lemma FoldedItemSize(rs: seq<Record>)
    ensures |ItemBytes(FoldItem(NEW_ITEM, rs))| <= |Print(rs)| + 5
  {
    hide ItemBytes, FoldItem;
    FoldWeight(NEW_ITEM, rs);
    ItemBytesWeight(FoldItem(NEW_ITEM, rs));
    assert Weight(NEW_ITEM) == 0;
  }

  // --------------------------------------------------------- embedded messages

  predicate AllEmbedded(os: seq<Record>) {
    forall k | 0 <= k < |os| :: os[k].number == 1 && os[k].value.LEN?
  }

  function Payload(os: seq<Record>): nat
    requires AllEmbedded(os)
  {
    if os == [] then 0 else |os[0].value.payload| + Payload(os[1..])
  }

  lemma EmbeddedRecordSize(r: Record)
    requires r.number == 1 && r.value.LEN?
    ensures |RecordBytes(r)| >= |r.value.payload| + 2
    ensures |r.value.payload| >= 0x1000_0000 ==> |RecordBytes(r)| >= |r.value.payload| + 6
  {
    if |r.value.payload| >= 0x1000_0000 {
      assert Pow128(2) == 0x4000 && Pow128(4) == 0x1000_0000;
      VarintManyBytes(|r.value.payload|, 4);
    }
  }

  /** The prefixes of embedded messages leave six bytes, unless the payloads are small. */
  lemma {:induction false} PrefixesLeaveRoom(os: seq<Record>)
    requires AllEmbedded(os)
    ensures |Print(os)| >= Payload(os) + 6 ||
            (Payload(os) <= 0x1000_0000 * |os| && |Print(os)| >= Payload(os) + 2 * |os|)
  {
    hide RecordBytes;
    if os != [] {
      EmbeddedRecordSize(os[0]);
      PrefixesLeaveRoom(os[1..]);
    }
  }

  /** The payloads of a buffer, and five bytes more, fit a length prefix. */
  lemma PayloadFits(os: seq<Record>)
    requires AllEmbedded(os) && |Print(os)| < TWO_31
    ensures Payload(os) + 5 < TWO_31
  {
    PrefixesLeaveRoom(os);
  }

  lemma {:induction false} OfTagIsShorter(rs: seq<Record>, tag: nat)
    ensures |Print(OfTag(rs, tag))| <= |Print(rs)|
  {
    hide RecordBytes;
    if rs != [] {
      OfTagIsShorter(rs[1..], tag);
      if rs[0].Tag() == tag {
        assert ([rs[0]] + OfTag(rs[1..], tag))[1..] == OfTag(rs[1..], tag);
      } else {
        assert [] + OfTag(rs[1..], tag) == OfTag(rs[1..], tag);
      }
    }
  }

  lemma {:induction false} OfTagTen(rs: seq<Record>)
    ensures AllEmbedded(OfTag(rs, 10))
  {
    if rs != [] { OfTagTen(rs[1..]); }
  }

  lemma {:induction false} EmbeddedSize(rt: Runtime, os: seq<Record>)
    requires AllEmbedded(os) && Embedded(rt, os).Some?
    ensures |Print(Embedded(rt, os).value)| <= Payload(os)
  {
    if os != [] {
      EmbeddedSize(rt, os[1..]);
      PrintedIsShortest(rt, os[0].value.payload);
      PrintConcat(Scan(rt, os[0].value.payload).value, Embedded(rt, os[1..]).value);
    }
  }

  lemma {:induction false} EmbeddedItemSizes(rt: Runtime, os: seq<Record>)
    requires AllEmbedded(os) && EmbeddedItems(rt, os).Some?
    ensures forall i | i in EmbeddedItems(rt, os).value :: |ItemBytes(i)| <= Payload(os) + 5
  {
    hide ItemBytes, FoldItem, Print, Scan;
    if os != [] {
      var payload := os[0].value.payload;
      EmbeddedItemSizes(rt, os[1..]);
      PrintedIsShortest(rt, payload);
      FoldedItemSize(Scan(rt, payload).value);
    }
  }

  /** A message that was read from a buffer can be written: no embedded item is too long for its prefix. */
  lemma AcceptedFits(rt: Runtime, m: Message, b: bytes)
    requires m == m.New() && ParseInto(rt, m, b).Some? && |b| < TWO_31
    ensures ParseInto(rt, m, b).value.Fits()
  {
    hide ItemBytes, FoldItem, Print, Scan, Embedded, EmbeddedItems, OfTag, Fold;
    var rs := Scan(rt, b).value;
    var os := OfTag(rs, 10);
    PrintedIsShortest(rt, b);
    OfTagIsShorter(rs, 10);
    OfTagTen(rs);
    PayloadFits(os);
    FoldIsDeclared(rt, m, rs);
    match m
    case AddToItemMessage(a) =>
      EmbeddedSize(rt, os);
      FoldedItemSize(Embedded(rt, os).value);
    case InventoryMessage(v) =>
      EmbeddedItemSizes(rt, os);
      assert v.items == [];
    case _ =>
  }
}
