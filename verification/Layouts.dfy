/** The bytes of a written message, field by field, as the generated writers emit them. */
module Layouts {
  import opened Wire
  import opened Records
  import opened Messages

  function VarintFieldBytes(tag: byte, present: bool, v: nat): bytes {
    if present then [tag] + VarintBytes(v) else []
  }

  function LenFieldBytes(tag: byte, present: bool, s: bytes): bytes {
    if present then [tag] + ValueBytes(LEN(s)) else []
  }

  function FixedFieldBytes(tag: byte, present: bool, n: nat): bytes {
    if present then [tag] + LittleEndian(n, 4) else []
  }

  lemma AppendTwo(b: bytes, x: bytes, y: bytes)
    ensures b + x + y == b + (x + y)
  {}

  lemma AppendFive(b: bytes, x: bytes, y: bytes, z: bytes, w: bytes, u: bytes)
    ensures b + x + y + z + w + u == b + (x + y + z + w + u)
  {}

  lemma PrintOne(r: Record)
    ensures Print([r]) == RecordBytes(r)
    ensures r.Tag() < 128 ==> RecordBytes(r) == [r.Tag()] + ValueBytes(r.value)
  {
    assert Print([r][1..]) == [];
  }

  lemma PrintVarintField(number: nat, present: bool, v: nat)
    requires number < 16
    ensures Print(VarintField(number, present, v)) == VarintFieldBytes(8 * number, present, v)
  {
    PrintOne(Record(number, VARINT(v)));
  }

  lemma PrintLenField(number: nat, present: bool, s: bytes)
    requires number < 15
    ensures Print(LenField(number, present, s)) == LenFieldBytes(8 * number + 2, present, s)
  {
    PrintOne(Record(number, LEN(s)));
  }

  lemma PrintFixedField(number: nat, present: bool, n: nat)
    requires number < 15
    ensures Print(FixedField(number, present, n)) == FixedFieldBytes(8 * number + 5, present, n)
  {
    PrintOne(Record(number, I32(n)));
  }

  lemma PrintFive(a: seq<Record>, b: seq<Record>, c: seq<Record>, d: seq<Record>, u: seq<Record>,
                  x: bytes, y: bytes, z: bytes, w: bytes)
    requires Print(a) == x && Print(b) == y && Print(c) == z && Print(d) == w
    ensures Print(a + b + c + d + u) == x + y + z + w + Print(u)
  {
    PrintConcat(a + b + c + d, u);
    PrintConcat(a + b + c, d);
    PrintConcat(a + b, c);
    PrintConcat(a, b);
  }

  lemma HeaderLayout(h: Header)
    ensures Write(HeaderMessage(h)) ==
            VarintFieldBytes(8, h.userId.Some?, h.userId.GetOr(0)) +
            LenFieldBytes(18, h.typeName.Some?, h.typeName.GetOr([])) +
            LenFieldBytes(26, h.arr.Some?, h.arr.GetOr([])) +
            VarintFieldBytes(32, h.arrSize.Some?, h.arrSize.GetOr(0)) +
            Print(h.unknown)
  {
    PrintVarintField(1, h.userId.Some?, h.userId.GetOr(0));
    PrintLenField(2, h.typeName.Some?, h.typeName.GetOr([]));
    PrintLenField(3, h.arr.Some?, h.arr.GetOr([]));
    PrintVarintField(4, h.arrSize.Some?, h.arrSize.GetOr(0));
    PrintFive(VarintField(1, h.userId.Some?, h.userId.GetOr(0)), LenField(2, h.typeName.Some?, h.typeName.GetOr([])),
              LenField(3, h.arr.Some?, h.arr.GetOr([])), VarintField(4, h.arrSize.Some?, h.arrSize.GetOr(0)), h.unknown,
              VarintFieldBytes(8, h.userId.Some?, h.userId.GetOr(0)),
              LenFieldBytes(18, h.typeName.Some?, h.typeName.GetOr([])),
              LenFieldBytes(26, h.arr.Some?, h.arr.GetOr([])),
              VarintFieldBytes(32, h.arrSize.Some?, h.arrSize.GetOr(0)));
  }

  lemma ItemLayout(i: ItemInfo)
    ensures Write(ItemMessage(i)) == ItemBytes(i)
    ensures ItemBytes(i) ==
            VarintFieldBytes(8, i.itemid != 0, SignExtend(i.itemid)) + LenFieldBytes(18, i.itemName != [], i.itemName) +
            LenFieldBytes(26, i.itemDesc != [], i.itemDesc) + VarintFieldBytes(32, i.count != 0, i.count) +
            Print(i.unknown)
  {
    PrintVarintField(1, i.itemid != 0, SignExtend(i.itemid));
    PrintLenField(2, i.itemName != [], i.itemName);
    PrintLenField(3, i.itemDesc != [], i.itemDesc);
    PrintVarintField(4, i.count != 0, i.count);
    PrintFive(VarintField(1, i.itemid != 0, SignExtend(i.itemid)), LenField(2, i.itemName != [], i.itemName),
              LenField(3, i.itemDesc != [], i.itemDesc), VarintField(4, i.count != 0, i.count), i.unknown,
              VarintFieldBytes(8, i.itemid != 0, SignExtend(i.itemid)), LenFieldBytes(18, i.itemName != [], i.itemName),
              LenFieldBytes(26, i.itemDesc != [], i.itemDesc), VarintFieldBytes(32, i.count != 0, i.count));
  }

  lemma PositionLayout(p: Position)
    ensures Write(PositionMessage(p)) ==
            FixedFieldBytes(13, p.x.Some?, p.x.GetOr(0)) + FixedFieldBytes(21, p.y.Some?, p.y.GetOr(0)) +
            FixedFieldBytes(29, p.z.Some?, p.z.GetOr(0)) +
            VarintFieldBytes(32, p.index.Some?, SignExtend(p.index.GetOr(0))) +
            Print(p.unknown)
  {
    PrintFixedField(1, p.x.Some?, p.x.GetOr(0));
    PrintFixedField(2, p.y.Some?, p.y.GetOr(0));
    PrintFixedField(3, p.z.Some?, p.z.GetOr(0));
    PrintVarintField(4, p.index.Some?, SignExtend(p.index.GetOr(0)));
    PrintFive(FixedField(1, p.x.Some?, p.x.GetOr(0)), FixedField(2, p.y.Some?, p.y.GetOr(0)),
              FixedField(3, p.z.Some?, p.z.GetOr(0)), VarintField(4, p.index.Some?, SignExtend(p.index.GetOr(0))),
              p.unknown,
              FixedFieldBytes(13, p.x.Some?, p.x.GetOr(0)), FixedFieldBytes(21, p.y.Some?, p.y.GetOr(0)),
              FixedFieldBytes(29, p.z.Some?, p.z.GetOr(0)),
              VarintFieldBytes(32, p.index.Some?, SignExtend(p.index.GetOr(0))));
  }

  /** Embedded items: tag 10, the length of the item, the item. */
  function NestedBytes(items: seq<ItemInfo>): bytes {
    if items == [] then [] else LenFieldBytes(10, true, ItemBytes(items[0])) + NestedBytes(items[1..])
  }

  lemma {:induction false} NestedLayout(items: seq<ItemInfo>)
    ensures Print(NestedRecords(items)) == NestedBytes(items)
  {
    if items != [] {
      NestedLayout(items[1..]);
      PrintOne(Record(1, LEN(ItemBytes(items[0]))));
      PrintConcat([Record(1, LEN(ItemBytes(items[0])))], NestedRecords(items[1..]));
    }
  }

  lemma {:induction false} NestedBytesConcat(items: seq<ItemInfo>, more: seq<ItemInfo>)
    ensures NestedBytes(items + more) == NestedBytes(items) + NestedBytes(more)
  {
    if items == [] {
      assert items + more == more;
    } else {
      assert (items + more)[1..] == items[1..] + more;
      NestedBytesConcat(items[1..], more);
    }
  }

  lemma NestedBytesOne(item: ItemInfo)
    ensures NestedBytes([item]) == LenFieldBytes(10, true, ItemBytes(item))
  {
    assert NestedBytes([item][1..]) == [];
  }

  lemma NestedBytesNext(items: seq<ItemInfo>, i: nat)
    requires i < |items|
    ensures NestedBytes(items[..i + 1]) == NestedBytes(items[..i]) + LenFieldBytes(10, true, ItemBytes(items[i]))
  {
    assert items[..i + 1] == items[..i] + [items[i]];
    NestedBytesConcat(items[..i], [items[i]]);
    NestedBytesOne(items[i]);
  }

  lemma AddToItemLayout(a: AddToItem)
    ensures Write(AddToItemMessage(a)) ==
            LenFieldBytes(10, a.item.Some?, ItemBytes(a.item.GetOr(NEW_ITEM))) + Print(a.unknown)
  {
    var items := if a.item.Some? then [a.item.value] else [];
    PrintConcat(NestedRecords(items), a.unknown);
    NestedLayout(items);
    if a.item.Some? { NestedBytesOne(a.item.value); }
  }

  lemma InventoryLayout(v: Inventory)
    ensures Write(InventoryMessage(v)) == NestedBytes(v.items) + Print(v.unknown)
  {
    PrintConcat(NestedRecords(v.items), v.unknown);
    NestedLayout(v.items);
  }
}
