/**
 The main results about the codec: round trip, normalisation, concatenation as
 merging with the exact condition under which it fails, and the agreement of the
 C# and the C++ reader with the exact condition under which they differ.
 */
module CodecTheorems {
  import opened Wrappers
  import opened Wire
  import opened Records
  import opened Messages
  import opened MessageLaws
  import opened Layouts
  import opened CodecBounds

  // -------------------------------------------------------------- round trip

  lemma FoldField(rt: Runtime, m: Message, r: Record, present: bool)
    ensures Fold(rt, m, if present then [r] else []) == if present then Apply(rt, m, r) else Some(m)
  {
    assert [r][1..] == [];
  }

  function WithUnknown(m: Message, rs: seq<Record>): Message {
    match m
    case HeaderMessage(h) => HeaderMessage(h.(unknown := h.unknown + rs))
    case ItemMessage(i) => ItemMessage(i.(unknown := i.unknown + rs))
    case PositionMessage(p) => PositionMessage(p.(unknown := p.unknown + rs))
    case AddToItemMessage(a) => AddToItemMessage(a.(unknown := a.unknown + rs))
    case InventoryMessage(v) => InventoryMessage(v.(unknown := v.unknown + rs))
  }

  lemma WithUnknownTwice(m: Message, r: Record, rs: seq<Record>)
    ensures WithUnknown(m, []) == m
    ensures WithUnknown(WithUnknown(m, [r]), rs) == WithUnknown(m, [r] + rs)
  {
    match m
    case HeaderMessage(h) => AppendAssociative(h.unknown, r, rs); assert h.unknown + [] == h.unknown;
    case ItemMessage(i) => AppendAssociative(i.unknown, r, rs); assert i.unknown + [] == i.unknown;
    case PositionMessage(p) => AppendAssociative(p.unknown, r, rs); assert p.unknown + [] == p.unknown;
    case AddToItemMessage(a) => AppendAssociative(a.unknown, r, rs); assert a.unknown + [] == a.unknown;
    case InventoryMessage(v) => AppendAssociative(v.unknown, r, rs); assert v.unknown + [] == v.unknown;
  }

  /** Unknown records, wrong wire types included, are kept in order. */
  lemma {:induction false} FoldUnknown(rt: Runtime, m: Message, rs: seq<Record>)
    requires AllUnknown(rs, m.Known())
    ensures Fold(rt, m, rs) == Some(WithUnknown(m, rs))
    decreases |rs|
  {
    if rs == [] {
      WithUnknownTwice(m, Record(0, VARINT(0)), []);
    } else {
      assert rs[0].Tag() !in m.Known();
      assert Apply(rt, m, rs[0]) == Some(WithUnknown(m, [rs[0]]));
      FoldUnknown(rt, WithUnknown(m, [rs[0]]), rs[1..]);
      WithUnknownTwice(m, rs[0], rs[1..]);
      assert rs == [rs[0]] + rs[1..];
    }
  }

  lemma FoldTwo(rt: Runtime, m: Message, a: seq<Record>, b: seq<Record>, m1: Message, m2: Message)
    requires Fold(rt, m, a) == Some(m1) && Fold(rt, m1, b) == Some(m2)
    ensures Fold(rt, m, a + b) == Some(m2)
  {
    FoldConcat(rt, m, a, b);
  }

  /** Folding four optional fields and the unknown records one after the other. */
  lemma FoldFive(rt: Runtime, m: Message, a: seq<Record>, b: seq<Record>, c: seq<Record>,
                 d: seq<Record>, u: seq<Record>,
                 m1: Message, m2: Message, m3: Message, m4: Message)
    requires Fold(rt, m, a) == Some(m1) && Fold(rt, m1, b) == Some(m2)
    requires Fold(rt, m2, c) == Some(m3) && Fold(rt, m3, d) == Some(m4)
    ensures Fold(rt, m, a + b + c + d + u) == Fold(rt, m4, u)
  {
    FoldConcat(rt, m, a, b);
    FoldConcat(rt, m, a + b, c);
    FoldConcat(rt, m, a + b + c, d);
    FoldConcat(rt, m, a + b + c + d, u);
  }

  lemma FoldWrittenHeader(rt: Runtime, h: Header, w: Header)
    requires w.Valid()
    ensures Fold(rt, HeaderMessage(h), HeaderRecords(w)) == Some(HeaderMessage(MergeHeader(h, w)))
  {
    var h1 := h.(userId := Over(h.userId, w.userId));
    var h2 := h1.(typeName := Over(h.typeName, w.typeName));
    var h3 := h2.(arr := Over(h.arr, w.arr));
    var h4 := h3.(arrSize := Over(h.arrSize, w.arrSize));
    FoldField(rt, HeaderMessage(h), Record(1, VARINT(w.userId.GetOr(0))), w.userId.Some?);
    FoldField(rt, HeaderMessage(h1), Record(2, LEN(w.typeName.GetOr([]))), w.typeName.Some?);
    FoldField(rt, HeaderMessage(h2), Record(3, LEN(w.arr.GetOr([]))), w.arr.Some?);
    FoldField(rt, HeaderMessage(h3), Record(4, VARINT(w.arrSize.GetOr(0))), w.arrSize.Some?);
    FoldFive(rt, HeaderMessage(h),
             VarintField(1, w.userId.Some?, w.userId.GetOr(0)), LenField(2, w.typeName.Some?, w.typeName.GetOr([])),
             LenField(3, w.arr.Some?, w.arr.GetOr([])), VarintField(4, w.arrSize.Some?, w.arrSize.GetOr(0)), w.unknown,
             HeaderMessage(h1), HeaderMessage(h2), HeaderMessage(h3), HeaderMessage(h4));
    FoldUnknown(rt, HeaderMessage(h4), w.unknown);
  }

  lemma FoldWrittenItem(rt: Runtime, i: ItemInfo, w: ItemInfo)
    requires w.Valid()
    ensures Fold(rt, ItemMessage(i), ItemRecords(w)) == Some(ItemMessage(MergeItem(i, w)))
  {
    var i1 := i.(itemid := if w.itemid != 0 then w.itemid else i.itemid);
    var i2 := i1.(itemName := if w.itemName != [] then w.itemName else i.itemName);
    var i3 := i2.(itemDesc := if w.itemDesc != [] then w.itemDesc else i.itemDesc);
    var i4 := i3.(count := if w.count != 0 then w.count else i.count);
    Int32RoundTrip(w.itemid);
    FoldField(rt, ItemMessage(i), Record(1, VARINT(SignExtend(w.itemid))), w.itemid != 0);
    FoldField(rt, ItemMessage(i1), Record(2, LEN(w.itemName)), w.itemName != []);
    FoldField(rt, ItemMessage(i2), Record(3, LEN(w.itemDesc)), w.itemDesc != []);
    FoldField(rt, ItemMessage(i3), Record(4, VARINT(w.count)), w.count != 0);
    FoldFive(rt, ItemMessage(i),
             VarintField(1, w.itemid != 0, SignExtend(w.itemid)), LenField(2, w.itemName != [], w.itemName),
             LenField(3, w.itemDesc != [], w.itemDesc), VarintField(4, w.count != 0, w.count), w.unknown,
             ItemMessage(i1), ItemMessage(i2), ItemMessage(i3), ItemMessage(i4));
    FoldUnknown(rt, ItemMessage(i4), w.unknown);
  }

  lemma FoldWrittenPosition(rt: Runtime, p: Position, w: Position)
    requires w.Valid()
    ensures Fold(rt, PositionMessage(p), PositionRecords(w)) == Some(PositionMessage(MergePosition(p, w)))
  {
    var p1 := p.(x := Over(p.x, w.x));
    var p2 := p1.(y := Over(p.y, w.y));
    var p3 := p2.(z := Over(p.z, w.z));
    var p4 := p3.(index := Over(p.index, w.index));
    Int32RoundTrip(w.index.GetOr(0));
    FoldField(rt, PositionMessage(p), Record(1, I32(w.x.GetOr(0))), w.x.Some?);
    FoldField(rt, PositionMessage(p1), Record(2, I32(w.y.GetOr(0))), w.y.Some?);
    FoldField(rt, PositionMessage(p2), Record(3, I32(w.z.GetOr(0))), w.z.Some?);
    FoldField(rt, PositionMessage(p3), Record(4, VARINT(SignExtend(w.index.GetOr(0)))), w.index.Some?);
    FoldFive(rt, PositionMessage(p),
             FixedField(1, w.x.Some?, w.x.GetOr(0)), FixedField(2, w.y.Some?, w.y.GetOr(0)),
             FixedField(3, w.z.Some?, w.z.GetOr(0)), VarintField(4, w.index.Some?, SignExtend(w.index.GetOr(0))),
             w.unknown,
             PositionMessage(p1), PositionMessage(p2), PositionMessage(p3), PositionMessage(p4));
    FoldUnknown(rt, PositionMessage(p4), w.unknown);
  }

  lemma ItemRecordsValid(i: ItemInfo)
    requires i.Valid()
    ensures AllValid(ItemRecords(i))
  {}

  lemma ParseItemBytes(rt: Runtime, i: ItemInfo, w: ItemInfo)
    requires w.Valid()
    ensures ParseItem(rt, i, ItemBytes(w)) == Some(MergeItem(i, w))
  {
    ItemRecordsValid(w);
    ScanPrint(rt, ItemRecords(w));
    FoldWrittenItem(rt, i, w);
    FoldItemMessage(rt, i, ItemRecords(w));
  }

  lemma MergeIntoNewItem(w: ItemInfo)
    ensures MergeItem(NEW_ITEM, w) == w
  {
    assert [] + w.unknown == w.unknown;
  }

  lemma FoldWrittenAddToItem(rt: Runtime, a: AddToItem, w: AddToItem)
    requires w.Valid()
    ensures Fold(rt, AddToItemMessage(a), AddToItemRecords(w)) == Some(AddToItemMessage(MergeAddToItem(a, w)))
  {
    var a1 := MergeAddToItem(a, w).(unknown := a.unknown);
    var items := if w.item.Some? then [w.item.value] else [];
    if w.item.Some? {
      ParseItemBytes(rt, a.item.GetOr(NEW_ITEM), w.item.value);
      assert NestedRecords(items[1..]) == [];
      FoldField(rt, AddToItemMessage(a), Record(1, LEN(ItemBytes(w.item.value))), true);
    }
    FoldConcat(rt, AddToItemMessage(a), NestedRecords(items), w.unknown);
    FoldUnknown(rt, AddToItemMessage(a1), w.unknown);
  }

  lemma FoldNestedItem(rt: Runtime, v: Inventory, item: ItemInfo)
    requires item.Valid()
    ensures Fold(rt, InventoryMessage(v), [Record(1, LEN(ItemBytes(item)))]) ==
            Some(InventoryMessage(v.(items := v.items + [item])))
  {
    ParseItemBytes(rt, NEW_ITEM, item);
    MergeIntoNewItem(item);
    FoldField(rt, InventoryMessage(v), Record(1, LEN(ItemBytes(item))), true);
  }

  lemma {:induction false} FoldNestedItems(rt: Runtime, v: Inventory, items: seq<ItemInfo>)
    requires forall i | i in items :: i.Valid()
    ensures Fold(rt, InventoryMessage(v), NestedRecords(items)) ==
            Some(InventoryMessage(v.(items := v.items + items)))
    decreases |items|
  {
    if items == [] {
      assert v.items + [] == v.items;
    } else {
      var one := v.(items := v.items + [items[0]]);
      var all := v.(items := v.items + items);
      assert one.items + items[1..] == all.items;
      FoldNestedItem(rt, v, items[0]);
      FoldNestedItems(rt, one, items[1..]);
      FoldTwo(rt, InventoryMessage(v), [Record(1, LEN(ItemBytes(items[0])))], NestedRecords(items[1..]),
              InventoryMessage(one), InventoryMessage(all));
    }
  }

  lemma FoldWrittenInventory(rt: Runtime, v: Inventory, w: Inventory)
    requires w.Valid()
    ensures Fold(rt, InventoryMessage(v), InventoryRecords(w)) == Some(InventoryMessage(MergeInventory(v, w)))
  {
    FoldNestedItems(rt, v, w.items);
    FoldConcat(rt, InventoryMessage(v), NestedRecords(w.items), w.unknown);
    FoldUnknown(rt, InventoryMessage(v.(items := v.items + w.items)), w.unknown);
  }

  lemma {:induction false} NestedRecordsValid(items: seq<ItemInfo>)
    requires forall i | i in items :: |ItemBytes(i)| < TWO_31
    ensures AllValid(NestedRecords(items))
  {
    if items != [] { NestedRecordsValid(items[1..]); }
  }

  lemma AllValidConcat(xs: seq<Record>, ys: seq<Record>)
    requires AllValid(xs) && AllValid(ys)
    ensures AllValid(xs + ys)
  {}

  lemma FiveValid(a: seq<Record>, b: seq<Record>, c: seq<Record>, d: seq<Record>, u: seq<Record>)
    requires AllValid(a) && AllValid(b) && AllValid(c) && AllValid(d) && AllValid(u)
    ensures AllValid(a + b + c + d + u)
  {
    hide AllValid;
    AllValidConcat(a, b);
    AllValidConcat(a + b, c);
    AllValidConcat(a + b + c, d);
    AllValidConcat(a + b + c + d, u);
  }

  lemma ScalarRecordsValid(m: Message)
    requires m.Valid() && (m.HeaderMessage? || m.ItemMessage? || m.PositionMessage?)
    ensures AllValid(RecordsOf(m))
  {
    match m
    case HeaderMessage(h) =>
      FiveValid(VarintField(1, h.userId.Some?, h.userId.GetOr(0)), LenField(2, h.typeName.Some?, h.typeName.GetOr([])),
                LenField(3, h.arr.Some?, h.arr.GetOr([])), VarintField(4, h.arrSize.Some?, h.arrSize.GetOr(0)),
                h.unknown);
    case ItemMessage(i) =>
      FiveValid(VarintField(1, i.itemid != 0, SignExtend(i.itemid)), LenField(2, i.itemName != [], i.itemName),
                LenField(3, i.itemDesc != [], i.itemDesc), VarintField(4, i.count != 0, i.count), i.unknown);
    case PositionMessage(p) =>
      FiveValid(FixedField(1, p.x.Some?, p.x.GetOr(0)), FixedField(2, p.y.Some?, p.y.GetOr(0)),
                FixedField(3, p.z.Some?, p.z.GetOr(0)),
                VarintField(4, p.index.Some?, SignExtend(p.index.GetOr(0))), p.unknown);
  }

  lemma RecordsOfValid(m: Message)
    requires m.Valid() && m.Fits()
    ensures AllValid(RecordsOf(m))
  {
    if m.HeaderMessage? || m.ItemMessage? || m.PositionMessage? { ScalarRecordsValid(m); }
    hide HeaderRecords, ItemRecords, PositionRecords;
    match m
    case AddToItemMessage(a) => NestedRecordsValid(if a.item.Some? then [a.item.value] else []);
    case InventoryMessage(v) => NestedRecordsValid(v.items);
    case _ =>
  }

  lemma FoldWritten(rt: Runtime, m: Message, w: Message)
    requires w.Valid() && m.New() == w.New()
    ensures Fold(rt, m, RecordsOf(w)) == Some(Merge(m, w))
  {
    match (m, w)
    case (HeaderMessage(h), HeaderMessage(h')) => FoldWrittenHeader(rt, h, h');
    case (ItemMessage(i), ItemMessage(i')) => FoldWrittenItem(rt, i, i');
    case (PositionMessage(p), PositionMessage(p')) => FoldWrittenPosition(rt, p, p');
    case (AddToItemMessage(a), AddToItemMessage(a')) => FoldWrittenAddToItem(rt, a, a');
    case (InventoryMessage(v), InventoryMessage(v')) => FoldWrittenInventory(rt, v, v');
  }

  lemma MergeIntoNew(w: Message)
    ensures Merge(w.New(), w) == w
  {
    match w
    case HeaderMessage(h) => assert [] + h.unknown == h.unknown;
    case ItemMessage(i) => MergeIntoNewItem(i);
    case PositionMessage(p) => assert [] + p.unknown == p.unknown;
    case AddToItemMessage(a) =>
      assert [] + a.unknown == a.unknown;
      if a.item.Some? { MergeIntoNewItem(a.item.value); }
    case InventoryMessage(v) => assert [] + v.unknown == v.unknown && [] + v.items == v.items;
  }

  /** Reading the bytes of a written message into another message merges the two. */
  lemma ReadingMerges(rt: Runtime, m: Message, w: Message)
    requires w.Valid() && w.Fits() && m.New() == w.New()
    ensures ParseInto(rt, m, Write(w)) == Some(Merge(m, w))
  {
    RecordsOfValid(w);
    ScanPrint(rt, RecordsOf(w));
    FoldWritten(rt, m, w);
  }

  /** Either runtime reads back exactly the message that was written. */
  lemma RoundTrip(rt: Runtime, m: Message)
    requires m.Valid() && m.Fits()
    ensures ParseInto(rt, m.New(), Write(m)) == Some(m)
  {
    ReadingMerges(rt, m.New(), m);
    MergeIntoNew(m);
  }

  // ------------------------------------------------------------ normalisation

  lemma {:induction false} FoldItemValid(i: ItemInfo, rs: seq<Record>)
    requires i.Valid() && AllValid(rs)
    ensures FoldItem(i, rs).Valid()
    decreases |rs|
  {
    if rs != [] {
      assert rs[0].Valid();
      FoldItemValid(ApplyItem(i, rs[0]), rs[1..]);
    }
  }

  lemma ApplyValid(rt: Runtime, m: Message, r: Record)
    requires m.Valid() && r.Valid() && Apply(rt, m, r).Some?
    ensures Apply(rt, m, r).value.Valid()
  {
    match m
    case AddToItemMessage(a) =>
      if r.number == 1 && r.value.LEN? { FoldItemValid(a.item.GetOr(NEW_ITEM), Scan(rt, r.value.payload).value); }
    case InventoryMessage(v) =>
      if r.number == 1 && r.value.LEN? { FoldItemValid(NEW_ITEM, Scan(rt, r.value.payload).value); }
    case _ =>
  }

  lemma {:induction false} FoldValid(rt: Runtime, m: Message, rs: seq<Record>)
    requires m.Valid() && AllValid(rs) && Fold(rt, m, rs).Some?
    ensures Fold(rt, m, rs).value.Valid()
    decreases |rs|
  {
    if rs != [] {
      assert rs[0].Valid();
      ApplyValid(rt, m, rs[0]);
      FoldValid(rt, Apply(rt, m, rs[0]).value, rs[1..]);
    }
  }

  /**
   Whatever byte string a reader accepts, writing the message and reading it
   again - by either runtime - gives the same message. Unknown records and
   records of a known field with the wrong wire type are kept. The length of the
   input is an int.
   */
  lemma Normalisation(rt: Runtime, rt': Runtime, m: Message, b: bytes)
    requires m == m.New() && ParseInto(rt, m, b).Some? && |b| < TWO_31
    ensures ParseInto(rt', m, Write(ParseInto(rt, m, b).value)) == ParseInto(rt, m, b)
  {
    AcceptedFits(rt, m, b);
    FoldValid(rt, m, Scan(rt, b).value);
    RoundTrip(rt', ParseInto(rt, m, b).value);
  }

  // --------------------------------------------------- concatenation and merging

  /** A stream sets a field of an item explicitly to zero while the item holds something there. */
  predicate ClobbersItem(i: ItemInfo, rs: seq<Record>) {
    || (LastInt32(rs, 8) == Some(0) && i.itemid != 0)
    || (LastBytes(rs, 18) == Some([]) && i.itemName != [])
    || (LastBytes(rs, 26) == Some([]) && i.itemDesc != [])
    || (LastUint32(rs, 32) == Some(0) && i.count != 0)
  }

  /** The same for a message: only items have implicit presence. */
  predicate Clobbers(rt: Runtime, m: Message, rs: seq<Record>) {
    match m
    case ItemMessage(i) => ClobbersItem(i, rs)
    case AddToItemMessage(a) =>
      (match Embedded(rt, OfTag(rs, 10))
       case None => false
       case Some(inner) => ClobbersItem(a.item.GetOr(NEW_ITEM), inner))
    case _ => false
  }

  lemma ItemMergeExact(i: ItemInfo, rs: seq<Record>)
    ensures FoldItem(i, rs) == MergeItem(i, FoldItem(NEW_ITEM, rs)) <==> !ClobbersItem(i, rs)
  {
    FoldItemIsDeclared(i, rs);
    FoldItemIsDeclared(NEW_ITEM, rs);
    assert [] + Unknown(rs, SCALAR_TAGS) == Unknown(rs, SCALAR_TAGS);
  }

  lemma MergeDeclaredHeader(h: Header, rs: seq<Record>)
    ensures DeclaredHeader(h, rs) == MergeHeader(h, DeclaredHeader(NEW_HEADER, rs))
  {
    hide Unknown, LastBytes, LastUint32;
    assert [] + Unknown(rs, SCALAR_TAGS) == Unknown(rs, SCALAR_TAGS);
  }

  lemma MergeDeclaredPosition(p: Position, rs: seq<Record>)
    ensures DeclaredPosition(p, rs) == MergePosition(p, DeclaredPosition(NEW_POSITION, rs))
  {
    hide Unknown, LastFixed, LastInt32;
    assert [] + Unknown(rs, POSITION_TAGS) == Unknown(rs, POSITION_TAGS);
  }

  lemma MergeDeclaredInventory(rt: Runtime, v: Inventory, rs: seq<Record>)
    requires DeclaredInventory(rt, NEW_INVENTORY, rs).Some?
    ensures DeclaredInventory(rt, v, rs) == Some(MergeInventory(v, DeclaredInventory(rt, NEW_INVENTORY, rs).value))
  {
    hide Unknown, EmbeddedItems, OfTag;
    var items := EmbeddedItems(rt, OfTag(rs, 10)).value;
    assert [] + Unknown(rs, NESTED_TAGS) == Unknown(rs, NESTED_TAGS) && [] + items == items;
  }

  lemma MergeDeclaredAddToItem(rt: Runtime, a: AddToItem, rs: seq<Record>)
    requires DeclaredAddToItem(rt, NEW_ADD_TO_ITEM, rs).Some?
    ensures DeclaredAddToItem(rt, a, rs) ==
            Some(MergeAddToItem(a, DeclaredAddToItem(rt, NEW_ADD_TO_ITEM, rs).value)) <==>
            !ClobbersItem(a.item.GetOr(NEW_ITEM), Embedded(rt, OfTag(rs, 10)).value)
  {
    hide Unknown, OfTag, FoldItem, MergeItem, ClobbersItem;
    var inner := Embedded(rt, OfTag(rs, 10)).value;
    assert [] + Unknown(rs, NESTED_TAGS) == Unknown(rs, NESTED_TAGS);
    ItemMergeExact(a.item.GetOr(NEW_ITEM), inner);
    if OfTag(rs, 10) == [] { NothingClobbers(a.item.GetOr(NEW_ITEM)); }
  }

  lemma NothingClobbers(i: ItemInfo)
    ensures !ClobbersItem(i, [])
  {}

  /** Merging a stream into a message is merging the message the stream stands for, exactly when it clobbers nothing. */
  lemma FoldMergeExact(rt: Runtime, m: Message, rs: seq<Record>)
    requires Fold(rt, m.New(), rs).Some?
    ensures Fold(rt, m, rs) == Some(Merge(m, Fold(rt, m.New(), rs).value)) <==> !Clobbers(rt, m, rs)
  {
    hide Fold, FoldItem, Embedded, OfTag, DeclaredHeader, DeclaredPosition, DeclaredInventory, DeclaredAddToItem,
         MergeHeader, MergeItem, MergePosition, MergeInventory, MergeAddToItem, ClobbersItem;
    FoldIsDeclared(rt, m, rs);
    FoldIsDeclared(rt, m.New(), rs);
    match m
    case HeaderMessage(h) => MergeDeclaredHeader(h, rs);
    case ItemMessage(i) =>
      FoldItemMessage(rt, i, rs);
      FoldItemMessage(rt, NEW_ITEM, rs);
      ItemMergeExact(i, rs);
    case PositionMessage(p) => MergeDeclaredPosition(p, rs);
    case AddToItemMessage(a) =>
      MergeDeclaredAddToItem(rt, a, rs);
      EmbeddedWhenDeclared(rt, rs);
    case InventoryMessage(v) => MergeDeclaredInventory(rt, v, rs);
  }

  lemma EmbeddedWhenDeclared(rt: Runtime, rs: seq<Record>)
    ensures DeclaredAddToItem(rt, NEW_ADD_TO_ITEM, rs).Some? == Embedded(rt, OfTag(rs, 10)).Some?
  {}

  /**
   'Last one wins': reading the concatenation of two byte strings is merging
   what the two stand for, exactly when the second clobbers nothing the first has set.
   */
  lemma ConcatIsMergeExactly(rt: Runtime, m: Message, x: bytes, y: bytes)
    requires m == m.New() && ParseInto(rt, m, x).Some? && ParseInto(rt, m, y).Some?
    ensures ParseInto(rt, m, x + y) == Some(Merge(ParseInto(rt, m, x).value, ParseInto(rt, m, y).value))
            <==> !Clobbers(rt, ParseInto(rt, m, x).value, Scan(rt, y).value)
  {
    ScanConcat(rt, x, y);
    FoldConcat(rt, m, Scan(rt, x).value, Scan(rt, y).value);
    FoldMergeExact(rt, ParseInto(rt, m, x).value, Scan(rt, y).value);
  }

  /** For explicit presence and for repeated fields nothing can be clobbered. */
  lemma ConcatIsMerge(rt: Runtime, m: Message, x: bytes, y: bytes)
    requires m == m.New() && ParseInto(rt, m, x).Some? && ParseInto(rt, m, y).Some?
    requires !m.ItemMessage? && !m.AddToItemMessage?
    ensures ParseInto(rt, m, x + y) == Some(Merge(ParseInto(rt, m, x).value, ParseInto(rt, m, y).value))
  {
    ConcatIsMergeExactly(rt, m, x, y);
  }

  lemma ParseOneRecord(rt: Runtime, m: Message, r: Record)
    requires r.Valid()
    ensures ParseInto(rt, m, RecordBytes(r)) == Apply(rt, m, r)
    ensures Scan(rt, RecordBytes(r)) == Some([r])
  {
    hide RecordBytes, Scan, Apply, Fold;
    PrintOne(r);
    ScanPrint(rt, [r]);
    FoldField(rt, m, r, true);
  }

  lemma ZeroAndFiveBytes()
    ensures RecordBytes(Record(1, VARINT(5))) == [8, 5] && RecordBytes(Record(1, VARINT(0))) == [8, 0]
  {}

  /** An explicit zero on the wire overwrites, but merging skips it: itemid 5 followed by itemid 0. */
  lemma ExplicitZeroIsNotMerged(rt: Runtime)
    ensures var m, m' := ItemMessage(NEW_ITEM), ItemMessage(NEW_ITEM.(itemid := 5));
            && ParseInto(rt, m, [8, 5]) == Some(m') && ParseInto(rt, m, [8, 0]) == Some(m)
            && ParseInto(rt, m, [8, 5] + [8, 0]) == Some(m)
    ensures Merge(ItemMessage(NEW_ITEM.(itemid := 5)), ItemMessage(NEW_ITEM)) == ItemMessage(NEW_ITEM.(itemid := 5))
  {
    hide RecordBytes, Scan, Fold;
    var five, zero := Record(1, VARINT(5)), Record(1, VARINT(0));
    var m, m' := ItemMessage(NEW_ITEM), ItemMessage(NEW_ITEM.(itemid := 5));
    ZeroAndFiveBytes();
    ParseOneRecord(rt, m, five);
    ParseOneRecord(rt, m, zero);
    ParseOneRecord(rt, m', zero);
    ScanConcat(rt, [8, 5], [8, 0]);
    FoldConcat(rt, m, [five], [zero]);
    FoldField(rt, m, five, true);
    FoldField(rt, m', zero, true);
  }

  /** A writer never clobbers: behind any accepted byte string, a written message is merged. */
  lemma WrittenNeverClobbers(rt: Runtime, m: Message, w: Message)
    requires w.Valid() && m.New() == w.New()
    ensures !Clobbers(rt, m, RecordsOf(w))
  {
    FoldWritten(rt, m, w);
    FoldWritten(rt, m.New(), w);
    MergeIntoNew(w);
    FoldMergeExact(rt, m, RecordsOf(w));
  }

  // ------------------------------------------------------- client and server agree

  predicate EmbedsMessages(m: Message) {
    m.AddToItemMessage? || m.InventoryMessage?
  }

  predicate ShortEmbedded(m: Message, r: Record) {
    EmbedsMessages(m) && r.number == 1 && r.value.LEN? ==> ShortPrefixes(r.value.payload)
  }

  /** All tags and length prefixes, in embedded messages too, take at most five bytes. */
  predicate Short(m: Message, b: bytes) {
    && ShortPrefixes(b)
    && match Scan(CSharp, b)
       case None => false
       case Some(rs) => forall r | r in rs :: ShortEmbedded(m, r)
  }

  lemma ApplyAgreement(m: Message, r: Record)
    ensures Apply(Cpp, m, r) == if Apply(CSharp, m, r).Some? && ShortEmbedded(m, r) then Apply(CSharp, m, r) else None
  {
    if EmbedsMessages(m) && r.number == 1 && r.value.LEN? {
      ScanAgreement(r.value.payload);
    }
  }

  lemma {:induction false} FoldAgreement(m: Message, rs: seq<Record>)
    ensures Fold(Cpp, m, rs) ==
            if Fold(CSharp, m, rs).Some? && (forall r | r in rs :: ShortEmbedded(m, r)) then Fold(CSharp, m, rs)
            else None
    decreases |rs|
  {
    if rs != [] {
      ApplyAgreement(m, rs[0]);
      match Apply(CSharp, m, rs[0])
      case None =>
      case Some(m') =>
        FoldAgreement(m', rs[1..]);
        assert EmbedsMessages(m') == EmbedsMessages(m);
        assert forall r :: ShortEmbedded(m', r) == ShortEmbedded(m, r);
    }
  }

  /**
   The server reads exactly the byte strings the client reads whose prefixes
   are short, and reads the same message from them.
   */
  lemma ClientServerAgreement(m: Message, b: bytes)
    ensures ParseInto(Cpp, m, b) ==
            if ParseInto(CSharp, m, b).Some? && Short(m, b) then ParseInto(CSharp, m, b) else None
  {
    ScanAgreement(b);
    if Scan(CSharp, b).Some? { FoldAgreement(m, Scan(CSharp, b).value); }
  }

  /** An overlong tag is where the two differ: the client takes this userId, the server rejects it. */
  lemma OverlongTagDiffers()
    ensures ParseInto(CSharp, HeaderMessage(NEW_HEADER), [0x88, 0x80, 0x80, 0x80, 0x80, 0x00, 7]) ==
            Some(HeaderMessage(NEW_HEADER.(userId := Some(7))))
    ensures ParseInto(Cpp, HeaderMessage(NEW_HEADER), [0x88, 0x80, 0x80, 0x80, 0x80, 0x00, 7]) == None
  {
    var b: bytes := [0x88, 0x80, 0x80, 0x80, 0x80, 0x00, 7];
    var r := Record(1, VARINT(7));
    OverlongRecord();
    hide ReadRecord;
    assert b[7..] == [] && [r] + [] == [r];
    FoldField(CSharp, HeaderMessage(NEW_HEADER), r, true);
  }

  lemma OverlongRecord()
    ensures ReadRecord(CSharp, [0x88, 0x80, 0x80, 0x80, 0x80, 0x00, 7]) == Some(Step(Record(1, VARINT(7)), 7))
    ensures ReadRecord(Cpp, [0x88, 0x80, 0x80, 0x80, 0x80, 0x00, 7]) == None
  {
    var b: bytes := [0x88, 0x80, 0x80, 0x80, 0x80, 0x00, 7];
    ReadOverlongEight();
    ReadVarintLimit(b, 5, 10);
    assert b[6..] == [7];
    ReadSeven();
    hide ReadVarint;
    assert ReadTag(CSharp, b) == Some(Varint(8, 6)) && ReadTag(Cpp, b) == None;
    assert ReadValue(CSharp, 0, b[6..]) == Some(Field(VARINT(7), 1));
    hide ReadTag, ReadValue;
  }

  lemma ReadSeven()
    ensures ReadVarint([7], 10) == Some(Varint(7, 1))
  {}

  lemma ReadOverlongEight()
    ensures ReadVarint([0x88, 0x80, 0x80, 0x80, 0x80, 0x00, 7], 10) == Some(Varint(8, 6))
  {
    var b: bytes := [0x88, 0x80, 0x80, 0x80, 0x80, 0x00, 7];
    assert ReadVarint(b[5..], 5) == Some(Varint(0, 1));
    assert b[4..][1..] == b[5..] && b[3..][1..] == b[4..] && b[2..][1..] == b[3..] && b[1..][1..] == b[2..];
    assert ReadVarint(b[4..], 6) == Some(Varint(0, 2));
    assert ReadVarint(b[3..], 7) == Some(Varint(0, 3));
    assert ReadVarint(b[2..], 8) == Some(Varint(0, 4));
    assert ReadVarint(b[1..], 9) == Some(Varint(0, 5));
  }
}
