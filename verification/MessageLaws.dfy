/**
 The meaning of a record stream: folding it into a message record by record is
 the declarative meaning, in which the last record of a scalar field wins and
 embedded messages merge or accumulate, so records of different fields commute.
 */
module MessageLaws {
  import opened Wrappers
  import opened Wire
  import opened Records
  import opened Messages

  // ------------------------------------------------------------ folding in steps

  lemma {:induction false} FoldConcat(rt: Runtime, m: Message, xs: seq<Record>, ys: seq<Record>)
    ensures Fold(rt, m, xs + ys) ==
            match Fold(rt, m, xs) case None => None case Some(m') => Fold(rt, m', ys)
    decreases |xs|
  {
    if xs == [] {
      assert xs + ys == ys;
    } else {
      assert (xs + ys)[1..] == xs[1..] + ys;
      match Apply(rt, m, xs[0])
      case None =>
      case Some(m') => FoldConcat(rt, m', xs[1..], ys);
    }
  }

  lemma {:induction false} FoldItemConcat(i: ItemInfo, xs: seq<Record>, ys: seq<Record>)
    ensures FoldItem(i, xs + ys) == FoldItem(FoldItem(i, xs), ys)
    decreases |xs|
  {
    if xs == [] {
      assert xs + ys == ys;
    } else {
      assert (xs + ys)[1..] == xs[1..] + ys;
      FoldItemConcat(ApplyItem(i, xs[0]), xs[1..], ys);
    }
  }

  lemma {:induction false} FoldItemMessage(rt: Runtime, i: ItemInfo, rs: seq<Record>)
    ensures Fold(rt, ItemMessage(i), rs) == Some(ItemMessage(FoldItem(i, rs)))
    decreases |rs|
  {
    if rs != [] { FoldItemMessage(rt, ApplyItem(i, rs[0]), rs[1..]); }
  }

  // ------------------------------------------------------------ the last record wins

  /** The value of the last record with a tag. */
  function LastOf(rs: seq<Record>, tag: nat): (v: Option<Value>)
    ensures v.Some? ==> v.value.WireType() == tag % 8
  {
    var os := OfTag(rs, tag);
    if os == [] then None
    else
      assert os[|os| - 1] in os;
      Some(os[|os| - 1].value)
  }

  function LastUint32(rs: seq<Record>, tag: nat): Option<uint32> {
    match LastOf(rs, tag)
    case Some(VARINT(v)) => Some(v % TWO_32)
    case _ => None
  }

  function LastInt32(rs: seq<Record>, tag: nat): Option<int32> {
    match LastOf(rs, tag)
    case Some(VARINT(v)) => Some(ToInt32(v))
    case _ => None
  }

  function LastFixed(rs: seq<Record>, tag: nat): Option<uint32> {
    match LastOf(rs, tag)
    case Some(I32(n)) => Some(n % TWO_32)
    case _ => None
  }

  function LastBytes(rs: seq<Record>, tag: nat): Option<bytes> {
    match LastOf(rs, tag)
    case Some(LEN(s)) => Some(s)
    case _ => None
  }

  lemma LastConcat(xs: seq<Record>, ys: seq<Record>, tag: nat)
    ensures LastUint32(xs + ys, tag) == Over(LastUint32(xs, tag), LastUint32(ys, tag))
    ensures LastInt32(xs + ys, tag) == Over(LastInt32(xs, tag), LastInt32(ys, tag))
    ensures LastFixed(xs + ys, tag) == Over(LastFixed(xs, tag), LastFixed(ys, tag))
    ensures LastBytes(xs + ys, tag) == Over(LastBytes(xs, tag), LastBytes(ys, tag))
  {
    OfTagConcat(xs, ys, tag);
    assert LastOf(xs + ys, tag) == Over(LastOf(xs, tag), LastOf(ys, tag));
  }

  /** The fields of a header read off the stream, without running it. */
  function DeclaredHeader(h: Header, rs: seq<Record>): Header {
    Header(
      Over(h.userId, LastUint32(rs, 8)), Over(h.typeName, LastBytes(rs, 18)),
      Over(h.arr, LastBytes(rs, 26)), Over(h.arrSize, LastUint32(rs, 32)),
      h.unknown + Unknown(rs, SCALAR_TAGS))
  }

  function DeclaredItem(i: ItemInfo, rs: seq<Record>): ItemInfo {
    ItemInfo(
      LastInt32(rs, 8).GetOr(i.itemid), LastBytes(rs, 18).GetOr(i.itemName),
      LastBytes(rs, 26).GetOr(i.itemDesc), LastUint32(rs, 32).GetOr(i.count),
      i.unknown + Unknown(rs, SCALAR_TAGS))
  }

  function DeclaredPosition(p: Position, rs: seq<Record>): Position {
    Position(
      Over(p.x, LastFixed(rs, 13)), Over(p.y, LastFixed(rs, 21)), Over(p.z, LastFixed(rs, 29)),
      Over(p.index, LastInt32(rs, 32)), p.unknown + Unknown(rs, POSITION_TAGS))
  }

  /** The records of all embedded messages in one stream. */
  function Embedded(rt: Runtime, os: seq<Record>): Option<seq<Record>> {
    if os == [] then Some([])
    else Joined(if os[0].value.LEN? then Scan(rt, os[0].value.payload) else None, Embedded(rt, os[1..]))
  }

  function JoinedItems(xs: Option<seq<ItemInfo>>, ys: Option<seq<ItemInfo>>): Option<seq<ItemInfo>> {
    if xs.Some? && ys.Some? then Some(xs.value + ys.value) else None
  }

  function EmbeddedItem(rt: Runtime, r: Record): Option<seq<ItemInfo>> {
    if !r.value.LEN? then None
    else
      match ParseItem(rt, NEW_ITEM, r.value.payload)
      case None => None
      case Some(i) => Some([i])
  }

  /** The embedded messages, one item each. */
  function EmbeddedItems(rt: Runtime, os: seq<Record>): Option<seq<ItemInfo>> {
    if os == [] then Some([]) else JoinedItems(EmbeddedItem(rt, os[0]), EmbeddedItems(rt, os[1..]))
  }

  function DeclaredAddToItem(rt: Runtime, a: AddToItem, rs: seq<Record>): Option<AddToItem> {
    var os := OfTag(rs, 10);
    match Embedded(rt, os)
    case None => None
    case Some(inner) =>
      Some(AddToItem(
             if os == [] then a.item else Some(FoldItem(a.item.GetOr(NEW_ITEM), inner)),
             a.unknown + Unknown(rs, NESTED_TAGS)))
  }

  function DeclaredInventory(rt: Runtime, v: Inventory, rs: seq<Record>): Option<Inventory> {
    match EmbeddedItems(rt, OfTag(rs, 10))
    case None => None
    case Some(items) => Some(Inventory(v.items + items, v.unknown + Unknown(rs, NESTED_TAGS)))
  }

  function Declared(rt: Runtime, m: Message, rs: seq<Record>): Option<Message> {
    match m
    case HeaderMessage(h) => Some(HeaderMessage(DeclaredHeader(h, rs)))
    case ItemMessage(i) => Some(ItemMessage(DeclaredItem(i, rs)))
    case PositionMessage(p) => Some(PositionMessage(DeclaredPosition(p, rs)))
    case AddToItemMessage(a) =>
      (match DeclaredAddToItem(rt, a, rs) case None => None case Some(a') => Some(AddToItemMessage(a')))
    case InventoryMessage(v) =>
      (match DeclaredInventory(rt, v, rs) case None => None case Some(v') => Some(InventoryMessage(v')))
  }

  lemma AppendAssociative<T>(xs: seq<T>, x: T, ys: seq<T>)
    ensures xs + [x] + ys == xs + ([x] + ys)
  {}

  lemma OneRecord(r: Record, tag: nat, known: set<nat>)
    ensures OfTag([r], tag) == if r.Tag() == tag then [r] else []
    ensures LastOf([r], tag) == if r.Tag() == tag then Some(r.value) else None
    ensures Unknown([r], known) == if r.Tag() in known then [] else [r]
  {}

  lemma DeclaredHeaderConcat(h: Header, xs: seq<Record>, ys: seq<Record>)
    ensures DeclaredHeader(h, xs + ys) == DeclaredHeader(DeclaredHeader(h, xs), ys)
  {
    LastConcat(xs, ys, 8);
    LastConcat(xs, ys, 18);
    LastConcat(xs, ys, 26);
    LastConcat(xs, ys, 32);
    UnknownConcat(xs, ys, SCALAR_TAGS);
    assert h.unknown + (Unknown(xs, SCALAR_TAGS) + Unknown(ys, SCALAR_TAGS)) ==
      h.unknown + Unknown(xs, SCALAR_TAGS) + Unknown(ys, SCALAR_TAGS);
  }

  lemma DeclaredHeaderOne(h: Header, r: Record)
    ensures DeclaredHeader(h, [r]) == ApplyHeader(h, r)
  {
    OneRecord(r, 8, SCALAR_TAGS);
    OneRecord(r, 18, SCALAR_TAGS);
    OneRecord(r, 26, SCALAR_TAGS);
    OneRecord(r, 32, SCALAR_TAGS);
    assert h.unknown + [] == h.unknown;
  }

  lemma DeclaredItemConcat(i: ItemInfo, xs: seq<Record>, ys: seq<Record>)
    ensures DeclaredItem(i, xs + ys) == DeclaredItem(DeclaredItem(i, xs), ys)
  {
    LastConcat(xs, ys, 8);
    LastConcat(xs, ys, 18);
    LastConcat(xs, ys, 26);
    LastConcat(xs, ys, 32);
    UnknownConcat(xs, ys, SCALAR_TAGS);
    assert i.unknown + (Unknown(xs, SCALAR_TAGS) + Unknown(ys, SCALAR_TAGS)) ==
      i.unknown + Unknown(xs, SCALAR_TAGS) + Unknown(ys, SCALAR_TAGS);
  }

  lemma DeclaredItemOne(i: ItemInfo, r: Record)
    ensures DeclaredItem(i, [r]) == ApplyItem(i, r)
  {
    OneRecord(r, 8, SCALAR_TAGS);
    OneRecord(r, 18, SCALAR_TAGS);
    OneRecord(r, 26, SCALAR_TAGS);
    OneRecord(r, 32, SCALAR_TAGS);
    assert i.unknown + [] == i.unknown;
  }

  lemma DeclaredPositionConcat(p: Position, xs: seq<Record>, ys: seq<Record>)
    ensures DeclaredPosition(p, xs + ys) == DeclaredPosition(DeclaredPosition(p, xs), ys)
  {
    LastConcat(xs, ys, 13);
    LastConcat(xs, ys, 21);
    LastConcat(xs, ys, 29);
    LastConcat(xs, ys, 32);
    UnknownConcat(xs, ys, POSITION_TAGS);
    assert p.unknown + (Unknown(xs, POSITION_TAGS) + Unknown(ys, POSITION_TAGS)) ==
      p.unknown + Unknown(xs, POSITION_TAGS) + Unknown(ys, POSITION_TAGS);
  }

  lemma DeclaredPositionOne(p: Position, r: Record)
    ensures DeclaredPosition(p, [r]) == ApplyPosition(p, r)
  {
    OneRecord(r, 13, POSITION_TAGS);
    OneRecord(r, 21, POSITION_TAGS);
    OneRecord(r, 29, POSITION_TAGS);
    OneRecord(r, 32, POSITION_TAGS);
    assert p.unknown + [] == p.unknown;
  }

  lemma {:induction false} EmbeddedConcat(rt: Runtime, xs: seq<Record>, ys: seq<Record>)
    ensures Embedded(rt, xs + ys) == Joined(Embedded(rt, xs), Embedded(rt, ys))
  {
    if xs == [] {
      assert xs + ys == ys;
      if Embedded(rt, ys).Some? { assert [] + Embedded(rt, ys).value == Embedded(rt, ys).value; }
    } else {
      assert (xs + ys)[1..] == xs[1..] + ys;
      EmbeddedConcat(rt, xs[1..], ys);
      JoinedAssociative(
        if xs[0].value.LEN? then Scan(rt, xs[0].value.payload) else None, Embedded(rt, xs[1..]), Embedded(rt, ys));
    }
  }

  lemma JoinedItemsAssociative(xs: Option<seq<ItemInfo>>, ys: Option<seq<ItemInfo>>, zs: Option<seq<ItemInfo>>)
    ensures JoinedItems(xs, JoinedItems(ys, zs)) == JoinedItems(JoinedItems(xs, ys), zs)
  {
    if xs.Some? && ys.Some? && zs.Some? {
      assert xs.value + (ys.value + zs.value) == xs.value + ys.value + zs.value;
    }
  }

  lemma {:induction false} EmbeddedItemsConcat(rt: Runtime, xs: seq<Record>, ys: seq<Record>)
    ensures EmbeddedItems(rt, xs + ys) == JoinedItems(EmbeddedItems(rt, xs), EmbeddedItems(rt, ys))
  {
    hide EmbeddedItem;
    if xs == [] {
      assert xs + ys == ys;
      if EmbeddedItems(rt, ys).Some? { assert [] + EmbeddedItems(rt, ys).value == EmbeddedItems(rt, ys).value; }
    } else {
      assert (xs + ys)[1..] == xs[1..] + ys;
      EmbeddedItemsConcat(rt, xs[1..], ys);
      JoinedItemsAssociative(EmbeddedItem(rt, xs[0]), EmbeddedItems(rt, xs[1..]), EmbeddedItems(rt, ys));
    }
  }

  lemma DeclaredAddToItemConcat(rt: Runtime, a: AddToItem, xs: seq<Record>, ys: seq<Record>)
    ensures DeclaredAddToItem(rt, a, xs + ys) ==
            match DeclaredAddToItem(rt, a, xs) case None => None case Some(a') => DeclaredAddToItem(rt, a', ys)
  {
    hide OfTag, Unknown;
    OfTagConcat(xs, ys, 10);
    EmbeddedConcat(rt, OfTag(xs, 10), OfTag(ys, 10));
    UnknownConcat(xs, ys, NESTED_TAGS);
    assert a.unknown + (Unknown(xs, NESTED_TAGS) + Unknown(ys, NESTED_TAGS)) ==
      a.unknown + Unknown(xs, NESTED_TAGS) + Unknown(ys, NESTED_TAGS);
    match (Embedded(rt, OfTag(xs, 10)), Embedded(rt, OfTag(ys, 10)))
    case (Some(inner), Some(inner')) => FoldItemConcat(a.item.GetOr(NEW_ITEM), inner, inner');
    case _ =>
  }

  lemma DeclaredAddToItemOne(rt: Runtime, a: AddToItem, r: Record)
    ensures DeclaredAddToItem(rt, a, [r]) == ApplyAddToItem(rt, a, r)
  {
    OneRecord(r, 10, NESTED_TAGS);
    assert a.unknown + [] == a.unknown;
    if r.Tag() == 10 {
      var inner := Scan(rt, r.value.payload);
      assert inner.Some? ==> inner.value + [] == inner.value;
      assert Embedded(rt, [r][1..]) == Some([]);
      assert Embedded(rt, [r]) == inner;
    }
  }

  lemma DeclaredInventoryConcat(rt: Runtime, v: Inventory, xs: seq<Record>, ys: seq<Record>)
    ensures DeclaredInventory(rt, v, xs + ys) ==
            match DeclaredInventory(rt, v, xs) case None => None case Some(v') => DeclaredInventory(rt, v', ys)
  {
    hide OfTag, Unknown, EmbeddedItems;
    OfTagConcat(xs, ys, 10);
    EmbeddedItemsConcat(rt, OfTag(xs, 10), OfTag(ys, 10));
    UnknownConcat(xs, ys, NESTED_TAGS);
    assert v.unknown + (Unknown(xs, NESTED_TAGS) + Unknown(ys, NESTED_TAGS)) ==
      v.unknown + Unknown(xs, NESTED_TAGS) + Unknown(ys, NESTED_TAGS);
    match (EmbeddedItems(rt, OfTag(xs, 10)), EmbeddedItems(rt, OfTag(ys, 10)))
    case (Some(before), Some(after)) => assert v.items + (before + after) == v.items + before + after;
    case _ =>
  }

  lemma DeclaredInventoryOne(rt: Runtime, v: Inventory, r: Record)
    ensures DeclaredInventory(rt, v, [r]) == ApplyInventory(rt, v, r)
  {
    OneRecord(r, 10, NESTED_TAGS);
    assert v.unknown + [] == v.unknown && v.items + [] == v.items;
    if r.Tag() == 10 {
      assert EmbeddedItems(rt, [r][1..]) == Some([]);
      var i := ParseItem(rt, NEW_ITEM, r.value.payload);
      if i.Some? { assert [i.value] + [] == [i.value]; }
    }
  }

  lemma DeclaredConcat(rt: Runtime, m: Message, xs: seq<Record>, ys: seq<Record>)
    ensures Declared(rt, m, xs + ys) ==
            match Declared(rt, m, xs) case None => None case Some(m') => Declared(rt, m', ys)
  {
    match m
    case HeaderMessage(h) => DeclaredHeaderConcat(h, xs, ys);
    case ItemMessage(i) => DeclaredItemConcat(i, xs, ys);
    case PositionMessage(p) => DeclaredPositionConcat(p, xs, ys);
    case AddToItemMessage(a) => DeclaredAddToItemConcat(rt, a, xs, ys);
    case InventoryMessage(v) => DeclaredInventoryConcat(rt, v, xs, ys);
  }

  lemma DeclaredOne(rt: Runtime, m: Message, r: Record)
    ensures Declared(rt, m, [r]) == Apply(rt, m, r)
  {
    match m
    case HeaderMessage(h) => DeclaredHeaderOne(h, r);
    case ItemMessage(i) => DeclaredItemOne(i, r);
    case PositionMessage(p) => DeclaredPositionOne(p, r);
    case AddToItemMessage(a) => DeclaredAddToItemOne(rt, a, r);
    case InventoryMessage(v) => DeclaredInventoryOne(rt, v, r);
  }

  lemma DeclaredNone(rt: Runtime, m: Message)
    ensures Declared(rt, m, []) == Some(m)
  {
    match m
    case HeaderMessage(h) => assert h.unknown + [] == h.unknown;
    case ItemMessage(i) => assert i.unknown + [] == i.unknown;
    case PositionMessage(p) => assert p.unknown + [] == p.unknown;
    case AddToItemMessage(a) => assert a.unknown + [] == a.unknown;
    case InventoryMessage(v) => assert v.unknown + [] == v.unknown && v.items + [] == v.items;
  }

  /** Running a stream of records through a message, one by one, gives its declared fields. */
  lemma {:induction false} FoldIsDeclared(rt: Runtime, m: Message, rs: seq<Record>)
    ensures Fold(rt, m, rs) == Declared(rt, m, rs)
    decreases |rs|
  {
    if rs == [] {
      DeclaredNone(rt, m);
    } else {
      assert rs == [rs[0]] + rs[1..];
      DeclaredOne(rt, m, rs[0]);
      DeclaredConcat(rt, m, [rs[0]], rs[1..]);
      match Apply(rt, m, rs[0])
      case None =>
      case Some(m') => FoldIsDeclared(rt, m', rs[1..]);
    }
  }

  lemma FoldItemIsDeclared(i: ItemInfo, rs: seq<Record>)
    ensures FoldItem(i, rs) == DeclaredItem(i, rs)
  {
    FoldItemMessage(CSharp, i, rs);
    FoldIsDeclared(CSharp, ItemMessage(i), rs);
  }

  lemma SameLast(xs: seq<Record>, ys: seq<Record>, tag: nat)
    requires OfTag(xs, tag) == OfTag(ys, tag)
    ensures LastUint32(xs, tag) == LastUint32(ys, tag) && LastInt32(xs, tag) == LastInt32(ys, tag)
    ensures LastFixed(xs, tag) == LastFixed(ys, tag) && LastBytes(xs, tag) == LastBytes(ys, tag)
  {}

  lemma SameFieldsDeclared(rt: Runtime, m: Message, xs: seq<Record>, ys: seq<Record>)
    requires SameFields(xs, ys, m.Known())
    ensures Declared(rt, m, xs) == Declared(rt, m, ys)
  {
    match m
    case PositionMessage(_) =>
      SameLast(xs, ys, 13);
      SameLast(xs, ys, 21);
      SameLast(xs, ys, 29);
      SameLast(xs, ys, 32);
    case AddToItemMessage(_) => assert 10 in m.Known();
    case InventoryMessage(_) => assert 10 in m.Known();
    case _ =>
      SameLast(xs, ys, 8);
      SameLast(xs, ys, 18);
      SameLast(xs, ys, 26);
      SameLast(xs, ys, 32);
  }

  /** Field order does not matter: streams with the same records field by field give the same message. */
  lemma SameFieldsSameMessage(rt: Runtime, m: Message, xs: seq<Record>, ys: seq<Record>)
    requires SameFields(xs, ys, m.Known())
    ensures Fold(rt, m, xs) == Fold(rt, m, ys)
  {
    FoldIsDeclared(rt, m, xs);
    FoldIsDeclared(rt, m, ys);
    SameFieldsDeclared(rt, m, xs, ys);
  }

  lemma ScanFour(rt: Runtime, x: bytes, b: bytes, c: bytes, y: bytes, r: Record, s: Record)
    requires Scan(rt, x).Some? && Scan(rt, b) == Some([r]) && Scan(rt, c) == Some([s])
    ensures Scan(rt, x + b + c + y) ==
            if Scan(rt, y).None? then None else Some(Scan(rt, x).value + [r, s] + Scan(rt, y).value)
  {
    hide Scan;
    ScanConcat(rt, x, b);
    ScanConcat(rt, x + b, c);
    ScanConcat(rt, x + b + c, y);
    assert Scan(rt, x).value + [r] + [s] == Scan(rt, x).value + [r, s];
  }

  /**
   Two neighbouring records of different fields, one of them known, can be
   exchanged in any accepted byte string, however their tags and lengths are
   encoded and whatever follows.
   */
  lemma RecordsCommute(rt: Runtime, m: Message, x: bytes, b: bytes, c: bytes, y: bytes, r: Record, s: Record)
    requires Scan(rt, x).Some? && Scan(rt, b) == Some([r]) && Scan(rt, c) == Some([s])
    requires r.Tag() != s.Tag() && (r.Tag() in m.Known() || s.Tag() in m.Known())
    ensures ParseInto(rt, m, x + b + c + y) == ParseInto(rt, m, x + c + b + y)
  {
    hide Scan, Fold;
    ScanFour(rt, x, b, c, y, r, s);
    ScanFour(rt, x, c, b, y, s, r);
    if Scan(rt, y).Some? {
      var xs, ys := Scan(rt, x).value, Scan(rt, y).value;
      ExchangeKeepsFields(xs, r, s, ys, m.Known());
      SameFieldsSameMessage(rt, m, xs + [r, s] + ys, xs + [s, r] + ys);
    }
  }
}
