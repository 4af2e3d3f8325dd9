/**
 The messages of the packet schema as values, one for each shape, with the
 meaning of a record stream (Fold), the records a writer emits (RecordsOf) and
 the generated merge functions (Merge).
 */
module Messages {
  import opened Wrappers
  import opened Wire
  import opened Records

  const SCALAR_TAGS: set<nat> := {8, 18, 26, 32}
  const POSITION_TAGS: set<nat> := {13, 21, 29, 32}
  const NESTED_TAGS: set<nat> := {10}

  predicate UnknownFields(rs: seq<Record>, known: set<nat>) {
    AllValid(rs) && AllUnknown(rs, known)
  }

  /** Explicit presence: an absent field differs from a zero one. */
  datatype Header = Header(
    userId: Option<uint32>,
    typeName: Option<bytes>,
    arr: Option<bytes>,
    arrSize: Option<uint32>,
    unknown: seq<Record>)
  {
    predicate Valid() {
      && |typeName.GetOr([])| < TWO_31
      && |arr.GetOr([])| < TWO_31
      && UnknownFields(unknown, SCALAR_TAGS)
    }
  }

  /** Implicit presence: a zero or empty field is an absent one. */
  datatype ItemInfo = ItemInfo(
    itemid: int32,
    itemName: bytes,
    itemDesc: bytes,
    count: uint32,
    unknown: seq<Record>)
  {
    predicate Valid() {
      && |itemName| < TWO_31
      && |itemDesc| < TWO_31
      && UnknownFields(unknown, SCALAR_TAGS)
    }
  }

  /** Three floats, kept as their raw 32-bit patterns, and an optional int32. */
  datatype Position = Position(
    x: Option<uint32>,
    y: Option<uint32>,
    z: Option<uint32>,
    index: Option<int32>,
    unknown: seq<Record>)
  {
    predicate Valid() {
      UnknownFields(unknown, POSITION_TAGS)
    }
  }

  datatype AddToItem = AddToItem(item: Option<ItemInfo>, unknown: seq<Record>) {
    predicate Valid() {
      && (item.Some? ==> item.value.Valid())
      && UnknownFields(unknown, NESTED_TAGS)
    }
  }

  datatype Inventory = Inventory(items: seq<ItemInfo>, unknown: seq<Record>) {
    predicate Valid() {
      && (forall i | i in items :: i.Valid())
      && UnknownFields(unknown, NESTED_TAGS)
    }
  }

  datatype Message =
    | HeaderMessage(header: Header)
    | ItemMessage(item: ItemInfo)
    | PositionMessage(position: Position)
    | AddToItemMessage(add: AddToItem)
    | InventoryMessage(inventory: Inventory)
  {
    predicate Valid() {
      match this
      case HeaderMessage(h) => h.Valid()
      case ItemMessage(i) => i.Valid()
      case PositionMessage(p) => p.Valid()
      case AddToItemMessage(a) => a.Valid()
      case InventoryMessage(v) => v.Valid()
    }

    /** No embedded message is too long for its length prefix. */
    predicate Fits() {
      match this
      case AddToItemMessage(a) => a.item.Some? ==> |ItemBytes(a.item.value)| < TWO_31
      case InventoryMessage(v) => forall i | i in v.items :: |ItemBytes(i)| < TWO_31
      case _ => true
    }

    function Known(): set<nat> {
      match this
      case HeaderMessage(_) => SCALAR_TAGS
      case ItemMessage(_) => SCALAR_TAGS
      case PositionMessage(_) => POSITION_TAGS
      case AddToItemMessage(_) => NESTED_TAGS
      case InventoryMessage(_) => NESTED_TAGS
    }

    /** A new message of the same type. */
    function New(): Message {
      match this
      case HeaderMessage(_) => HeaderMessage(NEW_HEADER)
      case ItemMessage(_) => ItemMessage(NEW_ITEM)
      case PositionMessage(_) => PositionMessage(NEW_POSITION)
      case AddToItemMessage(_) => AddToItemMessage(NEW_ADD_TO_ITEM)
      case InventoryMessage(_) => InventoryMessage(NEW_INVENTORY)
    }
  }

  const NEW_HEADER := Header(None, None, None, None, [])
  const NEW_ITEM := ItemInfo(0, [], [], 0, [])
  const NEW_POSITION := Position(None, None, None, None, [])
  const NEW_ADD_TO_ITEM := AddToItem(None, [])
  const NEW_INVENTORY := Inventory([], [])

  // ---------------------------------------------------------------- writing

  function VarintField(number: nat, present: bool, v: nat): seq<Record> {
    if present then [Record(number, VARINT(v))] else []
  }

  function LenField(number: nat, present: bool, s: bytes): seq<Record> {
    if present then [Record(number, LEN(s))] else []
  }

  function FixedField(number: nat, present: bool, n: nat): seq<Record> {
    if present then [Record(number, I32(n))] else []
  }

  function HeaderRecords(h: Header): seq<Record> {
    VarintField(1, h.userId.Some?, h.userId.GetOr(0)) + LenField(2, h.typeName.Some?, h.typeName.GetOr([])) +
    LenField(3, h.arr.Some?, h.arr.GetOr([])) + VarintField(4, h.arrSize.Some?, h.arrSize.GetOr(0)) + h.unknown
  }

  function ItemRecords(i: ItemInfo): seq<Record> {
    VarintField(1, i.itemid != 0, SignExtend(i.itemid)) + LenField(2, i.itemName != [], i.itemName) +
    LenField(3, i.itemDesc != [], i.itemDesc) + VarintField(4, i.count != 0, i.count) + i.unknown
  }

  function PositionRecords(p: Position): seq<Record> {
    FixedField(1, p.x.Some?, p.x.GetOr(0)) + FixedField(2, p.y.Some?, p.y.GetOr(0)) +
    FixedField(3, p.z.Some?, p.z.GetOr(0)) + VarintField(4, p.index.Some?, SignExtend(p.index.GetOr(0))) + p.unknown
  }

  function ItemBytes(i: ItemInfo): bytes {
    Print(ItemRecords(i))
  }

  function NestedRecords(items: seq<ItemInfo>): seq<Record> {
    if items == [] then [] else [Record(1, LEN(ItemBytes(items[0])))] + NestedRecords(items[1..])
  }

  function AddToItemRecords(a: AddToItem): seq<Record> {
    NestedRecords(if a.item.Some? then [a.item.value] else []) + a.unknown
  }

  function InventoryRecords(v: Inventory): seq<Record> {
    NestedRecords(v.items) + v.unknown
  }

  function RecordsOf(m: Message): seq<Record> {
    match m
    case HeaderMessage(h) => HeaderRecords(h)
    case ItemMessage(i) => ItemRecords(i)
    case PositionMessage(p) => PositionRecords(p)
    case AddToItemMessage(a) => AddToItemRecords(a)
    case InventoryMessage(v) => InventoryRecords(v)
  }

  function Write(m: Message): bytes {
    Print(RecordsOf(m))
  }

  // ---------------------------------------------------------------- parsing

  function ApplyHeader(h: Header, r: Record): Header {
    match r
    case Record(1, VARINT(v)) => h.(userId := Some(v % TWO_32))
    case Record(2, LEN(s)) => h.(typeName := Some(s))
    case Record(3, LEN(s)) => h.(arr := Some(s))
    case Record(4, VARINT(v)) => h.(arrSize := Some(v % TWO_32))
    case _ => h.(unknown := h.unknown + [r])
  }

  function ApplyItem(i: ItemInfo, r: Record): ItemInfo {
    match r
    case Record(1, VARINT(v)) => i.(itemid := ToInt32(v))
    case Record(2, LEN(s)) => i.(itemName := s)
    case Record(3, LEN(s)) => i.(itemDesc := s)
    case Record(4, VARINT(v)) => i.(count := v % TWO_32)
    case _ => i.(unknown := i.unknown + [r])
  }

  function ApplyPosition(p: Position, r: Record): Position {
    match r
    case Record(1, I32(n)) => p.(x := Some(n % TWO_32))
    case Record(2, I32(n)) => p.(y := Some(n % TWO_32))
    case Record(3, I32(n)) => p.(z := Some(n % TWO_32))
    case Record(4, VARINT(v)) => p.(index := Some(ToInt32(v)))
    case _ => p.(unknown := p.unknown + [r])
  }

  function FoldItem(i: ItemInfo, rs: seq<Record>): ItemInfo
    decreases |rs|
  {
    if rs == [] then i else FoldItem(ApplyItem(i, rs[0]), rs[1..])
  }

  /** Merges the bytes of an embedded item into an item. */
  function ParseItem(rt: Runtime, i: ItemInfo, b: bytes): Option<ItemInfo> {
    match Scan(rt, b)
    case None => None
    case Some(rs) => Some(FoldItem(i, rs))
  }

  function ApplyAddToItem(rt: Runtime, a: AddToItem, r: Record): Option<AddToItem> {
    match r
    case Record(1, LEN(b)) =>
      (match ParseItem(rt, a.item.GetOr(NEW_ITEM), b)
       case None => None
       case Some(i) => Some(a.(item := Some(i))))
    case _ => Some(a.(unknown := a.unknown + [r]))
  }

  function ApplyInventory(rt: Runtime, v: Inventory, r: Record): Option<Inventory> {
    match r
    case Record(1, LEN(b)) =>
      (match ParseItem(rt, NEW_ITEM, b)
       case None => None
       case Some(i) => Some(v.(items := v.items + [i])))
    case _ => Some(v.(unknown := v.unknown + [r]))
  }

  /** What one record does to a message; None if an embedded message is malformed. */
  function Apply(rt: Runtime, m: Message, r: Record): (m': Option<Message>)
    ensures m'.Some? ==> m'.value.New() == m.New()
  {
    match m
    case HeaderMessage(h) => Some(HeaderMessage(ApplyHeader(h, r)))
    case ItemMessage(i) => Some(ItemMessage(ApplyItem(i, r)))
    case PositionMessage(p) => Some(PositionMessage(ApplyPosition(p, r)))
    case AddToItemMessage(a) =>
      (match ApplyAddToItem(rt, a, r)
       case None => None
       case Some(a') => Some(AddToItemMessage(a')))
    case InventoryMessage(v) =>
      (match ApplyInventory(rt, v, r)
       case None => None
       case Some(v') => Some(InventoryMessage(v')))
  }

  function Fold(rt: Runtime, m: Message, rs: seq<Record>): (m': Option<Message>)
    ensures m'.Some? ==> m'.value.New() == m.New()
    decreases |rs|
  {
    if rs == [] then Some(m)
    else
      match Apply(rt, m, rs[0])
      case None => None
      case Some(m') => Fold(rt, m', rs[1..])
  }

  /** Merges a byte string into a message. */
  function ParseInto(rt: Runtime, m: Message, b: bytes): (m': Option<Message>)
    ensures m'.Some? ==> m'.value.New() == m.New()
  {
    match Scan(rt, b)
    case None => None
    case Some(rs) => Fold(rt, m, rs)
  }

  // ---------------------------------------------------------------- merging

  function Over<T>(earlier: Option<T>, later: Option<T>): Option<T> {
    if later.Some? then later else earlier
  }

  function MergeHeader(h: Header, other: Header): Header {
    Header(
      Over(h.userId, other.userId), Over(h.typeName, other.typeName),
      Over(h.arr, other.arr), Over(h.arrSize, other.arrSize), h.unknown + other.unknown)
  }

  /** Merging skips the zero and empty fields of `other`. */
  function MergeItem(i: ItemInfo, other: ItemInfo): ItemInfo {
    ItemInfo(
      if other.itemid != 0 then other.itemid else i.itemid,
      if other.itemName != [] then other.itemName else i.itemName,
      if other.itemDesc != [] then other.itemDesc else i.itemDesc,
      if other.count != 0 then other.count else i.count,
      i.unknown + other.unknown)
  }

  function MergePosition(p: Position, other: Position): Position {
    Position(
      Over(p.x, other.x), Over(p.y, other.y), Over(p.z, other.z),
      Over(p.index, other.index), p.unknown + other.unknown)
  }

  function MergeAddToItem(a: AddToItem, other: AddToItem): AddToItem {
    AddToItem(
      if other.item.Some? then Some(MergeItem(a.item.GetOr(NEW_ITEM), other.item.value)) else a.item,
      a.unknown + other.unknown)
  }

  function MergeInventory(v: Inventory, other: Inventory): Inventory {
    Inventory(v.items + other.items, v.unknown + other.unknown)
  }

  function Merge(m: Message, other: Message): Message
    requires m.New() == other.New()
  {
    match (m, other)
    case (HeaderMessage(h), HeaderMessage(h')) => HeaderMessage(MergeHeader(h, h'))
    case (ItemMessage(i), ItemMessage(i')) => ItemMessage(MergeItem(i, i'))
    case (PositionMessage(p), PositionMessage(p')) => PositionMessage(MergePosition(p, p'))
    case (AddToItemMessage(a), AddToItemMessage(a')) => AddToItemMessage(MergeAddToItem(a, a'))
    case (InventoryMessage(v), InventoryMessage(v')) => InventoryMessage(MergeInventory(v, v'))
  }
}
