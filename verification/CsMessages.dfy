/**
 The generated C# messages: objects whose setters, parse loops and merge
 functions update presence bits and fields in place.
 */
module CsMessages {
  import opened Wrappers
  import opened Wire
  import opened Records
  import opened Messages
  import opened Layouts
  import opened ParseSteps
  import opened CsCodedStreams

  /** messageHeader: two presence bits for the numbers, null for the absent strings. */
  class CsHeader {
    var hasBits0: bv32
    var userId_: uint32
    var type_: Option<bytes>
    var arr_: Option<bytes>
    var arrSize_: uint32
    var unknownFields: seq<Record>

    function Value(): Header
      reads this
    {
      Header(
        if hasBits0 & 1 != 0 then Some(userId_) else None, type_, arr_,
        if hasBits0 & 2 != 0 then Some(arrSize_) else None, unknownFields)
    }

    constructor ()
      ensures Value() == NEW_HEADER
    {
      hasBits0, userId_, type_, arr_, arrSize_, unknownFields := 0, 0, None, None, 0, [];
    }

    function HasUserId(): (r: bool)
      reads this
      ensures r == Value().userId.Some?
    {
      hasBits0 & 1 != 0
    }

    function HasArrSize(): (r: bool)
      reads this
      ensures r == Value().arrSize.Some?
    {
      hasBits0 & 2 != 0
    }

    /** An absent number reads as zero whatever the stale field holds. */
    function UserId(): (v: uint32)
      reads this
      ensures v == Value().userId.GetOr(0)
    {
      if hasBits0 & 1 != 0 then userId_ else 0
    }

    function ArrSize(): (v: uint32)
      reads this
      ensures v == Value().arrSize.GetOr(0)
    {
      if hasBits0 & 2 != 0 then arrSize_ else 0
    }

    method SetUserId(v: uint32)
      modifies this
      ensures Value() == old(Value()).(userId := Some(v))
    {
      hasBits0 := hasBits0 | 1;
      userId_ := v;
    }

    method ClearUserId()
      modifies this
      ensures Value() == old(Value()).(userId := None)
    {
      hasBits0 := hasBits0 & !1;
    }

    method SetType(s: bytes)
      modifies this
      ensures Value() == old(Value()).(typeName := Some(s))
    {
      type_ := Some(s);
    }

    method ClearType()
      modifies this
      ensures Value() == old(Value()).(typeName := None)
    {
      type_ := None;
    }

    method SetArr(s: bytes)
      modifies this
      ensures Value() == old(Value()).(arr := Some(s))
    {
      arr_ := Some(s);
    }

    method ClearArr()
      modifies this
      ensures Value() == old(Value()).(arr := None)
    {
      arr_ := None;
    }

    method SetArrSize(v: uint32)
      modifies this
      ensures Value() == old(Value()).(arrSize := Some(v))
    {
      hasBits0 := hasBits0 | 2;
      arrSize_ := v;
    }

    method ClearArrSize()
      modifies this
      ensures Value() == old(Value()).(arrSize := None)
    {
      hasBits0 := hasBits0 & !2;
    }

    method InternalWriteTo(output: CodedOutput)
      modifies output
      ensures output.buffer == old(output.buffer) + Write(HeaderMessage(Value()))
    {
      ghost var f, b := Value(), output.buffer;
      ghost var x := VarintFieldBytes(8, f.userId.Some?, f.userId.GetOr(0));
      ghost var y := LenFieldBytes(18, f.typeName.Some?, f.typeName.GetOr([]));
      ghost var z := LenFieldBytes(26, f.arr.Some?, f.arr.GetOr([]));
      ghost var w := VarintFieldBytes(32, f.arrSize.Some?, f.arrSize.GetOr(0));
      if HasUserId() {
        output.WriteRawTag(8);
        output.WriteVarint(UserId());
        AppendTwo(b, [8], VarintBytes(UserId()));
      }
      assert output.buffer == b + x;
      if type_.Some? {
        output.WriteRawTag(18);
        output.WriteBytes(type_.value);
        AppendTwo(b + x, [18], ValueBytes(LEN(type_.value)));
      }
      assert output.buffer == b + x + y;
      if arr_.Some? {
        output.WriteRawTag(26);
        output.WriteBytes(arr_.value);
        AppendTwo(b + x + y, [26], ValueBytes(LEN(arr_.value)));
      }
      assert output.buffer == b + x + y + z;
      if HasArrSize() {
        output.WriteRawTag(32);
        output.WriteVarint(ArrSize());
        AppendTwo(b + x + y + z, [32], VarintBytes(ArrSize()));
      }
      assert output.buffer == b + x + y + z + w;
      output.WriteUnknown(unknownFields);
      HeaderLayout(f);
      AppendFive(b, x, y, z, w, Print(unknownFields));
    }

    /** The switch of the parse loop: on the whole tag; everything else goes to the unknown fields. */
    method MergeField(input: CodedInput, tag: uint32) returns (ok: bool)
      requires input.Valid()
      modifies this, input`position
      ensures input.Valid()
      ensures var field := Records.ReadValue(CSharp, tag % 8, old(input.Rest()));
              ok == field.Some? &&
              (ok ==> && Value() == ApplyHeader(old(Value()), Record(tag / 8, field.value.value))
                      && input.Rest() == old(input.Rest())[field.value.size..])
    {
      hide Records.ReadValue, ApplyHeader;
      ghost var field := Records.ReadValue(CSharp, tag % 8, input.Rest());
      if field.Some? { HeaderSwitch(Value(), tag, field.value.value); }
      match tag
      case 8 =>
        var v;
        ok, v := input.ReadUInt32();
        if ok { SetUserId(v); }
      case 18 =>
        var s;
        ok, s := input.ReadBytes();
        if ok { SetType(s); }
      case 26 =>
        var s;
        ok, s := input.ReadBytes();
        if ok { SetArr(s); }
      case 32 =>
        var v;
        ok, v := input.ReadUInt32();
        if ok { SetArrSize(v); }
      case _ =>
        var value;
        ok, value := input.ReadValue(tag % 8);
        if ok { unknownFields := unknownFields + [Record(tag / 8, value)]; }
    }

    method InternalMergeFrom(input: CodedInput) returns (ok: bool)
      requires input.Valid()
      modifies this, input`position
      ensures input.Valid()
      ensures var m := ParseInto(CSharp, HeaderMessage(old(Value())), old(input.Rest()));
              ok == m.Some? && (ok ==> m == Some(HeaderMessage(Value())) && input.Rest() == [])
    {
      hide ParseInto, Records.ReadTag, Records.ReadValue, ApplyHeader;
      ghost var goal := ParseInto(CSharp, HeaderMessage(Value()), input.Rest());
      while true
        invariant input.Valid()
        invariant ParseInto(CSharp, HeaderMessage(Value()), input.Rest()) == goal
        decreases input.limit - input.position
      {
        ghost var m, b := HeaderMessage(Value()), input.Rest();
        var tag;
        ok, tag := input.ReadTag();
        if ok && tag == 0 {
          ParseNothing(CSharp, m);
          return;
        }
        if ok { ok := MergeField(input, tag); }
        if !ok {
          TurnFails(CSharp, m, b);
          return;
        }
        ghost var t := Records.ReadTag(CSharp, b).value;
        ghost var field := Records.ReadValue(CSharp, t.value % 8, b[t.size..]).value;
        Turn(CSharp, m, b, t, field, HeaderMessage(Value()));
      }
    }

    /** Fields present in `other` replace those here; `other` may be this object. */
    method MergeFrom(other: CsHeader)
      modifies this
      ensures Value() == MergeHeader(old(Value()), old(other.Value()))
    {
      if other.HasUserId() { SetUserId(other.UserId()); }
      if other.type_.Some? { SetType(other.type_.value); }
      if other.arr_.Some? { SetArr(other.arr_.value); }
      if other.HasArrSize() { SetArrSize(other.ArrSize()); }
      unknownFields := unknownFields + other.unknownFields;
    }

    method CalculateSize() returns (size: nat)
      requires Value().Valid()
      ensures size == |Write(HeaderMessage(Value()))|
    {
      hide VarintBytes, ComputeUInt32Size, Print;
      HeaderLayout(Value());
      size := 0;
      if HasUserId() {
        UInt32SizeExact(UserId());
        size := size + 1 + ComputeUInt32Size(UserId());
      }
      if type_.Some? {
        UInt32SizeExact(|type_.value|);
        size := size + 1 + ComputeBytesSize(type_.value);
      }
      if arr_.Some? {
        UInt32SizeExact(|arr_.value|);
        size := size + 1 + ComputeBytesSize(arr_.value);
      }
      if HasArrSize() {
        UInt32SizeExact(ArrSize());
        size := size + 1 + ComputeUInt32Size(ArrSize());
      }
      size := size + |Print(unknownFields)|;
    }
  }

  /** itemInfo: no presence; a field is written when it is not zero or empty. */
  class CsItemInfo {
    var itemid_: int32
    var itemName_: bytes
    var itemDesc_: bytes
    var count_: uint32
    var unknownFields: seq<Record>

    function Value(): ItemInfo
      reads this
    {
      ItemInfo(itemid_, itemName_, itemDesc_, count_, unknownFields)
    }

    constructor ()
      ensures Value() == NEW_ITEM
    {
      itemid_, itemName_, itemDesc_, count_, unknownFields := 0, [], [], 0, [];
    }

    method InternalWriteTo(output: CodedOutput)
      modifies output
      ensures output.buffer == old(output.buffer) + ItemBytes(Value())
    {
      ghost var f, b := Value(), output.buffer;
      ghost var x := VarintFieldBytes(8, f.itemid != 0, SignExtend(f.itemid));
      ghost var y := LenFieldBytes(18, f.itemName != [], f.itemName);
      ghost var z := LenFieldBytes(26, f.itemDesc != [], f.itemDesc);
      ghost var w := VarintFieldBytes(32, f.count != 0, f.count);
      if itemid_ != 0 {
        output.WriteRawTag(8);
        output.WriteInt32(itemid_);
        AppendTwo(b, [8], VarintBytes(SignExtend(itemid_)));
      }
      assert output.buffer == b + x;
      if |itemName_| != 0 {
        output.WriteRawTag(18);
        output.WriteBytes(itemName_);
        AppendTwo(b + x, [18], ValueBytes(LEN(itemName_)));
      }
      assert output.buffer == b + x + y;
      if |itemDesc_| != 0 {
        output.WriteRawTag(26);
        output.WriteBytes(itemDesc_);
        AppendTwo(b + x + y, [26], ValueBytes(LEN(itemDesc_)));
      }
      assert output.buffer == b + x + y + z;
      if count_ != 0 {
        output.WriteRawTag(32);
        output.WriteVarint(count_);
        AppendTwo(b + x + y + z, [32], VarintBytes(count_));
      }
      assert output.buffer == b + x + y + z + w;
      output.WriteUnknown(unknownFields);
      ItemLayout(f);
      AppendFive(b, x, y, z, w, Print(unknownFields));
    }

    method CalculateSize() returns (size: nat)
      requires Value().Valid()
      ensures size == |ItemBytes(Value())|
    {
      hide VarintBytes, ComputeUInt32Size, Print;
      ItemLayout(Value());
      size := 0;
      if itemid_ != 0 {
        Int32SizeExact(itemid_);
        size := size + 1 + ComputeInt32Size(itemid_);
      }
      if |itemName_| != 0 {
        UInt32SizeExact(|itemName_|);
        size := size + 1 + ComputeBytesSize(itemName_);
      }
      if |itemDesc_| != 0 {
        UInt32SizeExact(|itemDesc_|);
        size := size + 1 + ComputeBytesSize(itemDesc_);
      }
      if count_ != 0 {
        UInt32SizeExact(count_);
        size := size + 1 + ComputeUInt32Size(count_);
      }
      size := size + |Print(unknownFields)|;
    }

    method MergeFrom(other: CsItemInfo)
      modifies this
      ensures Value() == MergeItem(old(Value()), old(other.Value()))
    {
      if other.itemid_ != 0 { itemid_ := other.itemid_; }
      if |other.itemName_| != 0 { itemName_ := other.itemName_; }
      if |other.itemDesc_| != 0 { itemDesc_ := other.itemDesc_; }
      if other.count_ != 0 { count_ := other.count_; }
      unknownFields := unknownFields + other.unknownFields;
    }

    method MergeField(input: CodedInput, tag: uint32) returns (ok: bool)
      requires input.Valid()
      modifies this, input`position
      ensures input.Valid()
      ensures var field := Records.ReadValue(CSharp, tag % 8, old(input.Rest()));
              ok == field.Some? &&
              (ok ==> && Value() == ApplyItem(old(Value()), Record(tag / 8, field.value.value))
                      && input.Rest() == old(input.Rest())[field.value.size..])
    {
      hide Records.ReadValue, ApplyItem;
      ghost var field := Records.ReadValue(CSharp, tag % 8, input.Rest());
      if field.Some? { ItemSwitch(Value(), tag, field.value.value); }
      match tag
      case 8 =>
        var v;
        ok, v := input.ReadInt32();
        if ok { itemid_ := v; }
      case 18 =>
        var s;
        ok, s := input.ReadBytes();
        if ok { itemName_ := s; }
      case 26 =>
        var s;
        ok, s := input.ReadBytes();
        if ok { itemDesc_ := s; }
      case 32 =>
        var v;
        ok, v := input.ReadUInt32();
        if ok { count_ := v; }
      case _ =>
        var value;
        ok, value := input.ReadValue(tag % 8);
        if ok { unknownFields := unknownFields + [Record(tag / 8, value)]; }
    }

    method InternalMergeFrom(input: CodedInput) returns (ok: bool)
      requires input.Valid()
      modifies this, input`position
      ensures input.Valid()
      ensures var m := ParseInto(CSharp, ItemMessage(old(Value())), old(input.Rest()));
              ok == m.Some? && (ok ==> m == Some(ItemMessage(Value())) && input.Rest() == [])
    {
      hide ParseInto, Records.ReadTag, Records.ReadValue, ApplyItem;
      ghost var goal := ParseInto(CSharp, ItemMessage(Value()), input.Rest());
      while true
        invariant input.Valid()
        invariant ParseInto(CSharp, ItemMessage(Value()), input.Rest()) == goal
        decreases input.limit - input.position
      {
        ghost var m, b := ItemMessage(Value()), input.Rest();
        var tag;
        ok, tag := input.ReadTag();
        if ok && tag == 0 {
          ParseNothing(CSharp, m);
          return;
        }
        if ok { ok := MergeField(input, tag); }
        if !ok {
          TurnFails(CSharp, m, b);
          return;
        }
        ghost var t := Records.ReadTag(CSharp, b).value;
        ghost var field := Records.ReadValue(CSharp, t.value % 8, b[t.size..]).value;
        Turn(CSharp, m, b, t, field, ItemMessage(Value()));
      }
    }

    /** Reads the length-delimited embedded message into this item. */
    method ReadMessage(input: CodedInput) returns (ok: bool)
      requires input.Valid()
      modifies this, input
      ensures input.Valid() && input.limit <= old(input.limit)
      ensures var field := Records.ReadValue(CSharp, 2, old(input.Rest()));
              var item := if field.None? then None else ParseItem(CSharp, old(Value()), field.value.value.payload);
              ok == item.Some? &&
              (ok ==> && item == Some(Value()) && input.limit == old(input.limit)
                      && input.Rest() == old(input.Rest())[field.value.size..])
    {
      ghost var item, b := Value(), input.Rest();
      var oldLimit;
      ok, oldLimit := input.PushLimit();
      if !ok { return; }
      ghost var field := Records.ReadValue(CSharp, 2, b).value;
      assert input.Rest() == field.value.payload;
      ParseItemAsMessage(CSharp, item, field.value.payload);
      ok := InternalMergeFrom(input);
      if !ok { return; }
      assert input.position == input.limit;
      input.PopLimit(oldLimit);
    }

    /** Writes this item as an embedded message: tag, size, contents. */
    method WriteMessage(output: CodedOutput)
      requires Value().Valid()
      modifies output
      ensures output.buffer == old(output.buffer) + LenFieldBytes(10, true, ItemBytes(Value()))
    {
      ghost var b := output.buffer;
      output.WriteRawTag(10);
      var size := CalculateSize();
      output.WriteVarint(size);
      InternalWriteTo(output);
      AppendTwo(b + [10], VarintBytes(size), ItemBytes(Value()));
      AppendTwo(b, [10], ValueBytes(LEN(ItemBytes(Value()))));
    }
  }

  /** reqPlayerPosition: four presence bits. */
  class CsPosition {
    var hasBits0: bv32
    var x_: uint32
    var y_: uint32
    var z_: uint32
    var index_: int32
    var unknownFields: seq<Record>

    function Value(): Position
      reads this
    {
      Position(
        if hasBits0 & 1 != 0 then Some(x_) else None, if hasBits0 & 2 != 0 then Some(y_) else None,
        if hasBits0 & 4 != 0 then Some(z_) else None, if hasBits0 & 8 != 0 then Some(index_) else None,
        unknownFields)
    }

    constructor ()
      ensures Value() == NEW_POSITION
    {
      hasBits0, x_, y_, z_, index_, unknownFields := 0, 0, 0, 0, 0, [];
    }

    method SetX(bits: uint32)
      modifies this
      ensures Value() == old(Value()).(x := Some(bits))
    {
      hasBits0, x_ := hasBits0 | 1, bits;
    }

    method SetY(bits: uint32)
      modifies this
      ensures Value() == old(Value()).(y := Some(bits))
    {
      hasBits0, y_ := hasBits0 | 2, bits;
    }

    method SetZ(bits: uint32)
      modifies this
      ensures Value() == old(Value()).(z := Some(bits))
    {
      hasBits0, z_ := hasBits0 | 4, bits;
    }

    method SetIndex(v: int32)
      modifies this
      ensures Value() == old(Value()).(index := Some(v))
    {
      hasBits0, index_ := hasBits0 | 8, v;
    }

    method InternalWriteTo(output: CodedOutput)
      modifies output
      ensures output.buffer == old(output.buffer) + Write(PositionMessage(Value()))
    {
      var f := Value();
      ghost var b := output.buffer;
      ghost var x := FixedFieldBytes(13, f.x.Some?, f.x.GetOr(0));
      ghost var y := FixedFieldBytes(21, f.y.Some?, f.y.GetOr(0));
      ghost var z := FixedFieldBytes(29, f.z.Some?, f.z.GetOr(0));
      ghost var w := VarintFieldBytes(32, f.index.Some?, SignExtend(f.index.GetOr(0)));
      if f.x.Some? {
        output.WriteRawTag(13);
        output.WriteFloat(f.x.value);
        AppendTwo(b, [13], LittleEndian(f.x.value, 4));
      }
      assert output.buffer == b + x;
      if f.y.Some? {
        output.WriteRawTag(21);
        output.WriteFloat(f.y.value);
        AppendTwo(b + x, [21], LittleEndian(f.y.value, 4));
      }
      assert output.buffer == b + x + y;
      if f.z.Some? {
        output.WriteRawTag(29);
        output.WriteFloat(f.z.value);
        AppendTwo(b + x + y, [29], LittleEndian(f.z.value, 4));
      }
      assert output.buffer == b + x + y + z;
      if f.index.Some? {
        output.WriteRawTag(32);
        output.WriteInt32(f.index.value);
        AppendTwo(b + x + y + z, [32], VarintBytes(SignExtend(f.index.value)));
      }
      assert output.buffer == b + x + y + z + w;
      output.WriteUnknown(f.unknown);
      PositionLayout(f);
      AppendFive(b, x, y, z, w, Print(f.unknown));
    }

    method CalculateSize() returns (size: nat)
      ensures size == |Write(PositionMessage(Value()))|
    {
      var f := Value();
      PositionLayout(f);
      size := 0;
      if f.x.Some? { size := size + 1 + 4; }
      if f.y.Some? { size := size + 1 + 4; }
      if f.z.Some? { size := size + 1 + 4; }
      if f.index.Some? {
        Int32SizeExact(f.index.value);
        size := size + 1 + ComputeInt32Size(f.index.value);
      }
      size := size + |Print(f.unknown)|;
    }

    method MergeFrom(other: CsPosition)
      modifies this
      ensures Value() == MergePosition(old(Value()), old(other.Value()))
    {
      var f := other.Value();
      if f.x.Some? { SetX(f.x.value); }
      if f.y.Some? { SetY(f.y.value); }
      if f.z.Some? { SetZ(f.z.value); }
      if f.index.Some? { SetIndex(f.index.value); }
      unknownFields := unknownFields + f.unknown;
    }

    method MergeField(input: CodedInput, tag: uint32) returns (ok: bool)
      requires input.Valid()
      modifies this, input`position
      ensures input.Valid()
      ensures var field := Records.ReadValue(CSharp, tag % 8, old(input.Rest()));
              ok == field.Some? &&
              (ok ==> && Value() == ApplyPosition(old(Value()), Record(tag / 8, field.value.value))
                      && input.Rest() == old(input.Rest())[field.value.size..])
    {
      hide Records.ReadValue, ApplyPosition, LittleEndian, FromLittleEndian, Pow256;
      ghost var field := Records.ReadValue(CSharp, tag % 8, input.Rest());
      if field.Some? { PositionSwitch(Value(), tag, field.value.value); }
      match tag
      case 13 =>
        var bits;
        ok, bits := input.ReadFloat();
        if ok { SetX(bits); }
      case 21 =>
        var bits;
        ok, bits := input.ReadFloat();
        if ok { SetY(bits); }
      case 29 =>
        var bits;
        ok, bits := input.ReadFloat();
        if ok { SetZ(bits); }
      case 32 =>
        var v;
        ok, v := input.ReadInt32();
        if ok { SetIndex(v); }
      case _ =>
        var value;
        ok, value := input.ReadValue(tag % 8);
        if ok { unknownFields := unknownFields + [Record(tag / 8, value)]; }
    }

    method InternalMergeFrom(input: CodedInput) returns (ok: bool)
      requires input.Valid()
      modifies this, input`position
      ensures input.Valid()
      ensures var m := ParseInto(CSharp, PositionMessage(old(Value())), old(input.Rest()));
              ok == m.Some? && (ok ==> m == Some(PositionMessage(Value())) && input.Rest() == [])
    {
      hide ParseInto, Records.ReadTag, Records.ReadValue, ApplyPosition;
      ghost var goal := ParseInto(CSharp, PositionMessage(Value()), input.Rest());
      while true
        invariant input.Valid()
        invariant ParseInto(CSharp, PositionMessage(Value()), input.Rest()) == goal
        decreases input.limit - input.position
      {
        ghost var m, b := PositionMessage(Value()), input.Rest();
        var tag;
        ok, tag := input.ReadTag();
        if ok && tag == 0 {
          ParseNothing(CSharp, m);
          return;
        }
        if ok { ok := MergeField(input, tag); }
        if !ok {
          TurnFails(CSharp, m, b);
          return;
        }
        ghost var t := Records.ReadTag(CSharp, b).value;
        ghost var field := Records.ReadValue(CSharp, t.value % 8, b[t.size..]).value;
        Turn(CSharp, m, b, t, field, PositionMessage(Value()));
      }
    }
  }

  /** reqAddToItem: an embedded item, null while absent. */
  class CsAddToItem {
    var item_: CsItemInfo?
    var unknownFields: seq<Record>

    function Owned(): set<object>
      reads this
    {
      if item_ == null then {} else {item_}
    }

    function Value(): AddToItem
      reads this, Owned()
    {
      AddToItem(if item_ == null then None else Some(item_.Value()), unknownFields)
    }

    constructor ()
      ensures Value() == NEW_ADD_TO_ITEM
    {
      item_, unknownFields := null, [];
    }

    method InternalWriteTo(output: CodedOutput)
      requires Value().Valid()
      modifies output
      ensures output.buffer == old(output.buffer) + Write(AddToItemMessage(Value()))
    {
      ghost var b := output.buffer;
      AddToItemLayout(Value());
      if item_ != null {
        item_.WriteMessage(output);
      }
      ghost var x := LenFieldBytes(10, item_ != null, ItemBytes(Value().item.GetOr(NEW_ITEM)));
      assert output.buffer == b + x;
      output.WriteUnknown(unknownFields);
      AppendTwo(b, x, Print(unknownFields));
    }

    method CalculateSize() returns (size: nat)
      requires Value().Valid() && AddToItemMessage(Value()).Fits()
      ensures size == |Write(AddToItemMessage(Value()))|
    {
      hide Print, ItemBytes, VarintBytes, ComputeUInt32Size;
      AddToItemLayout(Value());
      size := 0;
      if item_ != null {
        var itemSize := item_.CalculateSize();
        UInt32SizeExact(itemSize);
        size := size + 1 + ComputeUInt32Size(itemSize) + itemSize;
      }
      size := size + |Print(unknownFields)|;
    }

    method MergeFrom(other: CsAddToItem)
      modifies this, Owned()
      ensures Value() == MergeAddToItem(old(Value()), old(other.Value()))
    {
      if other.item_ != null {
        var merged := other.item_.Value();
        if item_ == null {
          item_ := new CsItemInfo();
        }
        item_.MergeFrom(other.item_);
      }
      unknownFields := unknownFields + other.unknownFields;
    }

    /** Reads into the item that is there, or into a new one. */
    method ReadItem(input: CodedInput) returns (ok: bool)
      requires input.Valid()
      modifies this, Owned(), input
      ensures input.Valid() && input.limit <= old(input.limit) && fresh(Owned() - old(Owned()))
      ensures var field := Records.ReadValue(CSharp, 2, old(input.Rest()));
              var item := if field.None? then None
                          else ParseItem(CSharp, old(Value()).item.GetOr(NEW_ITEM), field.value.value.payload);
              ok == item.Some? &&
              (ok ==> && Value() == old(Value()).(item := item) && input.limit == old(input.limit)
                      && input.Rest() == old(input.Rest())[field.value.size..])
    {
      if item_ == null {
        item_ := new CsItemInfo();
      }
      ok := item_.ReadMessage(input);
    }

    method MergeField(input: CodedInput, tag: uint32) returns (ok: bool)
      requires input.Valid()
      modifies this, Owned(), input
      ensures input.Valid() && input.limit <= old(input.limit) && fresh(Owned() - old(Owned()))
      ensures var field := Records.ReadValue(CSharp, tag % 8, old(input.Rest()));
              var a := if field.None? then None
                       else ApplyAddToItem(CSharp, old(Value()), Record(tag / 8, field.value.value));
              ok == a.Some? &&
              (ok ==> && a == Some(Value()) && input.limit == old(input.limit)
                      && input.Rest() == old(input.Rest())[field.value.size..])
    {
      hide Records.ReadValue, ParseItem;
      match tag
      case 10 => ok := ReadItem(input);
      case _ =>
        var value;
        ok, value := input.ReadValue(tag % 8);
        if ok { unknownFields := unknownFields + [Record(tag / 8, value)]; }
    }

    method InternalMergeFrom(input: CodedInput) returns (ok: bool)
      requires input.Valid()
      modifies this, Owned(), input
      ensures input.Valid()
      ensures var m := ParseInto(CSharp, AddToItemMessage(old(Value())), old(input.Rest()));
              ok == m.Some? && (ok ==> m == Some(AddToItemMessage(Value())) && input.Rest() == [])
    {
      hide ParseInto, Records.ReadTag, Records.ReadValue, ApplyAddToItem;
      ghost var goal := ParseInto(CSharp, AddToItemMessage(Value()), input.Rest());
      while true
        invariant input.Valid() && fresh(Owned() - old(Owned()))
        invariant ParseInto(CSharp, AddToItemMessage(Value()), input.Rest()) == goal
        decreases |input.Rest()|
      {
        ghost var m, b := AddToItemMessage(Value()), input.Rest();
        var tag;
        ok, tag := input.ReadTag();
        if ok && tag == 0 {
          ParseNothing(CSharp, m);
          return;
        }
        if ok { ok := MergeField(input, tag); }
        if !ok {
          TurnFails(CSharp, m, b);
          return;
        }
        ghost var t := Records.ReadTag(CSharp, b).value;
        ghost var field := Records.ReadValue(CSharp, t.value % 8, b[t.size..]).value;
        Turn(CSharp, m, b, t, field, AddToItemMessage(Value()));
      }
    }
  }

  /** resInventoryItems: a list of embedded items. */
  class CsInventory {
    var items_: seq<CsItemInfo>
    var unknownFields: seq<Record>

    static function Values(items: seq<CsItemInfo>): (values: seq<ItemInfo>)
      reads items
      ensures |values| == |items|
      ensures forall i | 0 <= i < |items| :: values[i] == items[i].Value()
    {
      seq(|items|, i requires 0 <= i < |items| reads items => items[i].Value())
    }

    function Value(): Inventory
      reads this, items_
    {
      Inventory(Values(items_), unknownFields)
    }

    constructor ()
      ensures Value() == NEW_INVENTORY
    {
      items_, unknownFields := [], [];
    }

    method InternalWriteTo(output: CodedOutput)
      requires Value().Valid()
      modifies output
      ensures output.buffer == old(output.buffer) + Write(InventoryMessage(Value()))
    {
      ghost var b := output.buffer;
      WriteItems(output);
      output.WriteUnknown(unknownFields);
      AppendTwo(b, NestedBytes(Values(items_)), Print(unknownFields));
      InventoryLayout(Value());
    }

    method WriteItems(output: CodedOutput)
      requires Value().Valid()
      modifies output
      ensures output.buffer == old(output.buffer) + NestedBytes(Values(items_))
    {
      ghost var b, values := output.buffer, Value().items;
      for i := 0 to |items_|
        invariant Value().items == values
        invariant output.buffer == b + NestedBytes(values[..i])
      {
        assert values[i] in values;
        items_[i].WriteMessage(output);
        NestedBytesNext(values, i);
        AppendTwo(b, NestedBytes(values[..i]), LenFieldBytes(10, true, ItemBytes(values[i])));
      }
      assert values[..|items_|] == values;
    }

    method CalculateSize() returns (size: nat)
      requires Value().Valid() && InventoryMessage(Value()).Fits()
      ensures size == |Write(InventoryMessage(Value()))|
    {
      var itemsSize := CalculateItemsSize();
      size := itemsSize + |Print(unknownFields)|;
      InventoryLayout(Value());
    }

    method CalculateItemsSize() returns (size: nat)
      requires Value().Valid() && InventoryMessage(Value()).Fits()
      ensures size == |NestedBytes(Value().items)|
    {
      ghost var values := Value().items;
      size := 0;
      for i := 0 to |items_|
        invariant size == |NestedBytes(values[..i])|
      {
        assert values[i] in values;
        var itemSize := items_[i].CalculateSize();
        UInt32SizeExact(itemSize);
        size := size + 1 + ComputeUInt32Size(itemSize) + itemSize;
        NestedBytesNext(values, i);
      }
      assert values[..|items_|] == values;
    }

    /** The items of `other` are shared with it afterwards, not copied. */
    method MergeFrom(other: CsInventory)
      modifies this
      ensures Value() == MergeInventory(old(Value()), old(other.Value()))
      ensures items_ == old(items_) + old(other.items_)
    {
      items_ := items_ + other.items_;
      unknownFields := unknownFields + other.unknownFields;
    }

    method MergeField(input: CodedInput, tag: uint32) returns (ok: bool)
      requires input.Valid()
      modifies this, input
      ensures input.Valid() && input.limit <= old(input.limit)
      ensures var field := Records.ReadValue(CSharp, tag % 8, old(input.Rest()));
              var v := if field.None? then None
                       else ApplyInventory(CSharp, old(Value()), Record(tag / 8, field.value.value));
              ok == v.Some? &&
              (ok ==> && v == Some(Value()) && input.limit == old(input.limit)
                      && input.Rest() == old(input.Rest())[field.value.size..])
    {
      hide Records.ReadValue, ParseItem;
      match tag
      case 10 =>
        var item := new CsItemInfo();
        ok := item.ReadMessage(input);
        if ok {
          assert Values(items_ + [item]) == old(Values(items_)) + [item.Value()];
          items_ := items_ + [item];
        }
      case _ =>
        var value;
        ok, value := input.ReadValue(tag % 8);
        if ok { unknownFields := unknownFields + [Record(tag / 8, value)]; }
    }

    method InternalMergeFrom(input: CodedInput) returns (ok: bool)
      requires input.Valid()
      modifies this, input
      ensures input.Valid()
      ensures var m := ParseInto(CSharp, InventoryMessage(old(Value())), old(input.Rest()));
              ok == m.Some? && (ok ==> m == Some(InventoryMessage(Value())) && input.Rest() == [])
    {
      hide ParseInto, Records.ReadTag, Records.ReadValue, ApplyInventory;
      ghost var goal := ParseInto(CSharp, InventoryMessage(Value()), input.Rest());
      while true
        invariant input.Valid()
        invariant ParseInto(CSharp, InventoryMessage(Value()), input.Rest()) == goal
        decreases |input.Rest()|
      {
        ghost var m, b := InventoryMessage(Value()), input.Rest();
        var tag;
        ok, tag := input.ReadTag();
        if ok && tag == 0 {
          ParseNothing(CSharp, m);
          return;
        }
        if ok { ok := MergeField(input, tag); }
        if !ok {
          TurnFails(CSharp, m, b);
          return;
        }
        ghost var t := Records.ReadTag(CSharp, b).value;
        ghost var field := Records.ReadValue(CSharp, t.value % 8, b[t.size..]).value;
        Turn(CSharp, m, b, t, field, InventoryMessage(Value()));
      }
    }
  }
}
