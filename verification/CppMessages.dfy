/**
 The generated C++ messages: pointer-advancing parse loops that switch on the
 field number, a size pass that stores the size of every message in the message,
 and a serialiser that writes into a buffer and takes the length of an embedded
 message from that store.
 */
module CppMessages {
  import opened Wrappers
  import opened Wire
  import opened Records
  import opened Messages
  import opened Layouts
  import opened ParseSteps
  import opened PresenceBits

  // ------------------------------------------------------------------ sizes

  /** The size of a varint field with a one-byte tag, in one go. */
  function VarintSizePlusOne(v: nat): nat {
    (Log2Floor(OrOne(v)) * 9 + 73 + 64) / 64
  }

  function LengthDelimitedSize(length: nat): nat {
    length + VarintSize(length)
  }

  lemma SizesExact(v: uint64)
    ensures VarintSizePlusOne(v) == 1 + |VarintBytes(v)|
    ensures VarintSize(v) == |VarintBytes(v)|
  {
    VarintSizeExact(v);
  }

  // ---------------------------------------------------------- buffer writers

  /** Writes bytes at a position of the target and returns the position behind them. */
  method WriteRaw(target: array<byte>, at: nat, s: bytes) returns (end: nat)
    requires at + |s| <= target.Length
    modifies target
    ensures end == at + |s|
    ensures target[..end] == old(target[..at]) + s
  {
    for i := 0 to |s|
      invariant target[..at + i] == old(target[..at]) + s[..i]
    {
      target[at + i] := s[i];
    }
    assert s[..|s|] == s;
    end := at + |s|;
  }

  /** Writes a varint in place, seven bits at a time. */
  method WriteVarintToArray(target: array<byte>, at: nat, n: nat) returns (end: nat)
    requires at + |VarintBytes(n)| <= target.Length
    modifies target
    ensures end == at + |VarintBytes(n)|
    ensures target[..end] == old(target[..at]) + VarintBytes(n)
  {
    var rest := n;
    end := at;
    while rest >= 128
      invariant at <= end && end + |VarintBytes(rest)| == at + |VarintBytes(n)|
      invariant target[..end] + VarintBytes(rest) == old(target[..at]) + VarintBytes(n)
    {
      assert VarintBytes(rest) == [128 + rest % 128] + VarintBytes(rest / 128);
      ghost var before := target[..end];
      target[end] := 128 + rest % 128;
      assert target[..end + 1] == before + [128 + rest % 128];
      end := end + 1;
      rest := rest / 128;
    }
    ghost var before := target[..end];
    target[end] := rest;
    end := end + 1;
    assert target[..end] == before + [rest];
  }

  method WriteVarintField(target: array<byte>, at: nat, tag: byte, n: nat) returns (end: nat)
    requires at + 1 + |VarintBytes(n)| <= target.Length
    modifies target
    ensures end == at + 1 + |VarintBytes(n)|
    ensures target[..end] == old(target[..at]) + VarintFieldBytes(tag, true, n)
  {
    end := WriteRaw(target, at, [tag]);
    end := WriteVarintToArray(target, end, n);
    AppendTwo(old(target[..at]), [tag], VarintBytes(n));
  }

  method WriteBytesField(target: array<byte>, at: nat, tag: byte, s: bytes) returns (end: nat)
    requires at + 1 + |ValueBytes(LEN(s))| <= target.Length
    modifies target
    ensures end == at + 1 + |ValueBytes(LEN(s))|
    ensures target[..end] == old(target[..at]) + LenFieldBytes(tag, true, s)
  {
    end := WriteVarintField(target, at, tag, |s|);
    end := WriteRaw(target, end, s);
    AppendTwo(old(target[..at]), [tag] + VarintBytes(|s|), s);
    AppendTwo([tag], VarintBytes(|s|), s);
  }

  /** A varint field behind its presence check. */
  method WriteOptionalVarint(target: array<byte>, at: nat, tag: byte, present: bool, n: nat) returns (end: nat)
    requires at + |VarintFieldBytes(tag, present, n)| <= target.Length
    modifies target
    ensures end == at + |VarintFieldBytes(tag, present, n)|
    ensures target[..end] == old(target[..at]) + VarintFieldBytes(tag, present, n)
  {
    hide VarintBytes;
    end := at;
    if present { end := WriteVarintField(target, at, tag, n); }
  }

  /** A string or bytes field behind its presence check. */
  method WriteOptionalBytes(target: array<byte>, at: nat, tag: byte, present: bool, s: bytes) returns (end: nat)
    requires at + |LenFieldBytes(tag, present, s)| <= target.Length
    modifies target
    ensures end == at + |LenFieldBytes(tag, present, s)|
    ensures target[..end] == old(target[..at]) + LenFieldBytes(tag, present, s)
  {
    hide ValueBytes;
    end := at;
    if present { end := WriteBytesField(target, at, tag, s); }
  }

  /** The fields of messageHeader and of itemInfo, which are laid out alike, and the unknown ones behind them. */
  method WriteFields(target: array<byte>, at: nat, p1: bool, n1: nat, p2: bool, s2: bytes, p3: bool, s3: bytes,
                     p4: bool, n4: nat, unknown: bytes) returns (end: nat)
    requires at + |FieldsBytes(p1, n1, p2, s2, p3, s3, p4, n4) + unknown| <= target.Length
    modifies target
    ensures end == at + |FieldsBytes(p1, n1, p2, s2, p3, s3, p4, n4) + unknown|
    ensures target[..end] == old(target[..at]) + (FieldsBytes(p1, n1, p2, s2, p3, s3, p4, n4) + unknown)
  {
    hide VarintFieldBytes, LenFieldBytes;
    ghost var b := target[..at];
    end := WriteOptionalVarint(target, at, 8, p1, n1);
    end := WriteOptionalBytes(target, end, 18, p2, s2);
    end := WriteOptionalBytes(target, end, 26, p3, s3);
    end := WriteOptionalVarint(target, end, 32, p4, n4);
    end := WriteRaw(target, end, unknown);
    AppendFive(b, VarintFieldBytes(8, p1, n1), LenFieldBytes(18, p2, s2), LenFieldBytes(26, p3, s3),
               VarintFieldBytes(32, p4, n4), unknown);
  }

  function FieldsBytes(p1: bool, n1: nat, p2: bool, s2: bytes, p3: bool, s3: bytes, p4: bool, n4: nat): bytes {
    VarintFieldBytes(8, p1, n1) + LenFieldBytes(18, p2, s2) + LenFieldBytes(26, p3, s3) + VarintFieldBytes(32, p4, n4)
  }

  /** The value of a field that is absent does not matter. */
  lemma AbsentVarint(tag: byte, present: bool, n: nat, m: nat)
    requires present ==> n == m
    ensures VarintFieldBytes(tag, present, n) == VarintFieldBytes(tag, present, m)
  {}

  lemma AbsentBytes(tag: byte, present: bool, s: bytes, t: bytes)
    requires present ==> s == t
    ensures LenFieldBytes(tag, present, s) == LenFieldBytes(tag, present, t)
  {}

  // --------------------------------------------------------- messageHeader

  class CppHeader {
    var hasBits_: bv32
    var cachedSize_: nat
    var type_: bytes
    var arr_: bytes
    var userid_: uint32
    var arrsize_: uint32
    var unknownFields: seq<Record>

    /** The fields with the given presence bits. */
    function Fields(bits: bv32): Header
      reads this
    {
      Header(
        if Has(bits, 4) then Some(userid_) else None, if Has(bits, 1) then Some(type_) else None,
        if Has(bits, 2) then Some(arr_) else None, if Has(bits, 8) then Some(arrsize_) else None, unknownFields)
    }

    function Value(): Header
      reads this
    {
      Fields(hasBits_)
    }

    /** An absent field holds its default, so the accessors need not look at the bits. */
    ghost predicate DefaultsWhereAbsent(bits: bv32)
      reads this
    {
      && (!Has(bits, 4) ==> userid_ == 0)
      && (!Has(bits, 1) ==> type_ == [])
      && (!Has(bits, 2) ==> arr_ == [])
      && (!Has(bits, 8) ==> arrsize_ == 0)
    }

    ghost predicate Valid()
      reads this
    {
      DefaultsWhereAbsent(hasBits_)
    }

    constructor ()
      ensures Valid() && Value() == NEW_HEADER
    {
      hasBits_, cachedSize_, type_, arr_, userid_, arrsize_, unknownFields := 0, 0, [], [], 0, 0, [];
      NoBits();
    }

    function Userid(): (v: uint32)
      requires Valid()
      reads this
      ensures v == Value().userId.GetOr(0)
    {
      userid_
    }

    function Type(): (s: bytes)
      requires Valid()
      reads this
      ensures s == Value().typeName.GetOr([])
    {
      type_
    }

    function Arr(): (s: bytes)
      requires Valid()
      reads this
      ensures s == Value().arr.GetOr([])
    {
      arr_
    }

    function Arrsize(): (v: uint32)
      requires Valid()
      reads this
      ensures v == Value().arrSize.GetOr(0)
    {
      arrsize_
    }

    method SetUserid(v: uint32)
      requires Valid()
      modifies this
      ensures Valid() && Value() == old(Value()).(userId := Some(v))
    {
      hide Has, With, Without, HasAny;
      BitSet(hasBits_, 4);
      hasBits_ := With(hasBits_, 4);
      userid_ := v;
    }

    method ClearUserid()
      requires Valid()
      modifies this
      ensures Valid() && Value() == old(Value()).(userId := None)
    {
      hide Has, With, Without, HasAny;
      BitCleared(hasBits_, 4);
      userid_ := 0;
      hasBits_ := Without(hasBits_, 4);
    }

    method SetType(s: bytes)
      requires Valid()
      modifies this
      ensures Valid() && Value() == old(Value()).(typeName := Some(s))
    {
      hide Has, With, Without, HasAny;
      BitSet(hasBits_, 1);
      hasBits_ := With(hasBits_, 1);
      type_ := s;
    }

    method ClearType()
      requires Valid()
      modifies this
      ensures Valid() && Value() == old(Value()).(typeName := None)
    {
      hide Has, With, Without, HasAny;
      BitCleared(hasBits_, 1);
      type_ := [];
      hasBits_ := Without(hasBits_, 1);
    }

    method SetArr(s: bytes)
      requires Valid()
      modifies this
      ensures Valid() && Value() == old(Value()).(arr := Some(s))
    {
      hide Has, With, Without, HasAny;
      BitSet(hasBits_, 2);
      hasBits_ := With(hasBits_, 2);
      arr_ := s;
    }

    method ClearArr()
      requires Valid()
      modifies this
      ensures Valid() && Value() == old(Value()).(arr := None)
    {
      hide Has, With, Without, HasAny;
      BitCleared(hasBits_, 2);
      arr_ := [];
      hasBits_ := Without(hasBits_, 2);
    }

    method SetArrsize(v: uint32)
      requires Valid()
      modifies this
      ensures Valid() && Value() == old(Value()).(arrSize := Some(v))
    {
      hide Has, With, Without, HasAny;
      BitSet(hasBits_, 8);
      hasBits_ := With(hasBits_, 8);
      arrsize_ := v;
    }

    method ClearArrsize()
      requires Valid()
      modifies this
      ensures Valid() && Value() == old(Value()).(arrSize := None)
    {
      hide Has, With, Without, HasAny;
      BitCleared(hasBits_, 8);
      arrsize_ := 0;
      hasBits_ := Without(hasBits_, 8);
    }

    // The parse loop records the presence of the numbers in a local `bits` and that
    // of the strings in the message itself; the two are joined when the loop ends.

    method ParseNumber(buf: bytes, ptr: nat, limit: nat, number: nat, bits: bv32)
      returns (ok: bool, next: nat, bits': bv32)
      requires ptr <= limit <= |buf| && (number == 1 || number == 4) && DefaultsWhereAbsent(With(hasBits_, bits))
      modifies this
      ensures DefaultsWhereAbsent(With(hasBits_, bits'))
      ensures var field := ReadValue(Cpp, 0, buf[ptr..limit]);
              ok == field.Some? &&
              (ok ==> && Fields(With(hasBits_, bits')) ==
                         ApplyHeader(old(Fields(With(hasBits_, bits))), Record(number, field.value.value))
                      && next == ptr + field.value.size)
    {
      hide Has, With, Without, HasAny;
      BitsJoined(hasBits_, bits);
      var field := ReadValue(Cpp, 0, buf[ptr..limit]);
      if field.None? { return false, ptr, bits; }
      next := ptr + field.value.size;
      if number == 1 {
        BitSet(bits, 4);
        bits' := With(bits, 4);
        userid_ := field.value.value.v % TWO_32;
      } else {
        BitSet(bits, 8);
        bits' := With(bits, 8);
        arrsize_ := field.value.value.v % TWO_32;
      }
      BitsJoined(hasBits_, bits');
      return true, next, bits';
    }

    method ParseString(buf: bytes, ptr: nat, limit: nat, number: nat, ghost bits: bv32) returns (ok: bool, next: nat)
      requires ptr <= limit <= |buf| && (number == 2 || number == 3) && DefaultsWhereAbsent(With(hasBits_, bits))
      modifies this
      ensures DefaultsWhereAbsent(With(hasBits_, bits))
      ensures var field := ReadValue(Cpp, 2, buf[ptr..limit]);
              ok == field.Some? &&
              (ok ==> && Fields(With(hasBits_, bits)) ==
                         ApplyHeader(old(Fields(With(hasBits_, bits))), Record(number, field.value.value))
                      && next == ptr + field.value.size)
    {
      hide Has, With, Without, HasAny;
      BitsJoined(hasBits_, bits);
      BitSet(hasBits_, if number == 2 then 1 else 2);
      var field := ReadValue(Cpp, 2, buf[ptr..limit]);
      if field.None? { return false, ptr; }
      next := ptr + field.value.size;
      if number == 2 {
        hasBits_ := With(hasBits_, 1);
        type_ := field.value.value.payload;
      } else {
        hasBits_ := With(hasBits_, 2);
        arr_ := field.value.value.payload;
      }
      BitsJoined(hasBits_, bits);
      return true, next;
    }

    /** A zero or end-group tag stops the parse, which the caller rejects; the rest is kept as unknown. */
    method ParseUnusual(buf: bytes, ptr: nat, limit: nat, tag: uint32) returns (ok: bool, next: nat)
      requires ptr <= limit <= |buf|
      modifies this`unknownFields
      ensures var field := if tag / 8 == 0 then None else ReadValue(Cpp, tag % 8, buf[ptr..limit]);
              ok == field.Some? &&
              (ok ==> && unknownFields == old(unknownFields) + [Record(tag / 8, field.value.value)]
                      && next == ptr + field.value.size)
    {
      if tag == 0 || tag % 8 == 4 || tag / 8 == 0 { return false, ptr; }
      var field := ReadValue(Cpp, tag % 8, buf[ptr..limit]);
      if field.None? { return false, ptr; }
      unknownFields := unknownFields + [Record(tag / 8, field.value.value)];
      return true, ptr + field.value.size;
    }

    /** The switch of the parse loop: on the field number, with a check of the low byte of the tag. */
    method ParseField(buf: bytes, ptr: nat, limit: nat, tag: uint32, bits: bv32)
      returns (ok: bool, next: nat, bits': bv32)
      requires ptr <= limit <= |buf| && DefaultsWhereAbsent(With(hasBits_, bits))
      modifies this
      ensures DefaultsWhereAbsent(With(hasBits_, bits'))
      ensures var field := if tag / 8 == 0 then None else ReadValue(Cpp, tag % 8, buf[ptr..limit]);
              ok == field.Some? &&
              (ok ==> && Fields(With(hasBits_, bits')) ==
                         ApplyHeader(old(Fields(With(hasBits_, bits))), Record(tag / 8, field.value.value))
                      && next == ptr + field.value.size)
    {
      hide Has, With, Without, HasAny, ReadValue, ApplyHeader;
      LowByteDispatch(tag, 8);
      LowByteDispatch(tag, 18);
      LowByteDispatch(tag, 26);
      LowByteDispatch(tag, 32);
      var number, low := tag / 8, tag % 256;
      if (number == 1 && low == 8) || (number == 4 && low == 32) {
        ok, next, bits' := ParseNumber(buf, ptr, limit, number, bits);
      } else if (number == 2 && low == 18) || (number == 3 && low == 26) {
        ok, next := ParseString(buf, ptr, limit, number, bits);
        bits' := bits;
      } else {
        ghost var field := ReadValue(Cpp, tag % 8, buf[ptr..limit]);
        if field.Some? { HeaderSwitch(Fields(With(hasBits_, bits)), tag, field.value.value); }
        ok, next := ParseUnusual(buf, ptr, limit, tag);
        bits' := bits;
      }
    }

    method InternalParse(buf: bytes, start: nat, limit: nat) returns (ok: bool, ptr: nat)
      requires start <= limit <= |buf| && Valid()
      modifies this
      ensures Valid()
      ensures var m := ParseInto(Cpp, HeaderMessage(old(Value())), buf[start..limit]);
              ok == m.Some? && (ok ==> m == Some(HeaderMessage(Value())) && ptr == limit)
    {
      hide ParseInto, Has, With, Without, HasAny;
      var bits: bv32 := 0;
      NoBits();
      BitsJoined(hasBits_, bits);
      ok, ptr := true, start;
      while ok && ptr < limit
        invariant start <= ptr <= limit
        invariant DefaultsWhereAbsent(With(hasBits_, bits))
        invariant ParseInto(Cpp, HeaderMessage(old(Value())), buf[start..limit]) ==
                  if ok then ParseInto(Cpp, HeaderMessage(Fields(With(hasBits_, bits))), buf[ptr..limit]) else None
        decreases ok, limit - ptr
      {
        ok, ptr, bits := ParseRecord(buf, ptr, limit, bits);
      }
      hasBits_ := With(hasBits_, bits);
      if ok { assert buf[ptr..limit] == []; }
      ParseNothing(Cpp, HeaderMessage(Value()));
    }

    /** One turn of the parse loop: a tag and its field. */
    method ParseRecord(buf: bytes, ptr: nat, limit: nat, bits: bv32) returns (ok: bool, next: nat, bits': bv32)
      requires ptr < limit <= |buf| && DefaultsWhereAbsent(With(hasBits_, bits))
      modifies this
      ensures DefaultsWhereAbsent(With(hasBits_, bits')) && ptr <= next <= limit && (ok ==> ptr < next)
      ensures ParseInto(Cpp, HeaderMessage(old(Fields(With(hasBits_, bits)))), buf[ptr..limit]) ==
              if ok then ParseInto(Cpp, HeaderMessage(Fields(With(hasBits_, bits'))), buf[next..limit]) else None
    {
      hide ParseInto, Has, With, Without, HasAny, ReadTag, ReadValue, ApplyHeader;
      ghost var m := HeaderMessage(Fields(With(hasBits_, bits)));
      var tag := ReadTag(Cpp, buf[ptr..limit]);
      if tag.None? {
        TurnFails(Cpp, m, buf[ptr..limit]);
        return false, ptr, bits;
      }
      ok, next, bits' := ParseField(buf, ptr + tag.value.size, limit, tag.value.value, bits);
      ghost var m' := HeaderMessage(Fields(With(hasBits_, bits')));
      BufferTurn(Cpp, m, buf, ptr, limit, if ok then Some(m') else None);
      if !ok { next := ptr; }
    }

    method MergeImpl(from: CppHeader)
      requires from != this && Valid() && from.Valid()
      modifies this
      ensures Valid() && Value() == MergeHeader(old(Value()), from.Value())
    {
      hide Has, With, Without, HasAny;
      ghost var theirs := from.Value();
      var cachedHasBits := from.hasBits_;
      AnyBit(cachedHasBits);
      if HasAny(cachedHasBits) {
        if Has(cachedHasBits, 1) { SetType(from.type_); }
        if Has(cachedHasBits, 2) { SetArr(from.arr_); }
        assert Value() == old(Value()).(typeName := Over(old(Value()).typeName, theirs.typeName),
                                      arr := Over(old(Value()).arr, theirs.arr));
        if Has(cachedHasBits, 4) { userid_ := from.userid_; }
        if Has(cachedHasBits, 8) { arrsize_ := from.arrsize_; }
        BitsJoined(hasBits_, cachedHasBits);
        hasBits_ := With(hasBits_, cachedHasBits);
      }
      unknownFields := unknownFields + from.unknownFields;
    }

    method ByteSizeLong() returns (totalSize: nat)
      requires Value().Valid()
      modifies this`cachedSize_
      ensures totalSize == |Write(HeaderMessage(Value()))| && cachedSize_ == totalSize
    {
      hide Has, With, Without, HasAny, VarintBytes, VarintSize, VarintSizePlusOne, Print;
      AnyBit(hasBits_);
      ghost var f := Value();
      HeaderLayout(f);
      ghost var x := |VarintFieldBytes(8, f.userId.Some?, f.userId.GetOr(0))|;
      ghost var y := |LenFieldBytes(18, f.typeName.Some?, f.typeName.GetOr([]))|;
      ghost var z := |LenFieldBytes(26, f.arr.Some?, f.arr.GetOr([]))|;
      ghost var w := |VarintFieldBytes(32, f.arrSize.Some?, f.arrSize.GetOr(0))|;
      totalSize := 0;
      if HasAny(hasBits_) {
        if Has(hasBits_, 1) {
          SizesExact(|type_|);
          totalSize := totalSize + 1 + LengthDelimitedSize(|type_|);
        }
        assert totalSize == y;
        if Has(hasBits_, 2) {
          SizesExact(|arr_|);
          totalSize := totalSize + 1 + LengthDelimitedSize(|arr_|);
        }
        assert totalSize == y + z;
        if Has(hasBits_, 4) {
          SizesExact(userid_);
          totalSize := totalSize + VarintSizePlusOne(userid_);
        }
        assert totalSize == y + z + x;
        if Has(hasBits_, 8) {
          SizesExact(arrsize_);
          totalSize := totalSize + VarintSizePlusOne(arrsize_);
        }
      }
      assert totalSize == y + z + x + w;
      totalSize := totalSize + |Print(unknownFields)|;
      cachedSize_ := totalSize;
    }

    method InternalSerialize(target: array<byte>, at: nat) returns (end: nat)
      requires at + |Write(HeaderMessage(Value()))| <= target.Length
      modifies target
      ensures end == at + |Write(HeaderMessage(Value()))|
      ensures target[..end] == old(target[..at]) + Write(HeaderMessage(Value()))
    {
      hide Has, Write, FieldsBytes;
      WrittenFields();
      end := WriteFields(target, at, Has(hasBits_, 4), userid_, Has(hasBits_, 1), type_, Has(hasBits_, 2), arr_,
                         Has(hasBits_, 8), arrsize_, Print(unknownFields));
    }

    lemma WrittenFields()
      ensures Write(HeaderMessage(Value())) ==
              FieldsBytes(Has(hasBits_, 4), userid_, Has(hasBits_, 1), type_, Has(hasBits_, 2), arr_,
                          Has(hasBits_, 8), arrsize_) + Print(unknownFields)
    {
      hide Has, Write, Print, VarintFieldBytes, LenFieldBytes;
      var f := Value();
      HeaderLayout(f);
      AbsentVarint(8, Has(hasBits_, 4), userid_, f.userId.GetOr(0));
      AbsentBytes(18, Has(hasBits_, 1), type_, f.typeName.GetOr([]));
      AbsentBytes(26, Has(hasBits_, 2), arr_, f.arr.GetOr([]));
      AbsentVarint(32, Has(hasBits_, 8), arrsize_, f.arrSize.GetOr(0));
    }
  }

  // -------------------------------------------------------------- itemInfo

  class CppItemInfo {
    var cachedSize_: nat
    var itemid_: int32
    var itemname_: bytes
    var itemdesc_: bytes
    var count_: uint32
    var unknownFields: seq<Record>

    function Value(): ItemInfo
      reads this
    {
      ItemInfo(itemid_, itemname_, itemdesc_, count_, unknownFields)
    }

    /** The size pass has run since the last change. */
    predicate CacheIsFresh()
      reads this
    {
      cachedSize_ == |ItemBytes(Value())|
    }

    constructor ()
      ensures Value() == NEW_ITEM
    {
      cachedSize_, itemid_, itemname_, itemdesc_, count_, unknownFields := 0, 0, [], [], 0, [];
    }

    method ParseField(buf: bytes, ptr: nat, limit: nat, tag: uint32) returns (ok: bool, next: nat)
      requires ptr <= limit <= |buf|
      modifies this
      ensures var field := if tag / 8 == 0 then None else ReadValue(Cpp, tag % 8, buf[ptr..limit]);
              ok == field.Some? &&
              (ok ==> && Value() == ApplyItem(old(Value()), Record(tag / 8, field.value.value))
                      && next == ptr + field.value.size)
    {
      hide ReadValue, ApplyItem;
      LowByteDispatch(tag, 8);
      LowByteDispatch(tag, 18);
      LowByteDispatch(tag, 26);
      LowByteDispatch(tag, 32);
      var number, low := tag / 8, tag % 256;
      if tag == 0 || tag % 8 == 4 || number == 0 { return false, ptr; }
      var field := ReadValue(Cpp, tag % 8, buf[ptr..limit]);
      if field.None? { return false, ptr; }
      ItemSwitch(Value(), tag, field.value.value);
      next := ptr + field.value.size;
      if number == 1 && low == 8 {
        itemid_ := ToInt32(field.value.value.v);
      } else if number == 2 && low == 18 {
        itemname_ := field.value.value.payload;
      } else if number == 3 && low == 26 {
        itemdesc_ := field.value.value.payload;
      } else if number == 4 && low == 32 {
        count_ := field.value.value.v % TWO_32;
      } else {
        unknownFields := unknownFields + [Record(number, field.value.value)];
      }
      return true, next;
    }

    method ParseRecord(buf: bytes, ptr: nat, limit: nat) returns (ok: bool, next: nat)
      requires ptr < limit <= |buf|
      modifies this
      ensures ptr <= next <= limit && (ok ==> ptr < next)
      ensures ParseInto(Cpp, ItemMessage(old(Value())), buf[ptr..limit]) ==
              if ok then ParseInto(Cpp, ItemMessage(Value()), buf[next..limit]) else None
    {
      hide ParseInto, ReadTag, ReadValue, ApplyItem;
      ghost var m := ItemMessage(Value());
      var tag := ReadTag(Cpp, buf[ptr..limit]);
      if tag.None? {
        TurnFails(Cpp, m, buf[ptr..limit]);
        return false, ptr;
      }
      ok, next := ParseField(buf, ptr + tag.value.size, limit, tag.value.value);
      BufferTurn(Cpp, m, buf, ptr, limit, if ok then Some(ItemMessage(Value())) else None);
      if !ok { next := ptr; }
    }

    method InternalParse(buf: bytes, start: nat, limit: nat) returns (ok: bool, ptr: nat)
      requires start <= limit <= |buf|
      modifies this
      ensures var m := ParseInto(Cpp, ItemMessage(old(Value())), buf[start..limit]);
              ok == m.Some? && (ok ==> m == Some(ItemMessage(Value())) && ptr == limit)
    {
      hide ParseInto;
      ok, ptr := true, start;
      while ok && ptr < limit
        invariant start <= ptr <= limit
        invariant ParseInto(Cpp, ItemMessage(old(Value())), buf[start..limit]) ==
                  if ok then ParseInto(Cpp, ItemMessage(Value()), buf[ptr..limit]) else None
        decreases ok, limit - ptr
      {
        ok, ptr := ParseRecord(buf, ptr, limit);
      }
      if ok { assert buf[ptr..limit] == []; }
      ParseNothing(Cpp, ItemMessage(Value()));
    }

    /** Reads the length-delimited embedded message into this item. */
    method ParseMessage(buf: bytes, ptr: nat, limit: nat) returns (ok: bool, next: nat)
      requires ptr <= limit <= |buf|
      modifies this
      ensures var field := ReadValue(Cpp, 2, buf[ptr..limit]);
              var item := if field.None? then None else ParseItem(Cpp, old(Value()), field.value.value.payload);
              ok == item.Some? && (ok ==> item == Some(Value()) && next == ptr + field.value.size)
    {
      hide ParseInto, ParseItem, ReadValue, ReadLength;
      PayloadSlice(Cpp, buf, ptr, limit);
      var size := ReadLength(Cpp, buf[ptr..limit]);
      if size.None? { return false, ptr; }
      var start := ptr + size.value.size;
      ParseItemAsMessage(Cpp, Value(), buf[start..start + size.value.value]);
      ok, next := InternalParse(buf, start, start + size.value.value);
    }

    method MergeFrom(from: CppItemInfo)
      requires from != this
      modifies this
      ensures Value() == MergeItem(old(Value()), from.Value())
    {
      if |from.itemname_| != 0 { itemname_ := from.itemname_; }
      if |from.itemdesc_| != 0 { itemdesc_ := from.itemdesc_; }
      if from.itemid_ != 0 { itemid_ := from.itemid_; }
      if from.count_ != 0 { count_ := from.count_; }
      unknownFields := unknownFields + from.unknownFields;
    }

    method ByteSizeLong() returns (totalSize: nat)
      requires Value().Valid()
      modifies this`cachedSize_
      ensures totalSize == |ItemBytes(Value())| && CacheIsFresh() && Value() == old(Value())
    {
      hide VarintBytes, VarintSize, VarintSizePlusOne, Print;
      ghost var f := Value();
      ItemLayout(f);
      ghost var x := |VarintFieldBytes(8, f.itemid != 0, SignExtend(f.itemid))|;
      ghost var y := |LenFieldBytes(18, f.itemName != [], f.itemName)|;
      ghost var z := |LenFieldBytes(26, f.itemDesc != [], f.itemDesc)|;
      ghost var w := |VarintFieldBytes(32, f.count != 0, f.count)|;
      totalSize := 0;
      if |itemname_| != 0 {
        SizesExact(|itemname_|);
        totalSize := totalSize + 1 + LengthDelimitedSize(|itemname_|);
      }
      assert totalSize == y;
      if |itemdesc_| != 0 {
        SizesExact(|itemdesc_|);
        totalSize := totalSize + 1 + LengthDelimitedSize(|itemdesc_|);
      }
      assert totalSize == y + z;
      if itemid_ != 0 {
        SizesExact(SignExtend(itemid_));
        totalSize := totalSize + VarintSizePlusOne(SignExtend(itemid_));
      }
      assert totalSize == y + z + x;
      if count_ != 0 {
        SizesExact(count_);
        totalSize := totalSize + VarintSizePlusOne(count_);
      }
      assert totalSize == y + z + x + w;
      totalSize := totalSize + |Print(unknownFields)|;
      cachedSize_ := totalSize;
    }

    method InternalSerialize(target: array<byte>, at: nat) returns (end: nat)
      requires at + |ItemBytes(Value())| <= target.Length
      modifies target
      ensures end == at + |ItemBytes(Value())|
      ensures target[..end] == old(target[..at]) + ItemBytes(Value())
    {
      hide ItemBytes, VarintFieldBytes, LenFieldBytes;
      ItemLayout(Value());
      assert (|itemname_| != 0) == (itemname_ != []) && (|itemdesc_| != 0) == (itemdesc_ != []);
      end := WriteFields(target, at, itemid_ != 0, SignExtend(itemid_), |itemname_| != 0, itemname_,
                         |itemdesc_| != 0, itemdesc_, count_ != 0, count_, Print(unknownFields));
    }

    /** Writes this item as an embedded message; its length prefix is whatever the cache holds. */
    method InternalWriteMessage(target: array<byte>, at: nat) returns (end: nat)
      requires at + |EmbeddedBytes(Value(), cachedSize_)| <= target.Length
      modifies target
      ensures end == at + |EmbeddedBytes(Value(), cachedSize_)|
      ensures target[..end] == old(target[..at]) + EmbeddedBytes(Value(), cachedSize_)
    {
      end := WriteVarintField(target, at, 10, cachedSize_);
      end := InternalSerialize(target, end);
      AppendTwo(old(target[..at]), [10] + VarintBytes(cachedSize_), ItemBytes(Value()));
    }
  }

  // ------------------------------------------------- stored sizes, fresh or stale

  /** An embedded item behind a given length prefix. */
  function EmbeddedBytes(i: ItemInfo, size: nat): bytes {
    [10] + VarintBytes(size) + ItemBytes(i)
  }

  /** Embedded items behind the length prefixes their caches hold. */
  function EmbeddedAll(items: seq<ItemInfo>, sizes: seq<nat>): bytes
    requires |sizes| == |items|
  {
    if items == [] then [] else EmbeddedBytes(items[0], sizes[0]) + EmbeddedAll(items[1..], sizes[1..])
  }

  lemma {:induction false} EmbeddedAllNext(items: seq<ItemInfo>, sizes: seq<nat>, i: nat)
    requires i < |items| == |sizes|
    ensures EmbeddedAll(items[..i + 1], sizes[..i + 1]) ==
            EmbeddedAll(items[..i], sizes[..i]) + EmbeddedBytes(items[i], sizes[i])
  {
    if i == 0 {
      assert EmbeddedAll(items[..1][1..], sizes[..1][1..]) == [];
    } else {
      assert items[..i + 1][1..] == items[1..][..i] && sizes[..i + 1][1..] == sizes[1..][..i];
      assert items[..i][1..] == items[1..][..i - 1] && sizes[..i][1..] == sizes[1..][..i - 1];
      EmbeddedAllNext(items[1..], sizes[1..], i - 1);
      AppendTwo(EmbeddedBytes(items[0], sizes[0]), EmbeddedAll(items[..i][1..], sizes[..i][1..]),
                EmbeddedBytes(items[i], sizes[i]));
    }
  }

  /** Varints are prefix-free. */
  lemma VarintPrefixFree(m: nat, n: nat, x: bytes, y: bytes)
    requires VarintBytes(m) + x == VarintBytes(n) + y
    ensures m == n && x == y
  {
    var limit := |VarintBytes(m)| + |VarintBytes(n)|;
    ReadVarintBytes(m, x, limit);
    ReadVarintBytes(n, y, limit);
    assert (VarintBytes(m) + x)[|VarintBytes(m)|..] == x;
    assert (VarintBytes(n) + y)[|VarintBytes(n)|..] == y;
  }

  lemma StoredSizeOfFirst(size: nat, body: bytes, rest: bytes, rest': bytes)
    ensures [10] + VarintBytes(size) + body + rest == [10] + VarintBytes(|body|) + body + rest' <==>
            size == |body| && rest == rest'
  {
    hide VarintBytes;
    var x, y := [10] + VarintBytes(size) + body + rest, [10] + VarintBytes(|body|) + body + rest';
    if x == y {
      assert x[1..] == VarintBytes(size) + (body + rest);
      assert y[1..] == VarintBytes(|body|) + (body + rest');
      VarintPrefixFree(size, |body|, body + rest, body + rest');
      assert (body + rest)[|body|..] == rest && (body + rest')[|body|..] == rest';
    }
  }

  /** The serialised items are the written items exactly when every stored size is the size of its item. */
  lemma {:induction false} StoredSizesExact(items: seq<ItemInfo>, sizes: seq<nat>)
    requires |sizes| == |items|
    ensures EmbeddedAll(items, sizes) == NestedBytes(items) <==>
            (forall i | 0 <= i < |items| :: sizes[i] == |ItemBytes(items[i])|)
  {
    hide ItemBytes, LenFieldBytes;
    if items != [] {
      EmbeddedBytesFresh(items[0]);
      StoredSizeOfFirst(sizes[0], ItemBytes(items[0]), EmbeddedAll(items[1..], sizes[1..]), NestedBytes(items[1..]));
      hide EmbeddedBytes;
      StoredSizesExact(items[1..], sizes[1..]);
      assert forall i | 0 < i < |items| :: sizes[i] == sizes[1..][i - 1] && items[i] == items[1..][i - 1];
    }
  }

  lemma EmbeddedBytesFresh(i: ItemInfo)
    ensures EmbeddedBytes(i, |ItemBytes(i)|) == LenFieldBytes(10, true, ItemBytes(i))
  {
    AppendTwo([10], VarintBytes(|ItemBytes(i)|), ItemBytes(i));
  }

  // --------------------------------------------------------- reqAddToItem

  class CppAddToItem {
    var cachedSize_: nat
    var item_: CppItemInfo?
    var unknownFields: seq<Record>

    function Owned(): set<object>
      reads this
    {
      if item_ == null then {} else {item_}
    }

    function Value(): AddToItem
      reads this, Owned()
    {
      AddToItem(if item_ == null then None else Some(item_.Value()), unknownFields)
    }

    /** What the serialiser writes with the sizes the caches hold now. */
    function Serialized(): bytes
      reads this, Owned()
    {
      (if item_ == null then [] else EmbeddedBytes(item_.Value(), item_.cachedSize_)) + Print(unknownFields)
    }

    constructor ()
      ensures Value() == NEW_ADD_TO_ITEM
    {
      cachedSize_, item_, unknownFields := 0, null, [];
    }

    method ParseField(buf: bytes, ptr: nat, limit: nat, tag: uint32) returns (ok: bool, next: nat)
      requires ptr <= limit <= |buf|
      modifies this, Owned()
      ensures fresh(Owned() - old(Owned()))
      ensures var field := if tag / 8 == 0 then None else ReadValue(Cpp, tag % 8, buf[ptr..limit]);
              var a := if field.None? then None
                       else ApplyAddToItem(Cpp, old(Value()), Record(tag / 8, field.value.value));
              ok == a.Some? && (ok ==> a == Some(Value()) && next == ptr + field.value.size)
    {
      LowByteDispatch(tag, 10);
      if tag / 8 == 1 && tag % 256 == 10 {
        ok, next := ParseItemField(buf, ptr, limit);
        return;
      }
      if tag == 0 || tag % 8 == 4 || tag / 8 == 0 { return false, ptr; }
      var field := ReadValue(Cpp, tag % 8, buf[ptr..limit]);
      if field.None? { return false, ptr; }
      unknownFields := unknownFields + [Record(tag / 8, field.value.value)];
      return true, ptr + field.value.size;
    }

    /** Parses into the item that is there, or into a new one. */
    method ParseItemField(buf: bytes, ptr: nat, limit: nat) returns (ok: bool, next: nat)
      requires ptr <= limit <= |buf|
      modifies this, Owned()
      ensures fresh(Owned() - old(Owned()))
      ensures var field := ReadValue(Cpp, 2, buf[ptr..limit]);
              var item := if field.None? then None
                          else ParseItem(Cpp, old(Value()).item.GetOr(NEW_ITEM), field.value.value.payload);
              ok == item.Some? && (ok ==> Value() == old(Value()).(item := item) && next == ptr + field.value.size)
    {
      if item_ == null { item_ := new CppItemInfo(); }
      ok, next := item_.ParseMessage(buf, ptr, limit);
    }

    method ParseRecord(buf: bytes, ptr: nat, limit: nat) returns (ok: bool, next: nat)
      requires ptr < limit <= |buf|
      modifies this, Owned()
      ensures fresh(Owned() - old(Owned())) && ptr <= next <= limit && (ok ==> ptr < next)
      ensures ParseInto(Cpp, AddToItemMessage(old(Value())), buf[ptr..limit]) ==
              if ok then ParseInto(Cpp, AddToItemMessage(Value()), buf[next..limit]) else None
    {
      hide ParseInto, ReadTag, ReadValue, ApplyAddToItem;
      ghost var m := AddToItemMessage(Value());
      var tag := ReadTag(Cpp, buf[ptr..limit]);
      if tag.None? {
        TurnFails(Cpp, m, buf[ptr..limit]);
        return false, ptr;
      }
      ok, next := ParseField(buf, ptr + tag.value.size, limit, tag.value.value);
      BufferTurn(Cpp, m, buf, ptr, limit, if ok then Some(AddToItemMessage(Value())) else None);
      if !ok { next := ptr; }
    }

    method InternalParse(buf: bytes, start: nat, limit: nat) returns (ok: bool, ptr: nat)
      requires start <= limit <= |buf|
      modifies this, Owned()
      ensures var m := ParseInto(Cpp, AddToItemMessage(old(Value())), buf[start..limit]);
              ok == m.Some? && (ok ==> m == Some(AddToItemMessage(Value())) && ptr == limit)
    {
      hide ParseInto;
      ok, ptr := true, start;
      while ok && ptr < limit
        invariant start <= ptr <= limit && fresh(Owned() - old(Owned()))
        invariant ParseInto(Cpp, AddToItemMessage(old(Value())), buf[start..limit]) ==
                  if ok then ParseInto(Cpp, AddToItemMessage(Value()), buf[ptr..limit]) else None
        decreases ok, limit - ptr
      {
        ok, ptr := ParseRecord(buf, ptr, limit);
      }
      if ok { assert buf[ptr..limit] == []; }
      ParseNothing(Cpp, AddToItemMessage(Value()));
    }

    /** Items are owned by one message each. */
    method MergeImpl(from: CppAddToItem)
      requires from != this && Owned() !! from.Owned()
      modifies this, Owned()
      ensures Value() == MergeAddToItem(old(Value()), from.Value())
    {
      if from.item_ != null {
        if item_ == null { item_ := new CppItemInfo(); }
        item_.MergeFrom(from.item_);
      }
      unknownFields := unknownFields + from.unknownFields;
    }

    /** The size pass: afterwards serialising writes exactly the message, in the size returned. */
    method ByteSizeLong() returns (totalSize: nat)
      requires Value().Valid() && AddToItemMessage(Value()).Fits()
      modifies this`cachedSize_, Owned()
      ensures Value() == old(Value()) && item_ == old(item_)
      ensures totalSize == |Write(AddToItemMessage(Value()))| && cachedSize_ == totalSize
      ensures Serialized() == Write(AddToItemMessage(Value()))
    {
      hide Print, ItemBytes, VarintSize, VarintBytes, Write;
      AddToItemLayout(Value());
      totalSize := 0;
      if item_ != null {
        var size := item_.ByteSizeLong();
        SizesExact(size);
        totalSize := totalSize + 1 + LengthDelimitedSize(size);
        EmbeddedBytesFresh(item_.Value());
      }
      ghost var x := LenFieldBytes(10, item_ != null, ItemBytes(Value().item.GetOr(NEW_ITEM)));
      assert totalSize == |x|;
      assert Serialized() == x + Print(unknownFields);
      totalSize := totalSize + |Print(unknownFields)|;
      cachedSize_ := totalSize;
    }

    method InternalSerialize(target: array<byte>, at: nat) returns (end: nat)
      requires at + |Serialized()| <= target.Length
      modifies target
      ensures end == at + |Serialized()|
      ensures target[..end] == old(target[..at]) + Serialized()
    {
      end := at;
      ghost var b, x := target[..at], if item_ == null then [] else EmbeddedBytes(item_.Value(), item_.cachedSize_);
      if item_ != null { end := item_.InternalWriteMessage(target, end); }
      assert end == at + |x| && target[..end] == b + x;
      end := WriteRaw(target, end, Print(unknownFields));
      AppendTwo(b, x, Print(unknownFields));
    }

    method SerializeToArray() returns (out: array<byte>)
      requires Value().Valid() && AddToItemMessage(Value()).Fits()
      modifies this`cachedSize_, Owned()
      ensures fresh(out) && out[..] == Write(AddToItemMessage(Value())) && Value() == old(Value())
    {
      hide Print, Write, EmbeddedAll, EmbeddedBytes;
      var size := ByteSizeLong();
      out := new byte[size](_ => 0);
      ghost var written := Serialized();
      var end := InternalSerialize(out, 0);
      assert out[..0] == [] && [] + written == written && out[..end] == out[..];
    }
  }

  // --------------------------------------------------------- resInventoryItems

  lemma NothingNested()
    ensures NestedBytes([]) == []
  {}

  lemma NextElement<T>(xs: seq<T>, ys: seq<T>, i: nat)
    requires i < |ys|
    ensures xs + ys[..i] + [ys[i]] == xs + ys[..i + 1]
  {}

  lemma NestedSizeNext(items: seq<ItemInfo>, i: nat)
    requires i < |items| && |ItemBytes(items[i])| < TWO_31
    ensures |NestedBytes(items[..i + 1])| == |NestedBytes(items[..i])| + 1 + LengthDelimitedSize(|ItemBytes(items[i])|)
  {
    SizesExact(|ItemBytes(items[i])|);
    NestedBytesNext(items, i);
  }

  class CppInventory {
    var cachedSize_: nat
    var items_: seq<CppItemInfo>
    var unknownFields: seq<Record>

    static function Values(items: seq<CppItemInfo>): (values: seq<ItemInfo>)
      reads items
      ensures |values| == |items|
      ensures forall i | 0 <= i < |items| :: values[i] == items[i].Value()
    {
      seq(|items|, i requires 0 <= i < |items| reads items => items[i].Value())
    }

    static function Sizes(items: seq<CppItemInfo>): (sizes: seq<nat>)
      reads items
      ensures |sizes| == |items|
      ensures forall i | 0 <= i < |items| :: sizes[i] == items[i].cachedSize_
    {
      seq(|items|, i requires 0 <= i < |items| reads items => items[i].cachedSize_)
    }

    function Value(): Inventory
      reads this, items_
    {
      Inventory(Values(items_), unknownFields)
    }

    /** What the serialiser writes with the sizes the caches hold now. */
    function Serialized(): bytes
      reads this, items_
    {
      EmbeddedAll(Values(items_), Sizes(items_)) + Print(unknownFields)
    }

    /** The list owns its elements: no object is in it twice. */
    ghost predicate Valid()
      reads this
    {
      forall j, k | 0 <= j < k < |items_| :: items_[j] != items_[k]
    }

    constructor ()
      ensures Valid() && Value() == NEW_INVENTORY
    {
      cachedSize_, items_, unknownFields := 0, [], [];
    }

    /** Parses one embedded item into a new element at the end of the list: a turn of the plain loop. */
    method ParseOneItem(buf: bytes, ptr: nat, limit: nat) returns (ok: bool, next: nat)
      requires ptr <= limit <= |buf| && Valid()
      modifies this
      ensures Valid() && (ok ==> ptr <= next <= limit && |items_| == |old(items_)| + 1)
      ensures Turns(Cpp, InventoryMessage(old(Value())), [10] + buf[ptr..limit], 1) ==
              if ok then Some(Rest(InventoryMessage(Value()), buf[next..limit])) else None
    {
      hide Turns, ReadValue, ApplyInventory, Values;
      ghost var v, b := Value(), buf[ptr..limit];
      ItemTurn(Cpp, InventoryMessage(v), b);
      ok, next := AddOneItem(buf, ptr, limit);
      if ok { SliceDrop(buf, ptr, limit, ReadValue(Cpp, 2, b).value.size); }
    }

    method AddOneItem(buf: bytes, ptr: nat, limit: nat) returns (ok: bool, next: nat)
      requires ptr <= limit <= |buf| && Valid()
      modifies this
      ensures Valid() && |items_| == |old(items_)| + 1
      ensures var field := ReadValue(Cpp, 2, buf[ptr..limit]);
              var v := if field.None? then None else ApplyInventory(Cpp, old(Value()), Record(1, field.value.value));
              ok == v.Some? && (ok ==> v == Some(Value()) && next == ptr + field.value.size)
    {
      hide ReadValue, ParseItem, Values;
      var item := new CppItemInfo();
      ghost var before := items_;
      items_ := items_ + [item];
      ok, next := item.ParseMessage(buf, ptr, limit);
      ValuesAppend(before, item);
    }

    /**
     The fast path behind a tag 10: as long as the next byte is 10 again, the
     next item follows without decoding its tag. List and position are those of
     the plain loop, with the tag in one byte, after as many turns as items were
     read; it fails where the next turn of that loop fails.
     */
    method ParseItems(buf: bytes, start: nat, limit: nat) returns (ok: bool, ptr: nat, ghost turns: nat)
      requires 1 <= start <= limit <= |buf| && Valid()
      modifies this
      ensures Valid()
      ensures var before := Turns(Cpp, InventoryMessage(old(Value())), [10] + buf[start..limit], turns);
              if ok then
                && start <= ptr <= limit && turns >= 1 && |items_| == |old(items_)| + turns
                && before == Some(Rest(InventoryMessage(Value()), buf[ptr..limit]))
                && (ptr == limit || buf[ptr] != 10)
              else
                && before.Some? && before.value.input != []
                && Turns(Cpp, before.value.message, before.value.input, 1).None?
    {
      hide Turns, Values, ReadRecord, Apply;
      ghost var m, b := InventoryMessage(Value()), [10] + buf[start..limit];
      NoTurns(Cpp, m, b);
      ptr, turns := start - 1, 0;
      while true
        invariant Valid() && start <= ptr + 1 <= limit && |items_| == |old(items_)| + turns
        invariant Turns(Cpp, m, b, turns) == Some(Rest(InventoryMessage(Value()), [10] + buf[ptr + 1..limit]))
        decreases limit - ptr
      {
        TurnsOneMore(Cpp, m, b, turns);
        ptr := ptr + 1;
        ok, ptr := ParseOneItem(buf, ptr, limit);
        if !ok { return; }
        turns := turns + 1;
        if !(ptr < limit) { return; }
        if buf[ptr] != 10 { return; }
        assert buf[ptr..limit] == [10] + buf[ptr + 1..limit];
      }
    }

    /** What the fast path does means what the input behind the tag means. */
    lemma RunKeepsMeaning(m: Message, b: bytes, turns: nat)
      requires var r := Turns(Cpp, m, [10] + b, turns);
               r.Some? && (turns == 0 ==> r.value.input != [])
      ensures var r := Turns(Cpp, m, [10] + b, turns).value;
              && AfterTag(Cpp, m, 10, b) == ParseInto(Cpp, r.message, r.input)
              && (r.input != [] && Turns(Cpp, r.message, r.input, 1).None? ==> AfterTag(Cpp, m, 10, b) == None)
    {
      hide Turns, AfterTag, ParseInto;
      var r := Turns(Cpp, m, [10] + b, turns).value;
      ItemTurn(Cpp, m, b);
      TurnsKeepMeaning(Cpp, m, [10] + b, turns);
      if r.input != [] && Turns(Cpp, r.message, r.input, 1).None? { FailedTurn(Cpp, r.message, r.input); }
    }

    method ParseUnusual(buf: bytes, ptr: nat, limit: nat, tag: uint32) returns (ok: bool, next: nat)
      requires ptr <= limit <= |buf| && tag != 10
      modifies this`unknownFields
      ensures ok ==> ptr <= next <= limit
      ensures (if tag / 8 == 0 then None else AfterTag(Cpp, InventoryMessage(old(Value())), tag, buf[ptr..limit])) ==
              if ok then ParseInto(Cpp, InventoryMessage(Value()), buf[next..limit]) else None
    {
      hide ParseInto, AfterTag;
      ghost var v, b := Value(), buf[ptr..limit];
      if tag == 0 || tag % 8 == 4 || tag / 8 == 0 {
        if tag % 8 == 4 { AfterTagFails(Cpp, InventoryMessage(v), tag, b); }
        return false, ptr;
      }
      var field := ReadValue(Cpp, tag % 8, buf[ptr..limit]);
      if field.None? {
        AfterTagFails(Cpp, InventoryMessage(v), tag, b);
        return false, ptr;
      }
      unknownFields := unknownFields + [Record(tag / 8, field.value.value)];
      assert Value() == v.(unknown := v.unknown + [Record(tag / 8, field.value.value)]);
      AfterTagStep(Cpp, InventoryMessage(v), tag, b, field.value, InventoryMessage(Value()));
      SliceDrop(buf, ptr, limit, field.value.size);
      return true, ptr + field.value.size;
    }

    method InternalParse(buf: bytes, start: nat, limit: nat) returns (ok: bool, ptr: nat)
      requires start <= limit <= |buf| && Valid()
      modifies this
      ensures Valid()
      ensures var m := ParseInto(Cpp, InventoryMessage(old(Value())), buf[start..limit]);
              ok == m.Some? && (ok ==> m == Some(InventoryMessage(Value())) && ptr == limit)
    {
      hide ParseInto;
      ok, ptr := true, start;
      while ok && ptr < limit
        invariant Valid() && (ok ==> start <= ptr <= limit)
        invariant ParseInto(Cpp, InventoryMessage(old(Value())), buf[start..limit]) ==
                  if ok then ParseInto(Cpp, InventoryMessage(Value()), buf[ptr..limit]) else None
        decreases ok, limit - ptr
      {
        ok, ptr := ParseRecords(buf, ptr, limit);
      }
      if ok { assert buf[ptr..limit] == []; }
      ParseNothing(Cpp, InventoryMessage(Value()));
    }

    /** A run of items means what the input behind the first tag means. */
    method ParseRun(buf: bytes, start: nat, limit: nat) returns (ok: bool, next: nat)
      requires 1 <= start <= limit <= |buf| && Valid()
      modifies this
      ensures Valid() && (ok ==> start <= next <= limit)
      ensures AfterTag(Cpp, InventoryMessage(old(Value())), 10, buf[start..limit]) ==
              if ok then ParseInto(Cpp, InventoryMessage(Value()), buf[next..limit]) else None
    {
      hide ParseInto, AfterTag, Turns, Values;
      ghost var m := InventoryMessage(Value());
      ghost var turns: nat;
      ok, next, turns := ParseItems(buf, start, limit);
      RunKeepsMeaning(m, buf[start..limit], turns);
    }

    /** One turn of the parse loop: one record, or a run of items. */
    method ParseRecords(buf: bytes, ptr: nat, limit: nat) returns (ok: bool, next: nat)
      requires ptr < limit <= |buf| && Valid()
      modifies this
      ensures Valid() && (ok ==> ptr < next <= limit)
      ensures ParseInto(Cpp, InventoryMessage(old(Value())), buf[ptr..limit]) ==
              if ok then ParseInto(Cpp, InventoryMessage(Value()), buf[next..limit]) else None
    {
      hide ParseInto, AfterTag, Values, ReadTag;
      TagRead(Cpp, InventoryMessage(Value()), buf[ptr..limit]);
      var tag := ReadTag(Cpp, buf[ptr..limit]);
      if tag.None? { return false, ptr; }
      SliceDrop(buf, ptr, limit, tag.value.size);
      LowByteDispatch(tag.value.value, 10);
      if tag.value.value / 8 == 1 && tag.value.value % 256 == 10 {
        ok, next := ParseRun(buf, ptr + tag.value.size, limit);
      } else {
        ok, next := ParseUnusual(buf, ptr + tag.value.size, limit, tag.value.value);
      }
    }

    /** The items of `from` are copied. */
    method MergeImpl(from: CppInventory)
      requires from != this && Valid()
      modifies this
      ensures Valid() && Value() == MergeInventory(old(Value()), from.Value())
      ensures |items_| >= |old(items_)| && items_[..|old(items_)|] == old(items_)
      ensures forall k | |old(items_)| <= k < |items_| :: fresh(items_[k])
    {
      hide Values;
      ghost var before, mine, theirs := items_, Values(items_), Values(from.items_);
      for i := 0 to |from.items_|
        invariant |items_| == |before| + i && items_[..|before|] == before
        invariant Valid() && forall k | |before| <= k < |items_| :: fresh(items_[k])
        invariant unknownFields == old(unknownFields) && Values(from.items_) == theirs
        invariant Values(items_) == mine + theirs[..i]
      {
        AddCopy(from.items_[i]);
        NextElement(mine, theirs, i);
      }
      assert theirs[..|theirs|] == theirs;
      unknownFields := unknownFields + from.unknownFields;
    }

    method AddCopy(item: CppItemInfo)
      requires Valid()
      modifies this`items_
      ensures Valid() && |items_| == |old(items_)| + 1 && items_[..|old(items_)|] == old(items_)
      ensures fresh(items_[|old(items_)|]) && Values(items_) == old(Values(items_)) + [item.Value()]
    {
      hide Values;
      var copy := CopyOf(item);
      ghost var before := items_;
      ValuesAppend(before, copy);
      items_ := items_ + [copy];
      assert items_[..|before|] == before;
    }

    static method CopyOf(item: CppItemInfo) returns (copy: CppItemInfo)
      ensures fresh(copy) && copy.Value() == item.Value()
    {
      copy := new CppItemInfo();
      copy.MergeFrom(item);
      assert [] + item.unknownFields == item.unknownFields;
    }

    static lemma ValuesAppend(items: seq<CppItemInfo>, item: CppItemInfo)
      ensures Values(items + [item]) == Values(items) + [item.Value()]
    {}

    /** The size pass over all items: stores every item's size. */
    method ItemSizes() returns (size: nat)
      requires Valid() && forall i | i in Values(items_) :: i.Valid() && |ItemBytes(i)| < TWO_31
      modifies items_
      ensures Values(items_) == old(Values(items_))
      ensures forall i | 0 <= i < |items_| :: Sizes(items_)[i] == |ItemBytes(Values(items_)[i])|
      ensures size == |NestedBytes(Values(items_))|
    {
      hide Print, ItemBytes, NestedBytes, VarintSize, VarintBytes, LengthDelimitedSize, AllUnknown, AllValid;
      ghost var values := Values(items_);
      ghost var sizes := seq(|values|, k requires 0 <= k < |values| => |ItemBytes(values[k])|);
      size := |items_|;
      NothingNested();
      assert values[..0] == [];
      for i := 0 to |items_|
        invariant forall k | 0 <= k < |items_| :: items_[k].Value() == values[k]
        invariant forall k | 0 <= k < i :: items_[k].cachedSize_ == sizes[k]
        invariant size == |NestedBytes(values[..i])| + (|items_| - i)
      {
        assert values[i] in values;
        var itemSize := items_[i].ByteSizeLong();
        assert itemSize == sizes[i];
        size := size + LengthDelimitedSize(itemSize);
        NestedSizeNext(values, i);
      }
      assert values[..|items_|] == values;
    }

    method ByteSizeLong() returns (totalSize: nat)
      requires Valid() && Value().Valid() && InventoryMessage(Value()).Fits()
      modifies this`cachedSize_, items_
      ensures Value() == old(Value()) && items_ == old(items_)
      ensures totalSize == |Write(InventoryMessage(Value()))| && cachedSize_ == totalSize
      ensures Serialized() == Write(InventoryMessage(Value()))
    {
      hide Print, ItemBytes, NestedBytes, EmbeddedAll, Values, Sizes;
      totalSize := ItemSizes();
      StoredSizesExact(Values(items_), Sizes(items_));
      InventoryLayout(Value());
      totalSize := totalSize + |Print(unknownFields)|;
      cachedSize_ := totalSize;
    }

    method InternalSerialize(target: array<byte>, at: nat) returns (end: nat)
      requires at + |Serialized()| <= target.Length
      modifies target
      ensures end == at + |Serialized()|
      ensures target[..end] == old(target[..at]) + Serialized()
    {
      hide Print, EmbeddedAll, Values, Sizes;
      ghost var b := target[..at];
      end := SerializeItems(target, at);
      end := WriteRaw(target, end, Print(unknownFields));
      AppendTwo(b, EmbeddedAll(Values(items_), Sizes(items_)), Print(unknownFields));
    }

    method SerializeItems(target: array<byte>, at: nat) returns (end: nat)
      requires at + |EmbeddedAll(Values(items_), Sizes(items_))| <= target.Length
      modifies target
      ensures end == at + |EmbeddedAll(Values(items_), Sizes(items_))| && end <= target.Length
      ensures target[..end] == old(target[..at]) + EmbeddedAll(Values(items_), Sizes(items_))
    {
      hide Print, ItemBytes;
      ghost var values, sizes, b := Values(items_), Sizes(items_), target[..at];
      end := at;
      for i := 0 to |items_|
        invariant Values(items_) == values && Sizes(items_) == sizes && end <= target.Length
        invariant end == at + |EmbeddedAll(values[..i], sizes[..i])|
        invariant target[..end] == b + EmbeddedAll(values[..i], sizes[..i])
      {
        EmbeddedAllNext(values, sizes, i);
        EmbeddedAllGrows(values, sizes, i + 1);
        assert items_[i].Value() == values[i] && items_[i].cachedSize_ == sizes[i];
        end := items_[i].InternalWriteMessage(target, end);
        AppendTwo(b, EmbeddedAll(values[..i], sizes[..i]), EmbeddedBytes(values[i], sizes[i]));
      }
      assert values[..|items_|] == values && sizes[..|items_|] == sizes;
    }

    method SerializeToArray() returns (out: array<byte>)
      requires Valid() && Value().Valid() && InventoryMessage(Value()).Fits()
      modifies this`cachedSize_, items_
      ensures fresh(out) && out[..] == Write(InventoryMessage(Value())) && Value() == old(Value())
    {
      hide Write, Serialized, Value;
      var size := ByteSizeLong();
      out := SerializeTo(size);
    }

    method SerializeTo(size: nat) returns (out: array<byte>)
      requires size == |Serialized()|
      ensures fresh(out) && out[..] == Serialized()
    {
      hide Print, EmbeddedAll, Values, Sizes;
      out := new byte[size](_ => 0);
      ghost var written := Serialized();
      var end := InternalSerialize(out, 0);
      assert out[..0] == [] && [] + written == written && out[..end] == out[..];
    }
  }

  lemma {:induction false} EmbeddedAllGrows(items: seq<ItemInfo>, sizes: seq<nat>, i: nat)
    requires i <= |items| == |sizes|
    ensures |EmbeddedAll(items[..i], sizes[..i])| <= |EmbeddedAll(items, sizes)|
    decreases |items| - i
  {
    if i == |items| {
      assert items[..i] == items && sizes[..i] == sizes;
    } else {
      EmbeddedAllNext(items, sizes, i);
      EmbeddedAllGrows(items, sizes, i + 1);
    }
  }
}
