/** The coded streams the C# serialisers work on: an output that grows and an input with a current limit. */
module CsCodedStreams {
  import opened Wire
  import opened Records

  // The size computations beside the writers: thresholds instead of a loop.

  function ComputeUInt32Size(v: uint32): nat {
    if v < 0x80 then 1
    else if v < 0x4000 then 2
    else if v < 0x20_0000 then 3
    else if v < 0x1000_0000 then 4
    else 5
  }

  function ComputeInt32Size(v: int32): nat {
    if v >= 0 then ComputeUInt32Size(v) else 10
  }

  function ComputeBytesSize(s: bytes): nat
    requires |s| < TWO_31
  {
    ComputeUInt32Size(|s|) + |s|
  }

  lemma UInt32SizeExact(v: uint32)
    ensures ComputeUInt32Size(v) == |VarintBytes(v)|
  {
    if v >= 0x80 {
      var v1 := v / 128;
      if v1 >= 0x80 {
        var v2 := v1 / 128;
        if v2 >= 0x80 {
          var v3 := v2 / 128;
          if v3 >= 0x80 { assert |VarintBytes(v3)| == 1 + |VarintBytes(v3 / 128)| == 2; }
        }
      }
    }
  }

  lemma Int32SizeExact(v: int32)
    ensures ComputeInt32Size(v) == |VarintBytes(SignExtend(v))|
  {
    if v >= 0 { UInt32SizeExact(v); } else { NegativeInt32TakesTenBytes(v); }
  }

  class CodedOutput {
    var buffer: bytes

    constructor ()
      ensures buffer == []
    {
      buffer := [];
    }

    method WriteRawTag(tag: byte)
      modifies this
      ensures buffer == old(buffer) + [tag]
    {
      buffer := buffer + [tag];
    }

    /** The base 128 loop: seven bits at a time until the rest fits in one byte. */
    method WriteVarint(n: nat)
      modifies this
      ensures buffer == old(buffer) + VarintBytes(n)
    {
      var rest := n;
      while rest >= 128
        invariant buffer + VarintBytes(rest) == old(buffer) + VarintBytes(n)
      {
        assert VarintBytes(rest) == [128 + rest % 128] + VarintBytes(rest / 128);
        buffer := buffer + [128 + rest % 128];
        rest := rest / 128;
      }
      buffer := buffer + [rest];
    }

    method WriteInt32(v: int32)
      modifies this
      ensures buffer == old(buffer) + VarintBytes(SignExtend(v))
    {
      WriteVarint(SignExtend(v));
    }

    /** Strings and byte strings: length, then contents. */
    method WriteBytes(s: bytes)
      modifies this
      ensures buffer == old(buffer) + ValueBytes(LEN(s))
    {
      WriteVarint(|s|);
      buffer := buffer + s;
    }

    /** A float, as its raw 32-bit pattern. */
    method WriteFloat(bits: uint32)
      modifies this
      ensures buffer == old(buffer) + LittleEndian(bits, 4)
    {
      buffer := buffer + LittleEndian(bits, 4);
    }

    method WriteUnknown(unknownFields: seq<Record>)
      modifies this
      ensures buffer == old(buffer) + Print(unknownFields)
    {
      buffer := buffer + Print(unknownFields);
    }
  }

  /** Reads buffer[position..limit]; a failed read stands for the exception the runtime throws. */
  class CodedInput {
    const buffer: bytes
    var position: nat
    var limit: nat

    ghost predicate Valid()
      reads this
    {
      position <= limit <= |buffer|
    }

    function Rest(): bytes
      requires Valid()
      reads this
    {
      buffer[position..limit]
    }

    constructor (buffer: bytes, offset: nat, length: nat)
      requires offset + length <= |buffer|
      ensures Valid() && this.buffer == buffer && position == offset && limit == offset + length
    {
      this.buffer := buffer;
      position, limit := offset, offset + length;
    }

    /** The next tag, or 0 at the end of the input; field number zero is invalid. */
    method ReadTag() returns (ok: bool, tag: uint32)
      requires Valid()
      modifies this`position
      ensures Valid()
      ensures old(Rest()) == [] ==> ok && tag == 0 && position == old(position)
      ensures old(Rest()) != [] ==>
                var t := Records.ReadTag(CSharp, old(Rest()));
                ok == (t.Some? && t.value.value / 8 != 0) &&
                (ok ==> tag == t.value.value && tag != 0 && Rest() == old(Rest())[t.value.size..])
    {
      tag := 0;
      if position == limit {
        return true, 0;
      }
      var t := Records.ReadTag(CSharp, Rest());
      if t.None? || t.value.value / 8 == 0 {
        return false, 0;
      }
      position := position + t.value.size;
      return true, t.value.value;
    }

    /** Reads the value behind a tag of the given wire type. */
    method ReadValue(wireType: nat) returns (ok: bool, value: Value)
      requires Valid()
      modifies this`position
      ensures Valid()
      ensures var field := Records.ReadValue(CSharp, wireType, old(Rest()));
              ok == field.Some? &&
              (ok ==> value == field.value.value && Rest() == old(Rest())[field.value.size..])
    {
      var field := Records.ReadValue(CSharp, wireType, Rest());
      if field.None? {
        return false, VARINT(0);
      }
      position := position + field.value.size;
      return true, field.value.value;
    }

    method ReadUInt32() returns (ok: bool, v: uint32)
      requires Valid()
      modifies this`position
      ensures Valid()
      ensures var field := Records.ReadValue(CSharp, 0, old(Rest()));
              ok == field.Some? &&
              (ok ==> && field.value.value.VARINT? && v == field.value.value.v % TWO_32
                      && Rest() == old(Rest())[field.value.size..])
    {
      var value;
      ok, value := ReadValue(0);
      v := if ok then value.v % TWO_32 else 0;
    }

    method ReadInt32() returns (ok: bool, v: int32)
      requires Valid()
      modifies this`position
      ensures Valid()
      ensures var field := Records.ReadValue(CSharp, 0, old(Rest()));
              ok == field.Some? &&
              (ok ==> && field.value.value.VARINT? && v == ToInt32(field.value.value.v)
                      && Rest() == old(Rest())[field.value.size..])
    {
      var value;
      ok, value := ReadValue(0);
      v := if ok then ToInt32(value.v) else 0;
    }

    method ReadBytes() returns (ok: bool, s: bytes)
      requires Valid()
      modifies this`position
      ensures Valid()
      ensures var field := Records.ReadValue(CSharp, 2, old(Rest()));
              ok == field.Some? &&
              (ok ==> LEN(s) == field.value.value && Rest() == old(Rest())[field.value.size..])
    {
      var value;
      ok, value := ReadValue(2);
      s := if ok then value.payload else [];
    }

    method ReadFloat() returns (ok: bool, bits: uint32)
      requires Valid()
      modifies this`position
      ensures Valid()
      ensures var field := Records.ReadValue(CSharp, 5, old(Rest()));
              ok == field.Some? &&
              (ok ==> I32(bits) == field.value.value && Rest() == old(Rest())[field.value.size..])
    {
      var value;
      ok, value := ReadValue(5);
      bits := if ok then value.n else 0;
    }

    /** Narrows the input to the payload of an embedded message; the old limit is restored by PopLimit. */
    method PushLimit() returns (ok: bool, oldLimit: nat)
      requires Valid()
      modifies this
      ensures Valid() && limit <= old(limit)
      ensures var field := Records.ReadValue(CSharp, 2, old(Rest()));
              ok == field.Some? &&
              (ok ==> && Rest() == field.value.value.payload
                      && oldLimit == old(limit) && limit <= oldLimit <= |buffer|
                      && buffer[limit..oldLimit] == old(Rest())[field.value.size..])
    {
      var n := ReadLength(CSharp, Rest());
      oldLimit := limit;
      if n.None? {
        return false, limit;
      }
      SliceOfSlice(buffer, position, limit, n.value.size, n.value.size + n.value.value);
      SliceOfSlice(buffer, position, limit, n.value.size + n.value.value, limit - position);
      position := position + n.value.size;
      limit := position + n.value.value;
      return true, oldLimit;
    }

    method PopLimit(oldLimit: nat)
      requires Valid() && limit <= oldLimit <= |buffer|
      modifies this`limit
      ensures Valid() && limit == oldLimit && position == old(position)
    {
      limit := oldLimit;
    }
  }
}
