/**
 The record layer: a message on the wire is a sequence of records, each a tag
 (field number and wire type) and a value. Both runtimes read records the same
 way except for the prefixes: the C# reader takes any varint of up to ten bytes
 as a tag or a length and keeps its low 32 bits, the C++ reader takes at most
 five bytes and requires a length to fit an int32.
 */
module Records {
  import opened Wrappers
  import opened Wire

  datatype Runtime = CSharp | Cpp

  datatype Value =
    | VARINT(v: nat)
    | I64(n: nat)
    | LEN(payload: bytes)
    | I32(n: nat)
  {
    predicate Valid() {
      match this
      case VARINT(v) => v < TWO_64
      case I64(n) => n < Pow256(8)
      case LEN(payload) => |payload| < TWO_31
      case I32(n) => n < Pow256(4)
    }

    function WireType(): (t: nat)
      ensures t < 8
    {
      match this
      case VARINT(_) => 0
      case I64(_) => 1
      case LEN(_) => 2
      case I32(_) => 5
    }
  }

  datatype Record = Record(number: nat, value: Value) {
    predicate Valid() {
      1 <= number < 0x2000_0000 && value.Valid()
    }

    function Tag(): nat {
      8 * number + value.WireType()
    }
  }

  // ---------------------------------------------------------------- printing

  function ValueBytes(value: Value): bytes {
    match value
    case VARINT(v) => VarintBytes(v)
    case I64(n) => LittleEndian(n, 8)
    case LEN(payload) => VarintBytes(|payload|) + payload
    case I32(n) => LittleEndian(n, 4)
  }

  function RecordBytes(r: Record): (b: bytes)
    ensures |b| >= 1
  {
    VarintBytes(r.Tag()) + ValueBytes(r.value)
  }

  function Print(rs: seq<Record>): bytes {
    if rs == [] then [] else RecordBytes(rs[0]) + Print(rs[1..])
  }

  // ----------------------------------------------------------------- reading

  function ReadTag(rt: Runtime, b: bytes): (r: Option<Varint>)
    ensures r.Some? ==> 1 <= r.value.size <= |b| && r.value.value < TWO_32
  {
    match ReadVarint(b, if rt.CSharp? then 10 else 5)
    case None => None
    case Some(v) => Some(Varint(v.value % TWO_32, v.size))
  }

  /** A length prefix whose payload is all there. */
  function ReadLength(rt: Runtime, b: bytes): (r: Option<Varint>)
    ensures r.Some? ==> r.value.size + r.value.value <= |b| && r.value.value < TWO_31
  {
    match ReadVarint(b, if rt.CSharp? then 10 else 5)
    case None => None
    case Some(v) =>
      var length := if rt.CSharp? then v.value % TWO_32 else v.value;
      if length < TWO_31 && v.size + length <= |b| then Some(Varint(length, v.size)) else None
  }

  datatype Field = Field(value: Value, size: nat)

  /** Groups (wire types 3 and 4) and the unused wire types 6 and 7 are rejected. */
  function ReadValue(rt: Runtime, wireType: nat, b: bytes): (r: Option<Field>)
    ensures r.Some? ==> r.value.size <= |b| && r.value.value.Valid() && r.value.value.WireType() == wireType
  {
    match wireType
    case 0 =>
      (match ReadVarint(b, 10)
       case None => None
       case Some(v) => Some(Field(VARINT(v.value % TWO_64), v.size)))
    case 1 => ReadFixed(b, 8)
    case 2 =>
      (match ReadLength(rt, b)
       case None => None
       case Some(n) => Some(Field(LEN(b[n.size..n.size + n.value]), n.size + n.value)))
    case 5 => ReadFixed(b, 4)
    case _ => None
  }

  function ReadFixed(b: bytes, count: nat): (r: Option<Field>)
    requires count == 4 || count == 8
    ensures r.Some? <==> |b| >= count
    ensures r.Some? ==> r.value.size == count && r.value.value.Valid()
    ensures r.Some? ==>
              r.value.value == if count == 8 then I64(FromLittleEndian(b[..8])) else I32(FromLittleEndian(b[..4]))
  {
    if |b| < count then None
    else
      FromLittleEndianBound(b[..count]);
      var n := FromLittleEndian(b[..count]);
      Some(Field(if count == 8 then I64(n) else I32(n), count))
  }

  datatype Step = Step(record: Record, size: nat)

  /** Reads one record off the front; field number zero is an error. */
  function ReadRecord(rt: Runtime, b: bytes): (r: Option<Step>)
    ensures r.Some? ==> 1 <= r.value.size <= |b| && r.value.record.Valid()
  {
    match ReadTag(rt, b)
    case None => None
    case Some(tag) =>
      if tag.value / 8 == 0 then None
      else
        match ReadValue(rt, tag.value % 8, b[tag.size..])
        case None => None
        case Some(field) => Some(Step(Record(tag.value / 8, field.value), tag.size + field.size))
  }

  /** All records of a byte string, or None if it is malformed. */
  function Scan(rt: Runtime, b: bytes): (r: Option<seq<Record>>)
    ensures r.Some? ==> AllValid(r.value)
    decreases |b|
  {
    if b == [] then Some([])
    else
      match ReadRecord(rt, b)
      case None => None
      case Some(step) => Joined(Some([step.record]), Scan(rt, b[step.size..]))
  }

  function Joined(xs: Option<seq<Record>>, ys: Option<seq<Record>>): Option<seq<Record>> {
    if xs.Some? && ys.Some? then Some(xs.value + ys.value) else None
  }

  lemma JoinedAssociative(xs: Option<seq<Record>>, ys: Option<seq<Record>>, zs: Option<seq<Record>>)
    ensures Joined(xs, Joined(ys, zs)) == Joined(Joined(xs, ys), zs)
  {
    if xs.Some? && ys.Some? && zs.Some? {
      assert xs.value + (ys.value + zs.value) == xs.value + ys.value + zs.value;
    }
  }

  predicate AllValid(rs: seq<Record>) {
    forall r | r in rs :: r.Valid()
  }

  // ------------------------------------------------------- printer and reader

  lemma ReadTagBytes(rt: Runtime, r: Record, rest: bytes)
    requires r.Valid()
    ensures ReadTag(rt, VarintBytes(r.Tag()) + rest) == Some(Varint(r.Tag(), |VarintBytes(r.Tag())|))
  {
    VarintLengthBounds(r.Tag());
    ReadVarintBytes(r.Tag(), rest, if rt.CSharp? then 10 else 5);
  }

  lemma ReadLengthBytes(rt: Runtime, payload: bytes, rest: bytes)
    requires |payload| < TWO_31
    ensures ReadLength(rt, VarintBytes(|payload|) + payload + rest) == Some(Varint(|payload|, |VarintBytes(|payload|)|))
  {
    VarintLengthBounds(|payload|);
    ReadVarintBytes(|payload|, payload + rest, if rt.CSharp? then 10 else 5);
    assert VarintBytes(|payload|) + payload + rest == VarintBytes(|payload|) + (payload + rest);
  }

  lemma ReadFixedBytes(n: nat, count: nat, rest: bytes)
    requires count == 4 || count == 8
    requires n < Pow256(count)
    ensures ReadFixed(LittleEndian(n, count) + rest, count) == Some(Field(if count == 8 then I64(n) else I32(n), count))
  {
    assert (LittleEndian(n, count) + rest)[..count] == LittleEndian(n, count);
    LittleEndianRoundTrip(n, count);
  }

  lemma ReadValueBytes(rt: Runtime, value: Value, rest: bytes)
    requires value.Valid()
    ensures ReadValue(rt, value.WireType(), ValueBytes(value) + rest) == Some(Field(value, |ValueBytes(value)|))
  {
    hide ReadVarint, ReadLength, ReadFixed, VarintBytes, LittleEndian;
    match value
    case VARINT(v) =>
      VarintLengthBounds(v);
      ReadVarintBytes(v, rest, 10);
    case I64(n) => ReadFixedBytes(n, 8, rest);
    case LEN(payload) =>
      ReadLengthBytes(rt, payload, rest);
      var size := |VarintBytes(|payload|)|;
      assert (VarintBytes(|payload|) + payload + rest)[size..size + |payload|] == payload;
    case I32(n) => ReadFixedBytes(n, 4, rest);
  }

  lemma ReadRecordBytes(rt: Runtime, r: Record, rest: bytes)
    requires r.Valid()
    ensures ReadRecord(rt, RecordBytes(r) + rest) == Some(Step(r, |RecordBytes(r)|))
  {
    hide ReadTag, ReadValue, VarintBytes, ValueBytes;
    var tag := VarintBytes(r.Tag());
    var tail := ValueBytes(r.value) + rest;
    assert RecordBytes(r) + rest == tag + tail;
    assert (tag + tail)[|tag|..] == tail;
    ReadTagBytes(rt, r, tail);
    ReadValueBytes(rt, r.value, rest);
  }

  lemma PrintFirst(rs: seq<Record>)
    requires rs != []
    ensures Print(rs) == RecordBytes(rs[0]) + Print(rs[1..])
    ensures Print(rs)[|RecordBytes(rs[0])|..] == Print(rs[1..])
  {
    hide RecordBytes;
  }

  lemma FirstJoined(rs: seq<Record>)
    requires rs != []
    ensures Joined(Some([rs[0]]), Some(rs[1..])) == Some(rs)
  {
    assert rs == [rs[0]] + rs[1..];
  }

  lemma ScanFirst(rt: Runtime, b: bytes, step: Step)
    requires b != [] && ReadRecord(rt, b) == Some(step)
    ensures Scan(rt, b) == Joined(Some([step.record]), Scan(rt, b[step.size..]))
  {}

  /** Either reader gets back exactly the records a writer printed. */
  lemma {:induction false} ScanPrint(rt: Runtime, rs: seq<Record>)
    requires AllValid(rs)
    ensures Scan(rt, Print(rs)) == Some(rs)
  {
    if rs == [] {
    } else {
      hide ReadRecord, RecordBytes, Scan, Print, Joined;
      ReadRecordBytes(rt, rs[0], Print(rs[1..]));
      PrintFirst(rs);
      ScanFirst(rt, Print(rs), Step(rs[0], |RecordBytes(rs[0])|));
      ScanPrint(rt, rs[1..]);
      FirstJoined(rs);
    }
  }

  lemma {:induction false} PrintConcat(xs: seq<Record>, ys: seq<Record>)
    ensures Print(xs + ys) == Print(xs) + Print(ys)
  {
    if xs == [] {
      assert xs + ys == ys;
    } else {
      assert (xs + ys)[1..] == xs[1..] + ys;
      PrintConcat(xs[1..], ys);
    }
  }

  // ------------------------------------------------------------ concatenation

  lemma SliceOfPrefix(b: bytes, rest: bytes, i: nat, j: nat)
    requires i <= j <= |b|
    ensures (b + rest)[i..j] == b[i..j]
  {}

  lemma ReadFixedPrefix(b: bytes, rest: bytes, count: nat)
    requires (count == 4 || count == 8) && |b| >= count
    ensures ReadFixed(b + rest, count) == ReadFixed(b, count)
  {
    SliceOfPrefix(b, rest, 0, count);
  }

  lemma ReadLengthPrefix(rt: Runtime, b: bytes, rest: bytes)
    requires ReadLength(rt, b).Some?
    ensures ReadLength(rt, b + rest) == ReadLength(rt, b)
  {
    hide ReadVarint;
    ReadVarintPrefix(b, rest, if rt.CSharp? then 10 else 5);
  }

  lemma ReadValuePrefix(rt: Runtime, wireType: nat, b: bytes, rest: bytes)
    requires ReadValue(rt, wireType, b).Some?
    ensures ReadValue(rt, wireType, b + rest) == ReadValue(rt, wireType, b)
  {
    hide ReadVarint, ReadLength, ReadFixed;
    match wireType
    case 0 => ReadVarintPrefix(b, rest, 10);
    case 1 => ReadFixedPrefix(b, rest, 8);
    case 2 =>
      ReadLengthPrefix(rt, b, rest);
      var n := ReadLength(rt, b).value;
      SliceOfPrefix(b, rest, n.size, n.size + n.value);
    case 5 => ReadFixedPrefix(b, rest, 4);
    case _ =>
  }

  lemma ReadRecordPrefix(rt: Runtime, b: bytes, rest: bytes)
    requires ReadRecord(rt, b).Some?
    ensures ReadRecord(rt, b + rest) == ReadRecord(rt, b)
  {
    hide ReadVarint, ReadValue;
    ReadVarintPrefix(b, rest, if rt.CSharp? then 10 else 5);
    var tag := ReadTag(rt, b).value;
    assert (b + rest)[tag.size..] == b[tag.size..] + rest;
    ReadValuePrefix(rt, tag.value % 8, b[tag.size..], rest);
  }

  /** Behind a well-formed byte string, reading goes on with the rest. */
  lemma {:induction false} ScanConcat(rt: Runtime, x: bytes, y: bytes)
    requires Scan(rt, x).Some?
    ensures Scan(rt, x + y) == Joined(Scan(rt, x), Scan(rt, y))
    decreases |x|
  {
    hide ReadRecord;
    if x == [] {
      assert x + y == y;
      if Scan(rt, y).Some? { assert [] + Scan(rt, y).value == Scan(rt, y).value; }
    } else {
      ReadRecordPrefix(rt, x, y);
      var step := ReadRecord(rt, x).value;
      assert (x + y)[step.size..] == x[step.size..] + y;
      ScanConcat(rt, x[step.size..], y);
      JoinedAssociative(Some([step.record]), Scan(rt, x[step.size..]), Scan(rt, y));
    }
  }

  // ---------------------------------------------------- the two readers agree

  predicate ShortLength(b: bytes) {
    match ReadVarint(b, 10)
    case None => false
    case Some(v) => v.size <= 5 && v.value < TWO_32
  }

  /** The prefixes of the record in front take at most five bytes and its length loses no bits. */
  predicate ShortPrefix(b: bytes) {
    match ReadTag(CSharp, b)
    case None => false
    case Some(tag) => tag.size <= 5 && (tag.value % 8 == 2 ==> ShortLength(b[tag.size..]))
  }

  /** Every record of the byte string has short prefixes. */
  predicate ShortPrefixes(b: bytes)
    decreases |b|
  {
    b == [] ||
    (ShortPrefix(b) &&
     match ReadRecord(CSharp, b)
     case None => false
     case Some(step) => ShortPrefixes(b[step.size..]))
  }

  lemma ReadValueAgreement(wireType: nat, b: bytes)
    ensures ReadValue(Cpp, wireType, b) ==
            if ReadValue(CSharp, wireType, b).Some? && (wireType == 2 ==> ShortLength(b))
            then ReadValue(CSharp, wireType, b) else None
  {
    if wireType == 2 {
      ReadVarintLimit(b, 5, 10);
      assert ReadLength(Cpp, b) ==
        if ReadLength(CSharp, b).Some? && ShortLength(b) then ReadLength(CSharp, b) else None;
    }
  }

  lemma ReadRecordAgreement(b: bytes)
    ensures ReadRecord(Cpp, b) ==
            if ReadRecord(CSharp, b).Some? && ShortPrefix(b) then ReadRecord(CSharp, b) else None
  {
    ReadVarintLimit(b, 5, 10);
    match ReadTag(CSharp, b)
    case None =>
    case Some(tag) => ReadValueAgreement(tag.value % 8, b[tag.size..]);
  }

  /** The C++ reader accepts exactly what the C# reader accepts with short prefixes, and reads the same records. */
  lemma {:induction false} ScanAgreement(b: bytes)
    ensures Scan(Cpp, b) ==
            if Scan(CSharp, b).Some? && ShortPrefixes(b) then Scan(CSharp, b) else None
    decreases |b|
  {
    if b != [] {
      ReadRecordAgreement(b);
      match ReadRecord(CSharp, b)
      case None =>
      case Some(step) => ScanAgreement(b[step.size..]);
    }
  }

  // -------------------------------------------------------- fields of a stream

  /** The records that carry a given tag, in order. */
  function OfTag(rs: seq<Record>, tag: nat): (os: seq<Record>)
    ensures forall r | r in os :: r.Tag() == tag
  {
    if rs == [] then []
    else (if rs[0].Tag() == tag then [rs[0]] else []) + OfTag(rs[1..], tag)
  }

  /** The records whose tag is none of the known ones, in order. */
  function Unknown(rs: seq<Record>, known: set<nat>): seq<Record> {
    if rs == [] then []
    else (if rs[0].Tag() in known then [] else [rs[0]]) + Unknown(rs[1..], known)
  }

  lemma {:induction false} OfTagConcat(xs: seq<Record>, ys: seq<Record>, tag: nat)
    ensures OfTag(xs + ys, tag) == OfTag(xs, tag) + OfTag(ys, tag)
  {
    if xs == [] {
      assert xs + ys == ys;
    } else {
      assert (xs + ys)[1..] == xs[1..] + ys;
      OfTagConcat(xs[1..], ys, tag);
    }
  }

  lemma {:induction false} UnknownConcat(xs: seq<Record>, ys: seq<Record>, known: set<nat>)
    ensures Unknown(xs + ys, known) == Unknown(xs, known) + Unknown(ys, known)
  {
    if xs == [] {
      assert xs + ys == ys;
    } else {
      assert (xs + ys)[1..] == xs[1..] + ys;
      UnknownConcat(xs[1..], ys, known);
    }
  }

  predicate AllUnknown(rs: seq<Record>, known: set<nat>) {
    forall r | r in rs :: r.Tag() !in known
  }

  lemma {:induction false} UnknownIsUnknown(rs: seq<Record>, known: set<nat>)
    ensures AllUnknown(Unknown(rs, known), known)
    ensures AllValid(rs) ==> AllValid(Unknown(rs, known))
  {
    if rs != [] { UnknownIsUnknown(rs[1..], known); }
  }

  lemma {:induction false} UnknownOfUnknown(rs: seq<Record>, known: set<nat>)
    requires AllUnknown(rs, known)
    ensures Unknown(rs, known) == rs
    ensures forall t | t in known :: OfTag(rs, t) == []
  {
    if rs != [] {
      UnknownOfUnknown(rs[1..], known);
      assert rs == [rs[0]] + rs[1..];
    }
  }

  /** Same records field by field: only records of different fields may have changed places. */
  ghost predicate SameFields(xs: seq<Record>, ys: seq<Record>, known: set<nat>) {
    && (forall t | t in known :: OfTag(xs, t) == OfTag(ys, t))
    && Unknown(xs, known) == Unknown(ys, known)
  }

  /** Exchanging two neighbours of different fields, at least one of them known, keeps every field's records. */
  lemma ExchangeKeepsFields(xs: seq<Record>, r: Record, s: Record, ys: seq<Record>, known: set<nat>)
    requires r.Tag() != s.Tag() && (r.Tag() in known || s.Tag() in known)
    ensures SameFields(xs + [r, s] + ys, xs + [s, r] + ys, known)
  {
    assert [r, s][1..] == [s] && [s, r][1..] == [r] && [r][1..] == [] && [s][1..] == [];
    forall t | t in known
      ensures OfTag(xs + [r, s] + ys, t) == OfTag(xs + [s, r] + ys, t)
    {
      OfTagConcat(xs + [r, s], ys, t);
      OfTagConcat(xs + [s, r], ys, t);
      OfTagConcat(xs, [r, s], t);
      OfTagConcat(xs, [s, r], t);
      assert OfTag([r, s], t) == OfTag([s, r], t);
    }
    UnknownConcat(xs + [r, s], ys, known);
    UnknownConcat(xs + [s, r], ys, known);
    UnknownConcat(xs, [r, s], known);
    UnknownConcat(xs, [s, r], known);
    assert Unknown([r, s], known) == Unknown([s, r], known);
  }
}
