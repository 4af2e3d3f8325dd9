/** One turn of a parse loop: what reading a tag and its value does to the meaning of the rest of the input. */
module ParseSteps {
  import opened Wrappers
  import opened Wire
  import opened Records
  import opened Messages
  import opened MessageLaws

  /** Reading the next record of a message in place. */
  lemma ParseStep(rt: Runtime, m: Message, b: bytes)
    requires b != []
    ensures ParseInto(rt, m, b) ==
            match ReadRecord(rt, b)
            case None => None
            case Some(step) =>
              (match Apply(rt, m, step.record)
               case None => None
               case Some(m') => ParseInto(rt, m', b[step.size..]))
  {
    match ReadRecord(rt, b)
    case None =>
    case Some(step) =>
      var rest := Scan(rt, b[step.size..]);
      if rest.Some? {
        assert ([step.record] + rest.value)[1..] == rest.value;
      }
  }

  /** The record behind a tag that has been read. */
  lemma RecordBehindTag(rt: Runtime, b: bytes)
    requires ReadTag(rt, b).Some? && ReadTag(rt, b).value.value / 8 != 0
    ensures var tag := ReadTag(rt, b).value;
            var field := ReadValue(rt, tag.value % 8, b[tag.size..]);
            && ReadRecord(rt, b).Some? == field.Some?
            && (field.Some? ==>
                  && ReadRecord(rt, b) ==
                     Some(Step(Record(tag.value / 8, field.value.value), tag.size + field.value.size))
                  && b[tag.size + field.value.size..] == b[tag.size..][field.value.size..])
  {
    hide ReadTag, ReadValue;
  }

  /** A turn of the loop that succeeds: the rest of the input goes into the updated message. */
  lemma Turn(rt: Runtime, m: Message, b: bytes, tag: Varint, field: Field, m': Message)
    requires ReadTag(rt, b) == Some(tag) && tag.value / 8 != 0
    requires ReadValue(rt, tag.value % 8, b[tag.size..]) == Some(field)
    requires Apply(rt, m, Record(tag.value / 8, field.value)) == Some(m')
    ensures ParseInto(rt, m, b) == ParseInto(rt, m', b[tag.size..][field.size..])
    ensures |b[tag.size..][field.size..]| < |b|
  {
    hide ReadTag, ReadValue, ReadRecord, Apply, ParseInto;
    RecordBehindTag(rt, b);
    ParseStep(rt, m, b);
  }

  /** A turn of the loop that fails: no tag, no value, or a malformed embedded message. */
  lemma TurnFails(rt: Runtime, m: Message, b: bytes)
    requires b != []
    requires
      || ReadTag(rt, b).None?
      || ReadTag(rt, b).value.value / 8 == 0
      || (var tag := ReadTag(rt, b).value;
          var field := ReadValue(rt, tag.value % 8, b[tag.size..]);
          field.None? || Apply(rt, m, Record(tag.value / 8, field.value.value)).None?)
    ensures ParseInto(rt, m, b) == None
  {
    hide ReadTag, ReadValue, Apply, ParseInto;
    ParseStep(rt, m, b);
    if ReadTag(rt, b).Some? && ReadTag(rt, b).value.value / 8 != 0 { RecordBehindTag(rt, b); }
  }

  /** The meaning of an input whose next tag has been read already. */
  function AfterTag(rt: Runtime, m: Message, tag: nat, b: bytes): Option<Message> {
    match ReadValue(rt, tag % 8, b)
    case None => None
    case Some(field) =>
      match Apply(rt, m, Record(tag / 8, field.value))
      case None => None
      case Some(m') => ParseInto(rt, m', b[field.size..])
  }

  lemma AfterTagStep(rt: Runtime, m: Message, tag: nat, b: bytes, field: Field, m': Message)
    requires ReadValue(rt, tag % 8, b) == Some(field) && Apply(rt, m, Record(tag / 8, field.value)) == Some(m')
    ensures AfterTag(rt, m, tag, b) == ParseInto(rt, m', b[field.size..])
  {}

  lemma AfterTagFails(rt: Runtime, m: Message, tag: nat, b: bytes)
    requires var field := ReadValue(rt, tag % 8, b);
             field.None? || Apply(rt, m, Record(tag / 8, field.value.value)).None?
    ensures AfterTag(rt, m, tag, b) == None
  {}

  lemma TagRead(rt: Runtime, m: Message, b: bytes)
    requires b != []
    ensures ParseInto(rt, m, b) ==
            match ReadTag(rt, b)
            case None => None
            case Some(tag) => if tag.value / 8 == 0 then None else AfterTag(rt, m, tag.value, b[tag.size..])
  {
    hide ReadTag, ReadValue, Apply, ParseInto;
    ParseStep(rt, m, b);
    if ReadTag(rt, b).Some? && ReadTag(rt, b).value.value / 8 != 0 { RecordBehindTag(rt, b); }
  }

  /** A one-byte tag needs no decoding. */
  lemma OneByteTag(rt: Runtime, b: bytes)
    requires b != [] && b[0] < 128
    ensures ReadTag(rt, b) == Some(Varint(b[0], 1))
  {}

  lemma SliceDrop(b: bytes, start: nat, limit: nat, k: nat)
    requires start + k <= limit <= |b|
    ensures b[start..limit][k..] == b[start + k..limit]
  {}

  /** A turn at a position of a buffer: what is read there goes into the message, or the parse fails. */
  lemma BufferTurn(rt: Runtime, m: Message, buf: bytes, ptr: nat, limit: nat, m': Option<Message>)
    requires ptr < limit <= |buf| && ReadTag(rt, buf[ptr..limit]).Some?
    requires var tag := ReadTag(rt, buf[ptr..limit]).value;
             var field := if tag.value / 8 == 0 then None
                          else ReadValue(rt, tag.value % 8, buf[ptr + tag.size..limit]);
             m' == if field.None? then None else Apply(rt, m, Record(tag.value / 8, field.value.value))
    ensures ParseInto(rt, m, buf[ptr..limit]) ==
            if m'.None? then None
            else
              var tag := ReadTag(rt, buf[ptr..limit]).value;
              var field := ReadValue(rt, tag.value % 8, buf[ptr + tag.size..limit]).value;
              ParseInto(rt, m'.value, buf[ptr + tag.size + field.size..limit])
  {
    hide ReadTag, ReadValue, Apply, ParseInto;
    var b := buf[ptr..limit];
    var tag := ReadTag(rt, b).value;
    SliceDrop(buf, ptr, limit, tag.size);
    if m'.None? {
      TurnFails(rt, m, b);
    } else {
      var field := ReadValue(rt, tag.value % 8, buf[ptr + tag.size..limit]).value;
      SliceDrop(buf, ptr + tag.size, limit, field.size);
      Turn(rt, m, b, tag, field, m'.value);
    }
  }

  /** The payload of a length-delimited value as a part of the buffer. */
  lemma PayloadSlice(rt: Runtime, buf: bytes, ptr: nat, limit: nat)
    requires ptr <= limit <= |buf|
    ensures match ReadLength(rt, buf[ptr..limit])
            case None => ReadValue(rt, 2, buf[ptr..limit]) == None
            case Some(n) =>
              && ptr + n.size + n.value <= limit
              && ReadValue(rt, 2, buf[ptr..limit]) ==
                 Some(Field(LEN(buf[ptr + n.size..ptr + n.size + n.value]), n.size + n.value))
  {
    hide ReadLength;
    if ReadLength(rt, buf[ptr..limit]).Some? {
      var n := ReadLength(rt, buf[ptr..limit]).value;
      SliceOfSlice(buf, ptr, limit, n.size, n.size + n.value);
    }
  }

  /** Switching on the field number and checking the low byte is switching on the whole tag. */
  lemma LowByteDispatch(tag: nat, known: nat)
    requires known < 128
    ensures tag / 8 == known / 8 && tag % 256 == known <==> tag == known
  {}

  // ------------------------------------------------------------- the plain loop

  /** A message, and the input that is left for it. */
  datatype Rest = Rest(message: Message, input: bytes)

  /** So many turns of the loop that reads one tag a turn; None if one fails or there is no input for it. */
  function Turns(rt: Runtime, m: Message, b: bytes, n: nat): Option<Rest>
    decreases n
  {
    if n == 0 then Some(Rest(m, b))
    else if b == [] then None
    else
      match ReadRecord(rt, b)
      case None => None
      case Some(step) =>
        match Apply(rt, m, step.record)
        case None => None
        case Some(m') => Turns(rt, m', b[step.size..], n - 1)
  }

  lemma {:induction false} TurnsOneMore(rt: Runtime, m: Message, b: bytes, n: nat)
    ensures Turns(rt, m, b, n + 1) ==
            match Turns(rt, m, b, n)
            case None => None
            case Some(r) => Turns(rt, r.message, r.input, 1)
    decreases n
  {
    hide ReadRecord, Apply;
    if n > 0 && b != [] && ReadRecord(rt, b).Some? {
      var step := ReadRecord(rt, b).value;
      var m' := Apply(rt, m, step.record);
      if m'.Some? { TurnsOneMore(rt, m'.value, b[step.size..], n - 1); }
    }
  }

  /** Turns do not change what the input means; a turn that fails on some input makes it malformed. */
  lemma {:induction false} TurnsKeepMeaning(rt: Runtime, m: Message, b: bytes, n: nat)
    requires Turns(rt, m, b, n).Some?
    ensures var r := Turns(rt, m, b, n).value; ParseInto(rt, m, b) == ParseInto(rt, r.message, r.input)
    decreases n
  {
    hide ReadRecord, Apply, ParseInto;
    if n > 0 {
      ParseStep(rt, m, b);
      var step := ReadRecord(rt, b).value;
      TurnsKeepMeaning(rt, Apply(rt, m, step.record).value, b[step.size..], n - 1);
    }
  }

  lemma FailedTurn(rt: Runtime, m: Message, b: bytes)
    requires b != [] && Turns(rt, m, b, 1).None?
    ensures ParseInto(rt, m, b) == None
  {
    hide ReadRecord, Apply, ParseInto;
    ParseStep(rt, m, b);
    NoTurns(rt, m, b);
  }

  lemma NoTurns(rt: Runtime, m: Message, b: bytes)
    ensures forall m', b' :: Turns(rt, m', b', 0) == Some(Rest(m', b'))
  {}

  /** A turn on a tag 10 of one byte. */
  lemma ItemTurn(rt: Runtime, m: Message, b: bytes)
    ensures Turns(rt, m, [10] + b, 1) ==
            match ReadValue(rt, 2, b)
            case None => None
            case Some(field) =>
              (match Apply(rt, m, Record(1, field.value))
               case None => None
               case Some(m') => Some(Rest(m', b[field.size..])))
    ensures ParseInto(rt, m, [10] + b) == AfterTag(rt, m, 10, b)
  {
    hide ReadValue, Apply, ParseInto, AfterTag;
    OneByteTag(rt, [10] + b);
    TagRead(rt, m, [10] + b);
    assert ([10] + b)[1..] == b;
    RecordBehindTag(rt, [10] + b);
  }

  // What a record does to a message, by the whole tag.

  lemma HeaderSwitch(h: Header, tag: nat, value: Value)
    requires value.WireType() == tag % 8
    ensures ApplyHeader(h, Record(tag / 8, value)) ==
            if tag == 8 then h.(userId := Some(value.v % TWO_32))
            else if tag == 18 then h.(typeName := Some(value.payload))
            else if tag == 26 then h.(arr := Some(value.payload))
            else if tag == 32 then h.(arrSize := Some(value.v % TWO_32))
            else h.(unknown := h.unknown + [Record(tag / 8, value)])
  {}

  lemma ItemSwitch(i: ItemInfo, tag: nat, value: Value)
    requires value.WireType() == tag % 8
    ensures ApplyItem(i, Record(tag / 8, value)) ==
            if tag == 8 then i.(itemid := ToInt32(value.v))
            else if tag == 18 then i.(itemName := value.payload)
            else if tag == 26 then i.(itemDesc := value.payload)
            else if tag == 32 then i.(count := value.v % TWO_32)
            else i.(unknown := i.unknown + [Record(tag / 8, value)])
  {}

  lemma PositionSwitch(p: Position, tag: nat, value: Value)
    requires value.WireType() == tag % 8
    ensures ApplyPosition(p, Record(tag / 8, value)) ==
            if tag == 13 then p.(x := Some(value.n % TWO_32))
            else if tag == 21 then p.(y := Some(value.n % TWO_32))
            else if tag == 29 then p.(z := Some(value.n % TWO_32))
            else if tag == 32 then p.(index := Some(ToInt32(value.v)))
            else p.(unknown := p.unknown + [Record(tag / 8, value)])
  {}

  lemma ParseNothing(rt: Runtime, m: Message)
    ensures ParseInto(rt, m, []) == Some(m)
  {}

  /** An embedded item is read as an item message of its own. */
  lemma {:induction false} ParseItemAsMessage(rt: Runtime, i: ItemInfo, b: bytes)
    ensures ParseInto(rt, ItemMessage(i), b) ==
            match ParseItem(rt, i, b) case None => None case Some(i') => Some(ItemMessage(i'))
  {
    if Scan(rt, b).Some? { FoldItemMessage(rt, i, Scan(rt, b).value); }
  }
}
