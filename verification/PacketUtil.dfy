/**
 The packet framing of the client: a payload is serialised, wrapped in a
 messageHeader, and that is serialised behind a four-byte big-endian length.
 */
module PacketUtil {
  import opened Wrappers
  import opened Wire
  import opened Records
  import opened Messages
  import opened CodecTheorems
  import opened Layouts
  import opened CsCodedStreams
  import opened CsMessages

  // ------------------------------------------------------------ the length word

  /** Big-endian two's complement; the shifts are arithmetic, the masks keep the low byte. */
  function Int32Bytes(value: int32): (b: bytes)
    ensures |b| == 4
  {
    [(value / 0x100_0000) % 256, (value / 0x1_0000) % 256, (value / 0x100) % 256, value % 256]
  }

  function BigEndian(b: bytes): (n: nat)
    requires |b| >= 4
    ensures n < TWO_32
  {
    (b[0] as int) * 0x100_0000 + (b[1] as int) * 0x1_0000 + (b[2] as int) * 0x100 + b[3]
  }

  /** Reads the first four bytes; fewer are an error. */
  function BytesInt32(b: bytes): Option<int32> {
    if |b| < 4 then None else Some(ToInt32(BigEndian(b)))
  }

  lemma LowBytes(value: int)
    ensures value / 0x100_0000 % 256 * 0x100_0000 + value / 0x1_0000 % 256 * 0x1_0000 +
            value / 0x100 % 256 * 0x100 + value % 256 ==
            value % TWO_32
  {
    var n0, n1, n2 := value / 0x100, value / 0x1_0000, value / 0x100_0000;
    assert n1 == n0 / 0x100 && n2 == n1 / 0x100;
    assert value == 0x100 * n0 + value % 256 && n0 == 0x100 * n1 + n0 % 256 && n1 == 0x100 * n2 + n1 % 256;
    assert n2 == 256 * (n2 / 256) + n2 % 256 && n2 / 256 == value / TWO_32;
  }

  lemma BigEndianOfBytes(value: int32)
    ensures BigEndian(Int32Bytes(value)) == value % TWO_32
  {
    LowBytes(value);
  }

  lemma BigEndianPrefix(b: bytes, rest: bytes)
    requires |b| == 4
    ensures BigEndian(b + rest) == BigEndian(b)
  {}

  lemma SignOfLowBytes(value: int32)
    ensures ToInt32(value % TWO_32) == value
  {}

  lemma BytesOfInt32(value: int32, rest: bytes)
    ensures BytesInt32(Int32Bytes(value) + rest) == Some(value)
  {
    hide Int32Bytes, BigEndian, ToInt32;
    BigEndianPrefix(Int32Bytes(value), rest);
    BigEndianOfBytes(value);
    SignOfLowBytes(value);
  }

  /** The length word is in network order, the reverse of the order of a varint or a fixed-width integer. */
  lemma NetworkOrder(value: int32, i: nat)
    requires i < 4
    ensures Int32Bytes(value)[3 - i] == LittleEndian(value % TWO_32, 4)[i]
  {
    var n, q := value % TWO_32, value / TWO_32;
    LittleEndianDigits(n, 4, i);
    ByteOf(value, i);
    hide Int32Bytes, Pow256;
    assert value == TWO_32 * q + n;
    LowByteOf(value, Pow256(i), Pow256(3 - i), n, q);
  }

  lemma ByteOf(value: int32, i: nat)
    requires i < 4
    ensures Pow256(i) > 0 && Pow256(i) * (256 * Pow256(3 - i)) == TWO_32
    ensures Int32Bytes(value)[3 - i] == value / Pow256(i) % 256
  {
    assert Pow256(1) == 0x100 && Pow256(2) == 0x1_0000 && Pow256(3) == 0x100_0000;
  }

  /** Bytes below the top of a number are those of its low 32 bits. */
  lemma LowByteOf(value: int, p: nat, k: nat, n: nat, q: int)
    requires p > 0 && value == p * (256 * k) * q + n
    ensures value / p % 256 == n / p % 256
  {
    HighPart(value, p, k, q, n, n / p, n % p);
    QuotientUnique(value, p, 256 * (k * q) + n / p, n % p);
    ModuloMultiple(k * q, n / p);
  }

  lemma HighPart(value: int, p: nat, k: nat, q: int, n: nat, m: nat, r: nat)
    requires value == p * (256 * k) * q + n && n == p * m + r
    ensures value == p * (256 * (k * q) + m) + r
  {
    assert p * (256 * k) * q == p * (256 * (k * q));
  }

  lemma ModuloMultiple(t: int, m: nat)
    ensures (256 * t + m) % 256 == m % 256
  {}

  lemma Digits(h: int, b1: byte, b2: byte, b3: byte)
    requires -128 <= h < 128
    ensures Int32Bytes(h * 0x100_0000 + (b1 as int) * 0x1_0000 + (b2 as int) * 0x100 + b3) ==
            [if h < 0 then h + 256 else h, b1, b2, b3]
  {
    var v := h * 0x100_0000 + (b1 as int) * 0x1_0000 + (b2 as int) * 0x100 + b3;
    var n2 := h;
    var n1: int := n2 * 0x100 + b1;
    var n0: int := n1 * 0x100 + b2;
    assert v == n0 * 0x100 + b3;
    assert v / 0x100 == n0 && n0 / 0x100 == n1 && n1 / 0x100 == n2;
    assert v / 0x1_0000 == n1 && v / 0x100_0000 == n2;
  }

  /** The sign of the first byte is that of the number. */
  lemma SignOfDigits(b0: byte, rest: nat)
    requires rest < 0x100_0000
    ensures ToInt32((b0 as int) * 0x100_0000 + rest) ==
            (if b0 < 128 then b0 as int else (b0 as int) - 256) * 0x100_0000 + rest
  {}

  lemma SignedDigits(b: bytes, h: int)
    requires |b| == 4 && h == if b[0] < 128 then b[0] as int else (b[0] as int) - 256
    ensures BytesInt32(b) == Some(h * 0x100_0000 + (b[1] as int) * 0x1_0000 + (b[2] as int) * 0x100 + b[3])
  {
    hide ToInt32;
    SignOfDigits(b[0], (b[1] as int) * 0x1_0000 + (b[2] as int) * 0x100 + b[3]);
  }

  lemma Int32OfBytes(b: bytes)
    requires |b| == 4
    ensures Int32Bytes(BytesInt32(b).value) == b
  {
    hide Int32Bytes;
    var h: int := if b[0] < 128 then b[0] else (b[0] as int) - 256;
    SignedDigits(b, h);
    hide BytesInt32;
    Digits(h, b[1], b[2], b[3]);
    assert b == [b[0], b[1], b[2], b[3]];
  }

  method Int32ToByteArray(value: int32) returns (a: array<byte>)
    ensures fresh(a) && a[..] == Int32Bytes(value)
  {
    a := new byte[4](_ => 0);
    a[0] := (value / 0x100_0000) % 256;
    a[1] := (value / 0x1_0000) % 256;
    a[2] := (value / 0x100) % 256;
    a[3] := value % 256;
  }

  method ByteArrayToInt32(a: array<byte>) returns (r: Option<int32>)
    ensures r == BytesInt32(a[..])
  {
    if a.Length < 4 { return None; }
    r := Some(ToInt32((a[0] as int) * 0x100_0000 + (a[1] as int) * 0x1_0000 + (a[2] as int) * 0x100 + a[3]));
  }

  // ----------------------------------------------------------------- the frame

  function Ascii(s: string): (b: bytes)
    ensures |b| == |s|
  {
    seq(|s|, i requires 0 <= i < |s| => (s[i] as int) % 256)
  }

  /** The full name of a message type. */
  function FullName(m: Message): (s: string)
    ensures |s| < 64
  {
    match m
    case HeaderMessage(_) => "CKPacket.messageHeader"
    case ItemMessage(_) => "CKPacket.itemInfo"
    case PositionMessage(_) => "CKPacket.reqPlayerPosition"
    case AddToItemMessage(_) => "CKPacket.reqAddToItem"
    case InventoryMessage(_) => "CKPacket.resInventoryItems"
  }

  /** Different message types have different names. */
  lemma FullNameTellsType(m: Message, n: Message)
    requires Ascii(FullName(m)) == Ascii(FullName(n))
    ensures m.New() == n.New()
  {
    var s, t := FullName(m), FullName(n);
    assert |s| == |Ascii(s)| == |Ascii(t)| == |t|;
    assert Ascii(s)[12] == Ascii(t)[12];
    assert (s[12] as int) % 256 == (t[12] as int) % 256;
  }

  /** The text that bytes below 128 stand for. */
  function TextOf(b: bytes): (s: string)
    ensures |s| == |b|
  {
    seq(|b|, i requires 0 <= i < |b| => b[i] as char)
  }

  /** The type a receiver is registered for by a name: the package and the name in the schema. */
  function TypeNamed(name: string): Option<Message> {
    match name
    case "CKPacket.messageHeader" => Some(HeaderMessage(NEW_HEADER))
    case "CKPacket.itemInfo" => Some(ItemMessage(NEW_ITEM))
    case "CKPacket.reqPlayerPosition" => Some(PositionMessage(NEW_POSITION))
    case "CKPacket.reqAddToItem" => Some(AddToItemMessage(NEW_ADD_TO_ITEM))
    case "CKPacket.resInventoryItems" => Some(InventoryMessage(NEW_INVENTORY))
    case _ => None
  }

  /** A name reaches the receivers of a type exactly if it is the name a message of the type is packed with. */
  lemma NamedExactly(m: Message, name: string)
    ensures TypeNamed(name) == Some(m.New()) <==> name == FullName(m)
  {}

  /** The bytes of a name stand for the name. */
  lemma NameInBytes(m: Message)
    ensures TextOf(Ascii(FullName(m))) == FullName(m)
  {
    NamesAreAscii(m);
    AsciiText(FullName(m));
  }

  lemma NamesAreAscii(m: Message)
    ensures forall i | 0 <= i < |FullName(m)| :: FullName(m)[i] as int < 128
  {}

  lemma AsciiText(s: string)
    requires forall i | 0 <= i < |s| :: s[i] as int < 128
    ensures TextOf(Ascii(s)) == s
  {
    assert forall i | 0 <= i < |s| :: TextOf(Ascii(s))[i] == s[i];
  }

  function PackedHeader(m: Message): Header {
    Header(None, Some(Ascii(FullName(m))), Some(Write(m)), Some(|Write(m)| % TWO_32), [])
  }

  function HeaderBytes(m: Message): bytes {
    Write(HeaderMessage(PackedHeader(m)))
  }

  /** The payload and its frame are within the lengths an int can count. */
  predicate Framable(m: Message) {
    m.Valid() && m.Fits() && |Write(m)| < TWO_31 && |HeaderBytes(m)| + 4 < TWO_31
  }

  function Frame(m: Message): bytes
    requires Framable(m)
  {
    Int32Bytes(|HeaderBytes(m)|) + HeaderBytes(m)
  }

  function Unpacked(buffer: bytes): Option<Header> {
    match BytesInt32(buffer)
    case None => None
    case Some(length) =>
      if length < 0 || 4 + length > |buffer| then None
      else
        match ParseInto(CSharp, HeaderMessage(NEW_HEADER), buffer[4..4 + length])
        case Some(HeaderMessage(h)) => Some(h)
        case _ => None
  }

  /** The message of the type of `m` inside a header; the size is cast to a signed int. */
  function Created(m: Message, h: Header): Option<Message> {
    var size := ToInt32(h.arrSize.GetOr(0));
    if size < 0 || size > |h.arr.GetOr([])| then None
    else ParseInto(CSharp, m.New(), h.arr.GetOr([])[..size])
  }

  lemma PackedHeaderValid(m: Message)
    requires Framable(m)
    ensures PackedHeader(m).Valid() && HeaderMessage(PackedHeader(m)).Fits()
  {}

  lemma UnpackFrame(m: Message, rest: bytes)
    requires Framable(m)
    ensures Unpacked(Frame(m) + rest) == Some(PackedHeader(m))
  {
    hide Write, ParseInto, PackedHeader, BytesInt32, Int32Bytes;
    var body := HeaderBytes(m);
    PackedHeaderValid(m);
    RoundTrip(CSharp, HeaderMessage(PackedHeader(m)));
    BytesOfInt32(|body|, body + rest);
    assert Frame(m) + rest == Int32Bytes(|body|) + (body + rest);
    assert (Frame(m) + rest)[4..4 + |body|] == body;
  }

  lemma CreatePacked(m: Message)
    requires Framable(m)
    ensures Created(m, PackedHeader(m)) == Some(m)
  {
    hide Write, ParseInto, HeaderBytes, Ascii, FullName;
    RoundTrip(CSharp, m);
    assert Write(m)[..|Write(m)|] == Write(m);
  }

  /**
   The whole stack: unpacking a packed message, whatever follows it, gives a
   header with the name, the payload and its size, and with nothing else set; the
   message created from that is the one packed, and its name tells its type.
   */
  lemma PackUnpack(m: Message, rest: bytes)
    requires Framable(m)
    ensures var unpacked := Unpacked(Frame(m) + rest);
            && unpacked.Some?
            && unpacked.value.userId == None && unpacked.value.unknown == []
            && unpacked.value.arr == Some(Write(m)) && unpacked.value.arrSize == Some(|Write(m)|)
            && Created(m, unpacked.value) == Some(m)
            && unpacked.value.typeName.Some? && TypeNamed(TextOf(unpacked.value.typeName.value)) == Some(m.New())
  {
    hide Write, ParseInto, Ascii, FullName, HeaderBytes, Unpacked, Created, TypeNamed, TextOf;
    UnpackFrame(m, rest);
    CreatePacked(m);
    NameInBytes(m);
    NamedExactly(m, FullName(m));
  }

  lemma FrameLength(m: Message, x: bytes)
    requires Framable(m)
    ensures BytesInt32(Frame(m) + x) == Some(|HeaderBytes(m)|)
    ensures |Frame(m)| == 4 + |HeaderBytes(m)|
  {
    hide HeaderBytes, Int32Bytes, BytesInt32, Write;
    var body := HeaderBytes(m);
    assert |body| < TWO_31;
    BytesOfInt32(|body|, body + x);
    AppendTwo(Int32Bytes(|body|), body, x);
  }

  /** Frames are prefix-free: what stands in front decides where a frame ends. */
  lemma FramePrefixFree(m: Message, n: Message, x: bytes, y: bytes)
    requires Framable(m) && Framable(n)
    requires Frame(m) + x == Frame(n) + y
    ensures m == n && x == y
  {
    hide Write, ParseInto, Ascii, FullName, Frame, Framable, HeaderBytes, BytesInt32, Unpacked;
    FrameLength(m, x);
    FrameLength(n, y);
    assert x == (Frame(m) + x)[|Frame(m)|..] == (Frame(n) + y)[|Frame(n)|..] == y;
    PackUnpack(m, x);
    PackUnpack(n, y);
    FullNameTellsType(m, n);
  }

  function Frames(ms: seq<Message>): bytes
    requires forall m | m in ms :: Framable(m)
  {
    if ms == [] then [] else Frame(ms[0]) + Frames(ms[1..])
  }

  /** A stream of frames stands for one sequence of messages only. */
  lemma {:induction false} FramesUnique(ms: seq<Message>, ns: seq<Message>)
    requires forall m | m in ms :: Framable(m)
    requires forall n | n in ns :: Framable(n)
    requires Frames(ms) == Frames(ns)
    ensures ms == ns
  {
    hide Framable, Int32Bytes, HeaderBytes;
    if ms != [] && ns != [] {
      FramePrefixFree(ms[0], ns[0], Frames(ms[1..]), Frames(ns[1..]));
      FramesUnique(ms[1..], ns[1..]);
      assert ms == [ms[0]] + ms[1..] && ns == [ns[0]] + ns[1..];
    } else {
      FramesNotEmpty(ms);
      FramesNotEmpty(ns);
    }
  }

  lemma FramesNotEmpty(ms: seq<Message>)
    requires forall m | m in ms :: Framable(m)
    ensures ms != [] ==> |Frames(ms)| >= 4
  {}

  // -------------------------------------------------------------- the methods

  /** A reference to one of the modelled messages, or null. */
  datatype IMessage =
    | NullMessage
    | HeaderObject(header: CsHeader)
    | ItemObject(item: CsItemInfo)
    | PositionObject(position: CsPosition)
    | AddToItemObject(add: CsAddToItem)
    | InventoryObject(inventory: CsInventory)
  {
    function Root(): set<object> {
      match this
      case NullMessage => {}
      case HeaderObject(h) => {h}
      case ItemObject(i) => {i}
      case PositionObject(p) => {p}
      case AddToItemObject(a) => {a}
      case InventoryObject(v) => {v}
    }

    function Objects(): set<object>
      reads Root()
    {
      match this
      case AddToItemObject(a) => a.Owned()
      case InventoryObject(v) => set i | i in v.items_
      case _ => {}
    }

    function Value(): Message
      requires !NullMessage?
      reads Root(), Objects()
    {
      match this
      case HeaderObject(h) => HeaderMessage(h.Value())
      case ItemObject(i) => ItemMessage(i.Value())
      case PositionObject(p) => PositionMessage(p.Value())
      case AddToItemObject(a) => AddToItemMessage(a.Value())
      case InventoryObject(v) => InventoryMessage(v.Value())
    }
  }

  method ToByteString(message: IMessage) returns (b: bytes)
    requires !message.NullMessage? && message.Value().Valid()
    ensures b == Write(message.Value())
  {
    hide Print;
    var output := new CodedOutput();
    match message {
      case HeaderObject(h) => h.InternalWriteTo(output);
      case ItemObject(i) => i.InternalWriteTo(output);
                            ItemLayout(i.Value());
      case PositionObject(p) => p.InternalWriteTo(output);
      case AddToItemObject(a) => a.InternalWriteTo(output);
      case InventoryObject(v) => v.InternalWriteTo(output);
    }
    b := output.buffer;
    assert [] + b == b;
  }

  /** The length word and the bytes behind it, copied into one array. */
  method PrefixLength(msgBuf: bytes) returns (buffer: array<byte>)
    requires |msgBuf| + 4 < TWO_31
    ensures fresh(buffer) && buffer[..] == Int32Bytes(|msgBuf|) + msgBuf
  {
    hide Int32Bytes;
    buffer := new byte[|msgBuf| + 4](_ => 0);
    var length := Int32ToByteArray(|msgBuf|);
    forall i | 0 <= i < 4 { buffer[i] := length[i]; }
    forall i | 4 <= i < |msgBuf| + 4 { buffer[i] := msgBuf[i - 4]; }
    assert buffer[..4] == length[..];
    assert buffer[4..] == msgBuf;
    assert buffer[..] == buffer[..4] + buffer[4..];
  }

  method WrapPayload(arr: bytes, typeName: bytes) returns (messageHeader: CsHeader)
    ensures fresh(messageHeader)
    ensures messageHeader.Value() == Header(None, Some(typeName), Some(arr), Some(|arr| % TWO_32), [])
  {
    messageHeader := new CsHeader();
    messageHeader.SetArr(arr);
    messageHeader.SetArrSize(|arr| % TWO_32);
    messageHeader.SetType(typeName);
  }

  lemma ValueOfHeader(h: CsHeader)
    ensures HeaderObject(h).Value() == HeaderMessage(h.Value())
  {}

  method Pack(message: IMessage) returns (ok: bool, header: array?<byte>)
    requires message.NullMessage? || Framable(message.Value())
    ensures ok == !message.NullMessage?
    ensures if ok then header != null && fresh(header) && header[..] == Frame(message.Value()) else header == null
  {
    if message.NullMessage? { return false, null; }
    hide Write, Int32Bytes, Ascii, FullName, IMessage.Value;
    ghost var m := message.Value();
    var typeName := Ascii(FullName(message.Value()));
    var arr := ToByteString(message);

    var messageHeader := WrapPayload(arr, typeName);
    PackedHeaderValid(m);
    ValueOfHeader(messageHeader);
    assert messageHeader.Value() == PackedHeader(m);

    var msgBuf := ToByteString(HeaderObject(messageHeader));
    var buffer := PrefixLength(msgBuf);
    return true, buffer;
  }

  method ParseHeader(buffer: bytes, at: nat, size: nat) returns (ok: bool, header: CsHeader)
    requires at + size <= |buffer|
    ensures fresh(header)
    ensures var m := ParseInto(CSharp, HeaderMessage(NEW_HEADER), buffer[at..at + size]);
            ok == m.Some? && (ok ==> m == Some(HeaderMessage(header.Value())))
  {
    hide ParseInto;
    header := new CsHeader();
    var input := new CodedInput(buffer, at, size);
    assert input.Rest() == buffer[at..at + size];
    ok := header.InternalMergeFrom(input);
  }

  /** `thrown` stands for the exception of a buffer that is too short or malformed. */
  method Unpack(buffer: array?<byte>) returns (ok: bool, thrown: bool, header: CsHeader?)
    ensures buffer == null ==> !ok && !thrown && header == null
    ensures buffer != null ==> ok == !thrown == Unpacked(buffer[..]).Some?
    ensures ok ==> header != null && fresh(header) && Unpacked(buffer[..]) == Some(header.Value())
  {
    if buffer == null { return false, false, null; }
    hide ParseInto, Unpacked, BytesInt32;
    var length := ByteArrayToInt32(buffer);
    UnpackedIs(buffer[..]);
    if length.None? || length.value < 0 || 4 + length.value > buffer.Length { return false, true, null; }
    ok, header := ParseHeader(buffer[..], 4, length.value);
    thrown := !ok;
  }

  lemma UnpackedIs(buffer: bytes)
    ensures var length := BytesInt32(buffer);
            if length.None? || length.value < 0 || 4 + length.value > |buffer| then Unpacked(buffer) == None
            else
              var m := ParseInto(CSharp, HeaderMessage(NEW_HEADER), buffer[4..4 + length.value]);
              m.Some? == Unpacked(buffer).Some? && (m.Some? ==> m == Some(HeaderMessage(Unpacked(buffer).value)))
  {
    hide ParseInto, BytesInt32;
  }

  /** Creates the message of a given type from an unpacked header; None stands for an exception. */
  method CreateMessage(messageType: Message, header: CsHeader) returns (message: Option<IMessage>)
    ensures message.Some? ==> !message.value.NullMessage?
    ensures Created(messageType, header.Value()) == if message.Some? then Some(message.value.Value()) else None
  {
    hide ParseInto;
    var arr := header.Value().arr.GetOr([]);
    var size := ToInt32(header.ArrSize());
    if size < 0 || size > |arr| { return None; }
    var input := new CodedInput(arr, 0, size);
    assert input.Rest() == arr[..size];
    var ok;
    match messageType {
      case HeaderMessage(_) =>
        var h := new CsHeader();
        ok := h.InternalMergeFrom(input);
        message := Some(HeaderObject(h));
      case ItemMessage(_) =>
        var i := new CsItemInfo();
        ok := i.InternalMergeFrom(input);
        message := Some(ItemObject(i));
      case PositionMessage(_) =>
        var p := new CsPosition();
        ok := p.InternalMergeFrom(input);
        message := Some(PositionObject(p));
      case AddToItemMessage(_) =>
        var a := new CsAddToItem();
        ok := a.InternalMergeFrom(input);
        message := Some(AddToItemObject(a));
      case InventoryMessage(_) =>
        var v := new CsInventory();
        ok := v.InternalMergeFrom(input);
        message := Some(InventoryObject(v));
    }
    if !ok { message := None; }
  }
}
