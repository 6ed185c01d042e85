/** Frames on the wire: the protocol versions and their start characters,
    the message registry, the view of a received frame (mavlinkMessage),
    the frame createMessage assembles, and what decodeMessage makes of a
    frame's payload. */
module Frames {
  import opened Wrappers
  import opened Bytes
  import opened Checksum
  import opened Layout
  import opened Codec

  /** The version string given to the constructor: "v1.0", "v0.9", or anything else. */
  datatype Version = V1 | V09 | Other

  /** startCharacter: the byte that opens a frame; none for an unknown version. */
  function StartCharacter(v: Version): (r: Option<byte>)
    ensures r.Some? <==> v != Other
  {
    match v
    case V1 => Some(0xFE)
    case V09 => Some(0x55)
    case Other => None
  }

  /** A start byte tells the two known versions apart. */
  lemma StartCharacterIdentifiesVersion(v: Version, w: Version)
    requires StartCharacter(v).Some? && StartCharacter(v) == StartCharacter(w)
    ensures v == w
  {
  }

  /** `msgBuf[0] = this.startCharacter()`: an undefined start character is stored as 0. */
  function StartByte(v: Version): byte
  {
    match StartCharacter(v)
    case Some(b) => b
    case None => 0
  }

  // ---------------------------------------------------------------------
  // The registry: messagesByID, messagesByName, messageChecksums

  /** A registered message: its id and name, its fields as the schema lists
      them, and, in v1.0 only, the layout orderFields gave it. */
  datatype Message = Message(id: nat, name: string, fields: seq<RawField>, layout: Option<Layout>)

  datatype Registry = Registry(byId: map<int, Message>, byName: map<string, Message>, checksums: map<int, byte>)

  /** Every layout in the registry is one orderFields could have made. */
  predicate RegistryOk(byId: map<int, Message>)
  {
    forall id | id in byId :: byId[id].layout.Some? ==> Consistent(byId[id].layout.value)
  }

  /** getMessageID: the id registered under `name`, or -1. */
  function MessageId(byName: map<string, Message>, name: string): (r: int)
    ensures r == -1 <==> name !in byName
    ensures name in byName ==> r == byName[name].id
  {
    if name in byName then byName[name].id else -1
  }

  /** getMessageName: the name registered under `id`, or "". */
  function MessageName(byId: map<int, Message>, id: int): (r: string)
    ensures id in byId ==> r == byId[id].name
    ensures id !in byId ==> r == ""
  {
    if id in byId then byId[id].name else ""
  }

  /** `messageChecksums[id]`, which is undefined for an id without a seed. */
  function SeedOf(checksums: map<int, byte>, id: int): Option<byte>
  {
    if id in checksums then Some(checksums[id]) else None
  }

  // ---------------------------------------------------------------------
  // mavlinkMessage: the view of a frame

  /** A frame: the header bytes, the payload, the checksum as sent, and the
      whole frame as a byte sequence. */
  datatype Frame = Frame(
    length: byte, sequence: byte, system: byte, component: byte, id: byte,
    payload: seq<byte>, checksum: bv16, bytes: seq<byte>)

  /** mavlinkMessage(buffer): the frame at the start of `buf`, whose length
      is its second byte. */
  function FrameOf(buf: seq<byte>): (m: Frame)
    requires 2 <= |buf| && buf[1] as int + 8 <= |buf|
    ensures |m.payload| == m.length && |m.bytes| == m.length + 8
  {
    var len := buf[1];
    Frame(len, buf[2], buf[3], buf[4], buf[5], buf[6..6 + len],
      ReadUInt16LE(buf[len + 6], buf[len + 7]), buf[..len + 8])
  }

  /** The view reads nothing past the frame: bytes after it do not matter. */
  lemma FrameOfPrefix(buf: seq<byte>, frame: seq<byte>)
    requires 2 <= |frame| && frame[1] as int + 8 == |frame|
    requires |frame| <= |buf| && buf[..|frame|] == frame
    ensures FrameOf(buf) == FrameOf(frame)
  {
    assert buf[1] == frame[1];
    var len := frame[1];
    var x := buf[6..6 + len];
    var y := frame[6..6 + len];
    forall i | 0 <= i < len ensures x[i] == y[i] {
      assert buf[6 + i] == buf[..|frame|][6 + i];
    }
    assert buf[len + 6] == frame[len + 6] && buf[len + 7] == frame[len + 7];
  }

  // ---------------------------------------------------------------------
  // createMessage: the frame as assembled

  /** The sequence number after `if (this.sequence++ == 255) this.sequence = 0`. */
  function NextSequence(s: int): int
  {
    if s == 255 then 0 else s + 1
  }

  /** The sequence counter counts 1, 2, ..., 255, 0, 1, ...: it stays a byte
      and steps by one modulo 256. */
  lemma NextSequenceWraps(s: int)
    requires 0 <= s < 256
    ensures 0 <= NextSequence(s) < 256
    ensures NextSequence(s) == (s + 1) % 256
  {
  }

  /** The bytes createMessage assembles in msgBuf: the six header bytes and
      the payload, followed by the checksum, low byte first, of everything
      after the start byte with `seed` appended. */
  function FrameBytes(start: byte, sequence: int, sysid: int, compid: int, id: int, payload: seq<byte>, seed: byte): (r: seq<byte>)
    ensures |r| == |payload| + 8
  {
    var body := [start, ToUint8(|payload|), ToUint8(sequence), ToUint8(sysid), ToUint8(compid), ToUint8(id)] + payload;
    var crc := Crc(body[1..] + [seed]);
    body + [LowByte(crc), HighByte(crc)]
  }

  /** The checksum createMessage appends. */
  function FrameCrc(frame: seq<byte>, seed: byte): bv16
    requires |frame| >= 8
  {
    Crc(frame[1..|frame| - 2] + [seed])
  }

  /** Viewing an assembled frame gives back what went into it: the header
      fields reduced to bytes, the payload, and the checksum over bytes
      1 to len+5 and the seed. */
  lemma FrameOfFrameBytes(start: byte, sequence: int, sysid: int, compid: int, id: int, payload: seq<byte>, seed: byte)
    requires |payload| < 256
    ensures var r := FrameBytes(start, sequence, sysid, compid, id, payload, seed);
      && r[0] == start
      && FrameOf(r) == Frame(|payload|, ToUint8(sequence), ToUint8(sysid), ToUint8(compid), ToUint8(id),
                             payload, FrameCrc(r, seed), r)
  {
    var r := FrameBytes(start, sequence, sysid, compid, id, payload, seed);
    var len := |payload|;
    var body := r[..len + 6];
    var crc := Crc(body[1..] + [seed]);
    assert r == body + [LowByte(crc), HighByte(crc)];
    assert r[1] == len;
    assert r[6..6 + len] == payload;
    assert r[1..|r| - 2] == body[1..];
    ChecksumBytesRoundTrip(crc);
    assert r[..len + 8] == r;
  }

  /** A received frame passes the checksum test when the two bytes after
      its payload are the checksum of the bytes between, with `seed`. */
  predicate ChecksumMatches(frame: seq<byte>, seed: byte)
    requires 2 <= |frame| && frame[1] as int + 8 == |frame|
  {
    var len := frame[1];
    Crc(frame[1..len + 6] + [seed]) == ReadUInt16LE(frame[len + 6], frame[len + 7])
  }

  /** Every assembled frame carries the checksum of its own contents with
      the seed it was built with. */
  lemma FrameBytesChecksum(start: byte, sequence: int, sysid: int, compid: int, id: int, payload: seq<byte>, seed: byte)
    requires |payload| < 256
    ensures var r := FrameBytes(start, sequence, sysid, compid, id, payload, seed);
      r[1] as int + 8 == |r| && ChecksumMatches(r, seed)
  {
    FrameOfFrameBytes(start, sequence, sysid, compid, id, payload, seed);
  }

  /** Why createMessage gives no frame: the message is not registered, it has
      no layout (the payload buffer of an unmeasured message cannot be
      allocated), or a field is missing or cannot be written. */
  datatype CreateError = UnknownMessage | NoLayout | EncodeFailed(err: EncodeError)

  /** The message argument of createMessage: a number, or a name. */
  datatype MessageRef = ById(id: int) | ByName(name: string)

  /** The id createMessage looks up: a number as given, a name through getMessageID. */
  function ResolveId(byName: map<string, Message>, ref: MessageRef): int
  {
    match ref
    case ById(id) => id
    case ByName(name) => MessageId(byName, name)
  }

  /** The settings createMessage and parseChar read: version, own ids, registry. */
  datatype Config = Config(version: Version, sysid: int, compid: int, registry: Registry)

  /** createMessage(msgid, data, sysid): the frame handed to the callback, or
      why there is none. The sequence number used is NextSequence(sequence). */
  function CreateFrame(cfg: Config, sequence: int, ref: MessageRef, data: map<string, Value>, sysid: int): (r: Result<Frame, CreateError>)
  {
    var reg := cfg.registry;
    var id := ResolveId(reg.byName, ref);
    if id !in reg.byId then Err(UnknownMessage)
    else
      match reg.byId[id].layout
      case None => Err(NoLayout)
      case Some(layout) =>
        match EncodePayload(layout, data)
        case Err(e) => Err(EncodeFailed(e))
        case Ok(payload) =>
          var from := if sysid == 0 then cfg.sysid else sysid;
          var seed := if id in reg.checksums then reg.checksums[id] else 0;
          var bytes := FrameBytes(StartByte(cfg.version), NextSequence(sequence), from, cfg.compid, id, payload, seed);
          assert bytes[1] <= |payload|;
          Ok(FrameOf(bytes))
  }

  /** createMessage refuses exactly the unknown messages and the data with
      a field missing or unwritable; a frame it makes has the payload
      length, the next sequence number, the sender and the id in its
      header, and the checksum of its contents with the registered seed. */
  lemma CreateFrameOutcome(cfg: Config, sequence: int, ref: MessageRef, data: map<string, Value>, sysid: int)
    ensures var reg := cfg.registry;
      var id := ResolveId(reg.byName, ref);
      var r := CreateFrame(cfg, sequence, ref, data, sysid);
      && (r == Err(UnknownMessage) <==> id !in reg.byId)
      && (r.Ok? <==> id in reg.byId && reg.byId[id].layout.Some? && EncodePayload(reg.byId[id].layout.value, data).Ok?)
      && (r.Ok? && reg.byId[id].layout.value.payloadLength < 256 && 0 <= id < 256 ==>
            var layout := reg.byId[id].layout.value;
            var m := r.value;
            var seed := if id in reg.checksums then reg.checksums[id] else 0;
            && m.bytes[0] == StartByte(cfg.version)
            && m.length == layout.payloadLength
            && m.sequence == ToUint8(NextSequence(sequence))
            && m.system == ToUint8(if sysid == 0 then cfg.sysid else sysid)
            && m.component == ToUint8(cfg.compid)
            && m.id == id
            && m.payload == EncodePayload(layout, data).value
            && m.bytes[1] as int + 8 == |m.bytes| && ChecksumMatches(m.bytes, seed))
  {
    var reg := cfg.registry;
    var id := ResolveId(reg.byName, ref);
    if id in reg.byId && reg.byId[id].layout.Some? && EncodePayload(reg.byId[id].layout.value, data).Ok? {
      var layout := reg.byId[id].layout.value;
      var payload := EncodePayload(layout, data).value;
      var from := if sysid == 0 then cfg.sysid else sysid;
      var seed := if id in reg.checksums then reg.checksums[id] else 0;
      if layout.payloadLength < 256 {
        FrameOfFrameBytes(StartByte(cfg.version), NextSequence(sequence), from, cfg.compid, id, payload, seed);
        FrameBytesChecksum(StartByte(cfg.version), NextSequence(sequence), from, cfg.compid, id, payload, seed);
      }
    }
  }

  // ---------------------------------------------------------------------
  // decodeMessage

  /** What decodeMessage returns: undefined for an unregistered id, the
      field values, or nothing because a read ran past the payload and threw. */
  datatype Decoding = Undefined | Values(values: map<string, Decoded>) | Unreadable

  /** decodeMessage(message): the fields of the registered layout read from
      the frame's payload. A message registered without a layout (v0.9)
      is treated as undefined. */
  function DecodeMessage(byId: map<int, Message>, m: Frame): Decoding
    requires RegistryOk(byId)
  {
    if m.id !in byId then Undefined
    else
      match byId[m.id].layout
      case None => Undefined
      case Some(layout) =>
        match DecodeFields(layout.fields, m.payload)
        case None => Unreadable
        case Some(values) => Values(values)
  }

  /** The message a frame names is decoded when registered with a layout:
      the values are there exactly when the payload is long enough for
      every field, and then each field has a value. */
  lemma DecodeMessageOutcome(byId: map<int, Message>, m: Frame)
    requires RegistryOk(byId)
    ensures DecodeMessage(byId, m) == Undefined <==> m.id !in byId || byId[m.id].layout.None?
    ensures DecodeMessage(byId, m).Values? ==>
      DecodeMessage(byId, m).values.Keys == set f | f in byId[m.id].layout.value.fields :: f.name
  {
    if DecodeMessage(byId, m).Values? {
      DecodeFieldsKeys(byId[m.id].layout.value.fields, m.payload);
    }
  }

  /** What createMessage writes, decodeMessage reads back: a frame made for
      a message whose every field value fits decodes to the expected value
      of each field. */
  lemma CreateThenDecode(cfg: Config, sequence: int, ref: MessageRef, data: map<string, Value>, sysid: int)
    requires RegistryOk(cfg.registry.byId)
    requires var id := ResolveId(cfg.registry.byName, ref);
      && 0 <= id < 256 && id in cfg.registry.byId
      && cfg.registry.byId[id].layout.Some?
      && cfg.registry.byId[id].layout.value.payloadLength < 256
      && DataFits(cfg.registry.byId[id].layout.value.fields, data)
    ensures var id := ResolveId(cfg.registry.byName, ref);
      var layout := cfg.registry.byId[id].layout.value;
      var r := CreateFrame(cfg, sequence, ref, data, sysid);
      && r.Ok?
      && DecodeMessage(cfg.registry.byId, r.value) == Values(ExpectedValues(layout.fields, data))
  {
    var id := ResolveId(cfg.registry.byName, ref);
    var layout := cfg.registry.byId[id].layout.value;
    assert Consistent(layout);
    PayloadRoundTrip(layout, data);
    CreateFrameOutcome(cfg, sequence, ref, data, sysid);
  }
}
