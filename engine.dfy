/** The engine object: its registry of messages, the receive buffer and
    counters that parseChar updates byte by byte, and the send sequence
    that createMessage advances. Each method is proved against the
    functions of the Frames and Parser modules. */
module Engine {
  import opened Wrappers
  import opened Bytes
  import opened Checksum
  import opened Layout
  import opened Codec
  import opened Frames
  import opened Parser

  // ---------------------------------------------------------------------
  // Registration: addMessage, addMessages, calculateMessageChecksum

  /** The layout orderFields gives a well-formed message. */
  function LayoutOf(raws: seq<RawField>): Layout
    requires WellFormed(raws)
  {
    AnnotatedPositions(raws);
    Layout(SortFields(Annotated(raws)), SumLengths(Annotated(raws)))
  }

  /** That layout is one orderFields may produce, and a consistent one. */
  lemma LayoutOfFacts(raws: seq<RawField>)
    requires WellFormed(raws)
    ensures IsLayoutOf(LayoutOf(raws), raws) && Consistent(LayoutOf(raws))
  {
    AnnotatedPositions(raws);
    LayoutFacts(LayoutOf(raws), raws);
  }

  /** orderFields has exactly one possible result, whatever sort it runs. */
  lemma LayoutOfUnique(layout: Layout, raws: seq<RawField>)
    requires IsLayoutOf(layout, raws)
    ensures layout == LayoutOf(raws)
  {
    LayoutOfFacts(raws);
    OrderedPermutationUnique(layout.fields, LayoutOf(raws).fields);
  }

  /** The message object addMessages stores for `d`: with its layout in
      v1.0, where calculateMessageChecksum has ordered its fields. */
  function MessageFor(version: Version, d: MessageDef): Message
    requires WellFormed(d.fields)
  {
    Message(d.id, d.name, d.fields, if version == V1 then Some(LayoutOf(d.fields)) else None)
  }

  /** The registry after one message of a definition file: in v1.0 the
      derived seed is stored under the id; the message is then stored
      under its id and under its name. */
  function Registered(version: Version, reg: Registry, d: MessageDef): Registry
    requires WellFormed(d.fields)
  {
    var m := MessageFor(version, d);
    var checksums :=
      if version == V1 then reg.checksums[d.id := DerivedSeed(d.name, LayoutOf(d.fields).fields) as int]
      else reg.checksums;
    Registry(reg.byId[d.id := m], reg.byName[d.name := m], checksums)
  }

  /** addMessages(defs): every message in turn. */
  function Register(version: Version, reg: Registry, defs: seq<MessageDef>): Registry
    requires forall d | d in defs :: WellFormed(d.fields)
    decreases |defs|
  {
    if defs == [] then reg
    else Registered(version, Register(version, reg, defs[..|defs| - 1]), defs[|defs| - 1])
  }

  /** One more definition registered. */
  lemma RegisterSnoc(version: Version, reg: Registry, defs: seq<MessageDef>, j: nat)
    requires forall d | d in defs :: WellFormed(d.fields)
    requires j < |defs|
    ensures forall d | d in defs[..j] :: WellFormed(d.fields)
    ensures Register(version, reg, defs[..j + 1]) == Registered(version, Register(version, reg, defs[..j]), defs[j])
  {
    assert defs[..j + 1][..j] == defs[..j];
    assert forall d | d in defs[..j + 1] :: d in defs;
    assert forall d | d in defs[..j] :: d in defs;
  }

  /** Registration keeps every stored layout one that orderFields made. */
  lemma {:induction false} RegisterOk(version: Version, reg: Registry, defs: seq<MessageDef>)
    requires forall d | d in defs :: WellFormed(d.fields)
    requires RegistryOk(reg.byId)
    ensures RegistryOk(Register(version, reg, defs).byId)
    decreases |defs|
  {
    if defs != [] {
      var init := defs[..|defs| - 1];
      assert forall d | d in init :: d in defs;
      RegisterOk(version, reg, init);
      LayoutOfFacts(defs[|defs| - 1].fields);
    }
  }

  /** Registering `d` stores it under its name and keeps every other name. */
  lemma RegisteredByName(version: Version, reg: Registry, d: MessageDef, name: string)
    requires WellFormed(d.fields)
    ensures var r := Registered(version, reg, d);
      && (name == d.name ==> name in r.byName && r.byName[name] == MessageFor(version, d))
      && (name != d.name && name in reg.byName ==> name in r.byName && r.byName[name] == reg.byName[name])
  {
  }

  /** Registering `d` stores it under its id and keeps every other id. */
  lemma RegisteredById(version: Version, reg: Registry, d: MessageDef, id: int)
    requires WellFormed(d.fields)
    ensures var r := Registered(version, reg, d);
      && (id == d.id ==> id in r.byId && r.byId[id] == MessageFor(version, d))
      && (id != d.id && id in reg.byId ==> id in r.byId && r.byId[id] == reg.byId[id])
  {
  }

  /** Registering all but the last definition, then the last one. */
  lemma RegisterLast(version: Version, reg: Registry, defs: seq<MessageDef>)
    requires forall d | d in defs :: WellFormed(d.fields)
    requires defs != []
    ensures forall d | d in defs[..|defs| - 1] :: WellFormed(d.fields)
    ensures Register(version, reg, defs)
      == Registered(version, Register(version, reg, defs[..|defs| - 1]), defs[|defs| - 1])
  {
    assert forall d | d in defs[..|defs| - 1] :: d in defs;
  }

  /** After registration, the last definition with a given name is the
      message stored under that name, so getMessageID finds its id. */
  lemma {:induction false} RegisterFindsName(version: Version, reg: Registry, defs: seq<MessageDef>, i: nat)
    requires forall d | d in defs :: WellFormed(d.fields)
    requires i < |defs| && forall j | i < j < |defs| :: defs[j].name != defs[i].name
    ensures var r := Register(version, reg, defs);
      && defs[i].name in r.byName && r.byName[defs[i].name] == MessageFor(version, defs[i])
      && MessageId(r.byName, defs[i].name) == defs[i].id
    decreases |defs|
  {
    var init := defs[..|defs| - 1];
    var last := defs[|defs| - 1];
    RegisterLast(version, reg, defs);
    RegisteredByName(version, Register(version, reg, init), last, defs[i].name);
    if i < |defs| - 1 {
      assert init[i] == defs[i];
      RegisterFindsName(version, reg, init, i);
    }
  }

  /** After registration, the last definition with a given id is the
      message stored under that id, so getMessageName finds its name. */
  lemma {:induction false} RegisterFindsId(version: Version, reg: Registry, defs: seq<MessageDef>, i: nat)
    requires forall d | d in defs :: WellFormed(d.fields)
    requires i < |defs| && forall j | i < j < |defs| :: defs[j].id != defs[i].id
    ensures var r := Register(version, reg, defs);
      && defs[i].id in r.byId && r.byId[defs[i].id] == MessageFor(version, defs[i])
      && MessageName(r.byId, defs[i].id) == defs[i].name
    decreases |defs|
  {
    var init := defs[..|defs| - 1];
    var last := defs[|defs| - 1];
    RegisterLast(version, reg, defs);
    RegisteredById(version, Register(version, reg, init), last, defs[i].id);
    if i < |defs| - 1 {
      assert init[i] == defs[i];
      RegisterFindsId(version, reg, init, i);
    }
  }

  /** In v1.0, after registration the seed stored for an id is the seed
      derived from the last definition with that id. */
  lemma {:induction false} RegisterStoresSeed(reg: Registry, defs: seq<MessageDef>, i: nat)
    requires forall d | d in defs :: WellFormed(d.fields)
    requires i < |defs| && forall j | i < j < |defs| :: defs[j].id != defs[i].id
    ensures SeedOf(Register(V1, reg, defs).checksums, defs[i].id)
      == Some(DerivedSeed(defs[i].name, LayoutOf(defs[i].fields).fields) as int)
    decreases |defs|
  {
    var init := defs[..|defs| - 1];
    RegisterLast(V1, reg, defs);
    if i < |defs| - 1 {
      assert init[i] == defs[i];
      RegisterStoresSeed(reg, init, i);
    }
  }

  /** Registration under v0.9 stores no seeds and no layouts. */
  lemma {:induction false} RegisterV09(reg: Registry, defs: seq<MessageDef>)
    requires forall d | d in defs :: WellFormed(d.fields)
    requires forall id | id in reg.byId :: reg.byId[id].layout.None?
    ensures Register(V09, reg, defs).checksums == reg.checksums
    ensures var r := Register(V09, reg, defs); forall id | id in r.byId :: r.byId[id].layout.None?
    decreases |defs|
  {
    if defs != [] {
      var init := defs[..|defs| - 1];
      assert forall d | d in init :: d in defs;
      RegisterV09(reg, init);
    }
  }

  /** One more field's part of the seed string. */
  lemma SeedBytesSnoc(name: string, fields: seq<Field>, i: nat)
    requires i < |fields|
    ensures Utf8(name) + [0x20] + FieldsSeedBytes(fields[..i + 1])
      == (Utf8(name) + [0x20] + FieldsSeedBytes(fields[..i])) + FieldSeedBytes(fields[i])
  {
    assert fields[..i + 1][..i] == fields[..i];
  }

  /** The bytes of calculateMessageChecksum's string, built part by part. */
  method SeedString(name: string, fields: seq<Field>) returns (bytes: seq<byte>)
    ensures bytes == SeedBytes(name, fields)
  {
    bytes := Utf8(name) + [0x20];
    var i := 0;
    while i < |fields|
      invariant 0 <= i <= |fields|
      invariant bytes == Utf8(name) + [0x20] + FieldsSeedBytes(fields[..i])
    {
      SeedBytesSnoc(name, fields, i);
      bytes := bytes + FieldSeedBytes(fields[i]);
      i := i + 1;
    }
    assert fields[..i] == fields;
  }

  /** calculateMessageChecksum(message): order the fields, then fold the
      checksum of the seed string to one byte. */
  method CalculateMessageChecksum(d: MessageDef) returns (layout: Layout, seed: byte)
    requires WellFormed(d.fields)
    ensures layout == LayoutOf(d.fields)
    ensures seed == DerivedSeed(d.name, layout.fields) as int
  {
    var ordered := OrderFields(d.fields);
    layout := ordered.value;
    LayoutOfUnique(layout, d.fields);
    var bytes := SeedString(d.name, layout.fields);
    var checksum := CalculateChecksum(bytes);
    seed := FoldToByte(checksum) as int;
  }

  // ---------------------------------------------------------------------
  // createMessage's frame assembly

  /** createMessage's msgBuf: a zero-filled buffer of the payload length
      plus 8, the six header bytes stored as Buffer stores numbers (reduced
      to a byte), the payload copied in at 6, and the checksum of bytes 1
      to len+5 and the seed written little-endian at len+6. */
  method AssembleFrame(start: byte, sequence: int, sysid: int, compid: int, id: int, payload: seq<byte>, seed: byte)
    returns (bytes: seq<byte>)
    ensures bytes == FrameBytes(start, sequence, sysid, compid, id, payload, seed)
    ensures 2 <= |bytes| && bytes[1] as int + 8 <= |bytes|
  {
    var len := |payload|;
    var msgBuf := new byte[len + 8](_ => 0);
    msgBuf[0] := start;
    msgBuf[1] := ToUint8(len);
    msgBuf[2] := ToUint8(sequence);
    msgBuf[3] := ToUint8(sysid);
    msgBuf[4] := ToUint8(compid);
    msgBuf[5] := ToUint8(id);
    WriteBytes(msgBuf, 6, payload);
    ghost var body := [start, ToUint8(len), ToUint8(sequence), ToUint8(sysid), ToUint8(compid), ToUint8(id)] + payload;
    assert msgBuf[..len + 6] == body by {
      forall k | 0 <= k < len + 6 ensures msgBuf[k] == body[k] {}
    }
    var crcBuf := msgBuf[1..len + 6] + [seed];
    assert crcBuf == body[1..] + [seed];
    var crc := CalculateChecksum(crcBuf);
    msgBuf[len + 6] := LowByte(crc);
    msgBuf[len + 7] := HighByte(crc);
    bytes := msgBuf[..];
    assert bytes == body + [LowByte(crc), HighByte(crc)] by {
      forall k | 0 <= k < len + 8 ensures bytes[k] == (body + [LowByte(crc), HighByte(crc)])[k] {
        if k < len + 6 {
          assert bytes[k] == msgBuf[..len + 6][k];
        }
      }
    }
  }

  /** The work of createMessage on a given registry and send counter: look
      the message up, encode its payload, then assemble the frame with the
      next sequence number and the stored seed. */
  method ComposeFrame(cfg: Config, sequence: int, ref: MessageRef, data: map<string, Value>, sysidArg: int)
    returns (r: Result<Frame, CreateError>)
    ensures r == CreateFrame(cfg, sequence, ref, data, sysidArg)
  {
    var reg := cfg.registry;
    var from := if sysidArg == 0 then cfg.sysid else sysidArg;
    var id := match ref case ById(n) => n case ByName(name) => MessageId(reg.byName, name);
    if id !in reg.byId {
      return Err(UnknownMessage);
    }
    var message := reg.byId[id];
    if message.layout.None? {
      return Err(NoLayout);
    }
    var payload := EncodeInto(message.layout.value, data);
    if payload.Err? {
      return Err(EncodeFailed(payload.error));
    }
    var seed := if id in reg.checksums then reg.checksums[id] else 0;
    var bytes := AssembleFrame(StartByte(cfg.version), NextSequence(sequence), from, cfg.compid, id, payload.value, seed);
    r := Ok(FrameOf(bytes));
  }

  // ---------------------------------------------------------------------
  // The engine object

  class Mavlink {
    /** The protocol version, own system id and own component id. */
    const version: Version
    const sysid: int
    const compid: int

    /** The receive buffer and the receiving counters. */
    const buffer: array<byte>
    var bufferIndex: nat
    var messageLength: nat
    var lastCounter: int

    /** The send sequence counter. */
    var sequence: int

    /** messagesByID, messagesByName and messageChecksums. */
    var messagesById: map<int, Message>
    var messagesByName: map<string, Message>
    var messageChecksums: map<int, byte>

    /** Every event emitted so far, in order. */
    var events: seq<Event>

    /** The settings and registry parseChar and createMessage read. */
    function Cfg(): Config
      reads this
    {
      Config(version, sysid, compid, Registry(messagesById, messagesByName, messageChecksums))
    }

    /** The receiving state. */
    function State(): ParserState
      reads this, buffer
    {
      ParserState(buffer[..], bufferIndex, messageLength, lastCounter)
    }

    predicate Valid()
      reads this, buffer
    {
      && buffer.Length == BufferSize
      && 0 <= sequence < 256
      && Inv(State())
      && RegistryOk(messagesById)
    }

    /** new mavlink(sysid, compid, version): nothing registered yet (the
        definition files are not read here), nothing received, sequence 0. */
    constructor (sysid: int, compid: int, version: Version)
      ensures Valid() && fresh(buffer)
      ensures this.sysid == sysid && this.compid == compid && this.version == version
      ensures bufferIndex == 0 && messageLength == 0 && lastCounter == 0 && sequence == 0
      ensures messagesById == map[] && messagesByName == map[] && messageChecksums == map[]
      ensures events == []
    {
      this.version := version;
      this.sysid := sysid;
      this.compid := compid;
      buffer := new byte[BufferSize];
      bufferIndex := 0;
      messageLength := 0;
      lastCounter := 0;
      sequence := 0;
      messagesById := map[];
      messagesByName := map[];
      messageChecksums := map[];
      events := [];
    }

    /** addMessage(message): store the message under its id and its name. */
    method AddMessage(m: Message)
      requires Valid() && (m.layout.Some? ==> Consistent(m.layout.value))
      modifies this
      ensures Valid()
      ensures messagesById == old(messagesById)[m.id := m]
      ensures messagesByName == old(messagesByName)[m.name := m]
      ensures messageChecksums == old(messageChecksums)
      ensures State() == old(State()) && sequence == old(sequence) && events == old(events)
    {
      messagesById := messagesById[m.id := m];
      messagesByName := messagesByName[m.name := m];
    }

    /** One message of addMessages: in v1.0 its fields are ordered and its
        seed stored first; then the message is added. */
    method AddDefinition(d: MessageDef)
      requires Valid() && WellFormed(d.fields)
      modifies this
      ensures Valid()
      ensures Cfg().registry == Registered(version, old(Cfg().registry), d)
      ensures State() == old(State()) && sequence == old(sequence) && events == old(events)
    {
      var layout: Option<Layout> := None;
      if version == V1 {
        var l, seed := CalculateMessageChecksum(d);
        LayoutOfFacts(d.fields);
        messageChecksums := messageChecksums[d.id := seed];
        layout := Some(l);
      }
      assert Message(d.id, d.name, d.fields, layout) == MessageFor(version, d);
      AddMessage(Message(d.id, d.name, d.fields, layout));
    }

    /** addMessages(defs): every message in turn. */
    method AddMessages(defs: seq<MessageDef>)
      requires Valid() && forall d | d in defs :: WellFormed(d.fields)
      modifies this
      ensures Valid()
      ensures Cfg().registry == Register(version, old(Cfg().registry), defs)
      ensures State() == old(State()) && sequence == old(sequence) && events == old(events)
    {
      var j := 0;
      while j < |defs|
        invariant 0 <= j <= |defs|
        invariant Valid()
        invariant Cfg().registry == Register(version, old(Cfg().registry), defs[..j])
        invariant State() == old(State()) && sequence == old(sequence) && events == old(events)
      {
        assert defs[j] in defs;
        RegisterSnoc(version, old(Cfg().registry), defs, j);
        AddDefinition(defs[j]);
        j := j + 1;
      }
      assert defs[..j] == defs;
    }

    /** decodeMessage(message), on the registry as it stands. */
    method DecodeMessage(m: Frame) returns (r: Decoding)
      requires RegistryOk(messagesById)
      ensures r == Frames.DecodeMessage(messagesById, m)
    {
      if m.id !in messagesById {
        return Undefined;
      }
      var message := messagesById[m.id];
      if message.layout.None? {
        return Undefined;
      }
      var values := DecodePayload(message.layout.value.fields, m.payload);
      r := if values.None? then Unreadable else Values(values.value);
    }

    /** parseChar(ch): the receiving state and the events emitted follow Step. */
    method ParseChar(ch: byte)
      requires Valid()
      modifies this, buffer
      ensures Valid()
      ensures var o := Step(old(Cfg()), old(State()), ch);
        State() == o.state && events == old(events) + o.events
      ensures Cfg() == old(Cfg()) && sequence == old(sequence)
    {
      if bufferIndex == 0 && StartCharacter(version) == Some(ch) {
        buffer[bufferIndex] := ch;
        bufferIndex := bufferIndex + 1;
        return;
      }
      if bufferIndex == 1 {
        buffer[bufferIndex] := ch;
        messageLength := ch;
        bufferIndex := bufferIndex + 1;
        return;
      }
      if 1 < bufferIndex < messageLength + 8 {
        buffer[bufferIndex] := ch;
        bufferIndex := bufferIndex + 1;
      }
      if bufferIndex == messageLength + 8 {
        CompleteFrame();
      }
    }

    /** The checksum parseChar computes over the complete frame in the
        buffer, and the checksum the frame carries. */
    method FrameChecksums() returns (computed: bv16, received: bv16)
      requires buffer.Length == BufferSize && Completing(State())
      ensures computed == Computed(Cfg(), State()) && received == Received(State())
    {
      var len := messageLength;
      var crcBuf := buffer[1..len + 6];
      if version == V1 {
        crcBuf := crcBuf + [TableSeed(buffer[5])];
      }
      computed := CalculateChecksum(crcBuf);
      received := ReadUInt16LE(buffer[len + 6], buffer[len + 7]);
    }

    /** The "message" event and the event named after the message, for a
        frame that passes the id filter; nothing for any other frame. */
    method Report() returns (reported: seq<Event>)
      requires buffer.Length == BufferSize && Completing(State()) && RegistryOk(messagesById)
      ensures var m := FrameIn(State());
        reported == if Accepts(Cfg(), m) then
          [MessageEvent(m), Named(MessageName(messagesById, m.id), m, Frames.DecodeMessage(messagesById, m))]
        else []
    {
      var message := FrameOf(buffer[..]);
      reported := [];
      if (sysid == 0 && compid == 0) || (message.system == sysid && message.component == compid) {
        var decoded := DecodeMessage(message);
        reported := [MessageEvent(message), Named(MessageName(messagesById, buffer[5]), message, decoded)];
      }
    }

    /** The end of a frame in parseChar: test the checksum, report the frame
        or the failure, and start over. */
    method CompleteFrame()
      requires buffer.Length == BufferSize && 0 <= sequence < 256 && Completing(State()) && RegistryOk(messagesById)
      modifies this
      ensures Valid()
      ensures var o := Complete(old(Cfg()), old(State()));
        State() == o.state && events == old(events) + o.events
      ensures Cfg() == old(Cfg()) && sequence == old(sequence)
    {
      var computed, received := FrameChecksums();
      if computed == received {
        var sequenceEvents := SequenceEvents(State());
        var reported := Report();
        lastCounter := buffer[2];
        events := events + (sequenceEvents + reported);
      } else {
        var seed := SeedOf(messageChecksums, buffer[5]);
        events := events + [ChecksumFail(buffer[5], seed, computed, received)];
      }
      bufferIndex := 0;
      messageLength := 0;
    }

    /** parse(bytes): parseChar on each byte; the state and the events follow Run. */
    method Parse(bytes: seq<byte>)
      requires Valid()
      modifies this, buffer
      ensures Valid()
      ensures var o := Run(old(Cfg()), old(State()), bytes);
        State() == o.state && events == old(events) + o.events
      ensures Cfg() == old(Cfg()) && sequence == old(sequence)
    {
      var i := 0;
      while i < |bytes|
        invariant 0 <= i <= |bytes|
        invariant Valid() && Cfg() == old(Cfg()) && sequence == old(sequence)
        invariant var o := Run(old(Cfg()), old(State()), bytes[..i]);
          State() == o.state && events == old(events) + o.events
      {
        ghost var before := events;
        ghost var o := Run(Cfg(), old(State()), bytes[..i]);
        ParseChar(bytes[i]);
        assert bytes[..i + 1][..i] == bytes[..i];
        ghost var o2 := Step(Cfg(), o.state, bytes[i]);
        EventsAssociate(old(events), o.events, o2.events);
        i := i + 1;
      }
      assert bytes[..i] == bytes;
    }

    /** createMessage(msgid, data, sysid): the frame handed to the callback,
        or why there is none; the sequence counter advances only when a
        frame is made. */
    method CreateMessage(ref: MessageRef, data: map<string, Value>, sysidArg: int) returns (r: Result<Frame, CreateError>)
      requires Valid()
      modifies this
      ensures Valid()
      ensures r == CreateFrame(old(Cfg()), old(sequence), ref, data, sysidArg)
      ensures sequence == if r.Ok? then NextSequence(old(sequence)) else old(sequence)
      ensures r.Ok? ==> sequence == (old(sequence) + 1) % 256
      ensures Cfg() == old(Cfg()) && State() == old(State()) && events == old(events)
    {
      r := ComposeFrame(Cfg(), sequence, ref, data, sysidArg);
      if r.Ok? {
        NextSequenceWraps(sequence);
        sequence := NextSequence(sequence);
      }
    }
  }
}
