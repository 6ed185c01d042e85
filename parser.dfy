/** The receiving state machine of parseChar and parse, as functions on a
    parser state: bytes are collected into a 512-byte buffer until the
    frame length given by its second byte is reached, then the frame is
    checked and reported, and the machine starts over. */
module Parser {
  import opened Wrappers
  import opened Bytes
  import opened Checksum
  import opened CrcExtra
  import opened Layout
  import opened Codec
  import opened Frames

  /** The size of the receive buffer. */
  const BufferSize: nat := 512

  /** The receiving part of the engine: buffer, bufferIndex, messageLength, lastCounter. */
  datatype ParserState = ParserState(buffer: seq<byte>, bufferIndex: nat, messageLength: nat, lastCounter: int)

  /** What parseChar emits. */
  datatype Event =
    | SequenceError(gap: int)
    | MessageEvent(frame: Frame)
    | Named(name: string, frame: Frame, decoded: Decoding)
    | ChecksumFail(id: byte, seed: Option<byte>, computed: bv16, received: bv16)

  /** The state after one or more bytes and the events they emitted, in order. */
  datatype Outcome = Outcome(state: ParserState, events: seq<Event>)

  /** The state between two bytes: a frame is under way and not yet
      complete, its length is the buffer's second byte once that byte is in,
      and no length is recorded before that. */
  predicate Inv(st: ParserState)
  {
    && |st.buffer| == BufferSize
    && st.messageLength <= 255
    && st.bufferIndex < st.messageLength + 8
    && (st.bufferIndex <= 1 ==> st.messageLength == 0)
    && (st.bufferIndex >= 2 ==> st.messageLength == st.buffer[1])
  }

  /** A state holding a complete frame at the start of the buffer. */
  predicate Completing(st: ParserState)
  {
    && |st.buffer| == BufferSize
    && st.messageLength <= 255
    && st.bufferIndex == st.messageLength + 8
    && st.messageLength == st.buffer[1]
  }

  /** The byte parseChar appends to the checksummed bytes in v1.0: the table
      seed of the frame's id, folded once more. */
  function TableSeed(id: byte): byte
  {
    FoldToByte(CrcExtraForId(id) as bv16) as int
  }

  /** The bytes whose checksum a complete frame must carry: bytes 1 to
      len+5 of the buffer, then the table seed in v1.0. */
  function CrcInput(version: Version, buf: seq<byte>, len: nat): seq<byte>
    requires len + 6 <= |buf|
  {
    if version == V1 then buf[1..len + 6] + [TableSeed(buf[5])] else buf[1..len + 6]
  }

  /** The checksum parseChar computes for the complete frame in `st`. */
  function Computed(cfg: Config, st: ParserState): bv16
    requires Completing(st)
  {
    Crc(CrcInput(cfg.version, st.buffer, st.messageLength))
  }

  /** The checksum the complete frame in `st` carries. */
  function Received(st: ParserState): bv16
    requires Completing(st)
  {
    ReadUInt16LE(st.buffer[st.messageLength + 6], st.buffer[st.messageLength + 7])
  }

  /** Whether a frame is reported: every frame when both own ids are 0,
      otherwise only frames from the own system and component. */
  predicate Accepts(cfg: Config, m: Frame)
  {
    (cfg.sysid == 0 && cfg.compid == 0) || (m.system == cfg.sysid && m.component == cfg.compid)
  }

  /** The sequenceError event a frame with a valid checksum causes, if any. */
  function SequenceEvents(st: ParserState): seq<Event>
    requires Completing(st)
  {
    var s := st.buffer[2];
    if s > 0 && s - st.lastCounter != 1 then [SequenceError(s - st.lastCounter - 1)] else []
  }

  /** The frame in the buffer of a completing state. */
  function FrameIn(st: ParserState): Frame
    requires Completing(st)
  {
    FrameOf(st.buffer)
  }

  /** The end of a frame. A frame with a valid checksum sets lastCounter and
      may cause a sequenceError; when it passes the id filter the "message"
      event and the event named after the message follow. A frame with a
      bad checksum causes checksumFail. Either way the machine starts over. */
  function Complete(cfg: Config, st: ParserState): (r: Outcome)
    requires Completing(st) && RegistryOk(cfg.registry.byId)
    ensures Inv(r.state)
  {
    var buf := st.buffer;
    var reset := st.(bufferIndex := 0, messageLength := 0);
    var computed := Computed(cfg, st);
    var received := Received(st);
    if computed == received then
      var m := FrameIn(st);
      var reported :=
        if Accepts(cfg, m) then
          [MessageEvent(m), Named(MessageName(cfg.registry.byId, m.id), m, DecodeMessage(cfg.registry.byId, m))]
        else [];
      Outcome(reset.(lastCounter := buf[2]), SequenceEvents(st) + reported)
    else
      Outcome(reset, [ChecksumFail(buf[5], SeedOf(cfg.registry.checksums, buf[5]), computed, received)])
  }

  /** The state after storing `ch` at the current index. */
  function Store(st: ParserState, ch: byte): ParserState
    requires st.bufferIndex < |st.buffer|
  {
    st.(buffer := st.buffer[st.bufferIndex := ch], bufferIndex := st.bufferIndex + 1)
  }

  /** parseChar(ch). Before the frame starts only the start character is
      taken; the second byte is the payload length; every later byte is
      stored, and the byte that completes the frame ends it. */
  function Step(cfg: Config, st: ParserState, ch: byte): (r: Outcome)
    requires Inv(st) && RegistryOk(cfg.registry.byId)
    ensures Inv(r.state)
  {
    if st.bufferIndex == 0 && StartCharacter(cfg.version) == Some(ch) then
      Outcome(Store(st, ch), [])
    else if st.bufferIndex == 1 then
      Outcome(Store(st, ch).(messageLength := ch), [])
    else
      var st1 := if 1 < st.bufferIndex < st.messageLength + 8 then Store(st, ch) else st;
      if st1.bufferIndex == st1.messageLength + 8 then Complete(cfg, st1) else Outcome(st1, [])
  }

  /** parse(bytes): parseChar on every byte in turn. */
  function Run(cfg: Config, st: ParserState, bytes: seq<byte>): (r: Outcome)
    requires Inv(st) && RegistryOk(cfg.registry.byId)
    ensures Inv(r.state)
    decreases |bytes|
  {
    if bytes == [] then Outcome(st, [])
    else
      var o := Run(cfg, st, bytes[..|bytes| - 1]);
      var o2 := Step(cfg, o.state, bytes[|bytes| - 1]);
      Outcome(o2.state, o.events + o2.events)
  }

  // ---------------------------------------------------------------------
  // Properties of one step

  /** Waiting for a frame, any byte other than the start character is
      ignored: nothing changes and nothing is emitted. */
  lemma IdleIgnoresNoise(cfg: Config, st: ParserState, ch: byte)
    requires Inv(st) && RegistryOk(cfg.registry.byId)
    requires st.bufferIndex == 0 && StartCharacter(cfg.version) != Some(ch)
    ensures Step(cfg, st, ch) == Outcome(st, [])
  {
  }

  /** A step writes at most one buffer position, the current index, which
      is never past len+7 and so never past 262; the rest of the buffer is
      unchanged. */
  lemma StepWritesWithinFrame(cfg: Config, st: ParserState, ch: byte)
    requires Inv(st) && RegistryOk(cfg.registry.byId)
    ensures st.bufferIndex <= st.messageLength + 7 <= 262
    ensures var b := Step(cfg, st, ch).state.buffer;
      forall i | 0 <= i < BufferSize && i != st.bufferIndex :: b[i] == st.buffer[i]
  {
  }

  /** The byte that completes a frame (index len+7) always leaves the
      machine waiting for the next frame, whatever the checksum says. */
  lemma CompletionResets(cfg: Config, st: ParserState, ch: byte)
    requires Inv(st) && RegistryOk(cfg.registry.byId)
    requires 2 <= st.bufferIndex && st.bufferIndex == st.messageLength + 7
    ensures Step(cfg, st, ch).state.bufferIndex == 0
    ensures Step(cfg, st, ch).state.messageLength == 0
  {
  }

  /** Any other byte of a frame under way is stored and emits nothing. */
  lemma StepStores(cfg: Config, st: ParserState, ch: byte)
    requires Inv(st) && RegistryOk(cfg.registry.byId)
    requires 1 <= st.bufferIndex < st.messageLength + 7
    ensures Step(cfg, st, ch).events == []
    ensures Step(cfg, st, ch).state.bufferIndex == st.bufferIndex + 1
    ensures Step(cfg, st, ch).state.buffer == st.buffer[st.bufferIndex := ch]
  {
  }

  /** The end of a frame: checksumFail is emitted exactly when the checksum
      does not match, and then alone; "message" is emitted exactly when the
      checksum matches and the id filter passes; the named event follows it. */
  lemma CompletionEvents(cfg: Config, st: ParserState)
    requires Completing(st) && RegistryOk(cfg.registry.byId)
    ensures var r := Complete(cfg, st);
      var m := FrameIn(st);
      && ((exists e | e in r.events :: e.ChecksumFail?) <==> Computed(cfg, st) != Received(st))
      && (Computed(cfg, st) != Received(st) ==> |r.events| == 1)
      && (MessageEvent(m) in r.events <==> Computed(cfg, st) == Received(st) && Accepts(cfg, m))
      && (MessageEvent(m) in r.events ==>
            r.events[|r.events| - 2..] == [MessageEvent(m), Named(MessageName(cfg.registry.byId, m.id), m, DecodeMessage(cfg.registry.byId, m))])
  {
    var r := Complete(cfg, st);
    var m := FrameIn(st);
    if Computed(cfg, st) == Received(st) {
      assert forall e | e in SequenceEvents(st) :: e.SequenceError?;
      if !Accepts(cfg, m) {
        assert r.events == SequenceEvents(st);
      }
    } else {
      assert r.events[0].ChecksumFail?;
    }
  }

  /** A frame with a valid checksum sets lastCounter to its sequence byte,
      whether or not it is reported, and causes a sequenceError, carrying
      s - lastCounter - 1, exactly when its sequence byte s is not 0 and
      does not follow lastCounter. A frame with a bad checksum leaves
      lastCounter alone. */
  lemma CompletionSequence(cfg: Config, st: ParserState)
    requires Completing(st) && RegistryOk(cfg.registry.byId)
    ensures var r := Complete(cfg, st);
      var s := st.buffer[2];
      && (Computed(cfg, st) == Received(st) ==> r.state.lastCounter == s)
      && (Computed(cfg, st) != Received(st) ==> r.state.lastCounter == st.lastCounter)
      && (SequenceError(s - st.lastCounter - 1) in r.events <==>
            Computed(cfg, st) == Received(st) && s > 0 && s - st.lastCounter != 1)
      && (forall e | e in r.events && e.SequenceError? :: e == SequenceError(s - st.lastCounter - 1))
  {
  }

  // ---------------------------------------------------------------------
  // parse

  /** Feeding bytes in two parts gives the same state and the same events
      as feeding them at once. */
  lemma {:induction false} RunAppend(cfg: Config, st: ParserState, a: seq<byte>, b: seq<byte>)
    requires Inv(st) && RegistryOk(cfg.registry.byId)
    ensures var o1 := Run(cfg, st, a);
      var o2 := Run(cfg, o1.state, b);
      Run(cfg, st, a + b) == Outcome(o2.state, o1.events + o2.events)
    decreases |b|
  {
    if b == [] {
      assert a + b == a;
    } else {
      var b' := b[..|b| - 1];
      var x := b[|b| - 1];
      assert b == b' + [x];
      RunAppend(cfg, st, a, b');
      RunAppendNext(cfg, st, a, b', x);
    }
  }

  /** The inductive step of RunAppend: one more byte `x` at the end of the second part. */
  lemma RunAppendNext(cfg: Config, st: ParserState, a: seq<byte>, b: seq<byte>, x: byte)
    requires Inv(st) && RegistryOk(cfg.registry.byId)
    requires Run(cfg, st, a + b) == Outcome(Run(cfg, Run(cfg, st, a).state, b).state, Run(cfg, st, a).events + Run(cfg, Run(cfg, st, a).state, b).events)
    ensures Run(cfg, st, a + (b + [x])) == Outcome(Run(cfg, Run(cfg, st, a).state, b + [x]).state, Run(cfg, st, a).events + Run(cfg, Run(cfg, st, a).state, b + [x]).events)
  {
    var o1 := Run(cfg, st, a);
    var p := Run(cfg, o1.state, b);
    var s := Step(cfg, p.state, x);
    RunAppendLeft(cfg, st, a, b, x, o1.events, p);
    RunSnoc(cfg, o1.state, b, x);
    EventsAssociate(o1.events, p.events, s.events);
  }

  /** Feeding `a + b` and then `x`, when `a + b` ended in `p` having emitted `e + p.events`. */
  lemma RunAppendLeft(cfg: Config, st: ParserState, a: seq<byte>, b: seq<byte>, x: byte, e: seq<Event>, p: Outcome)
    requires Inv(st) && RegistryOk(cfg.registry.byId) && Inv(p.state)
    requires Run(cfg, st, a + b) == Outcome(p.state, e + p.events)
    ensures Run(cfg, st, a + (b + [x])) == Outcome(Step(cfg, p.state, x).state, (e + p.events) + Step(cfg, p.state, x).events)
  {
    SnocAssociates(a, b, x);
    RunSnoc(cfg, st, a + b, x);
  }

  lemma EventsAssociate(a: seq<Event>, b: seq<Event>, c: seq<Event>)
    ensures (a + b) + c == a + (b + c)
  {
  }

  lemma SnocAssociates(a: seq<byte>, b: seq<byte>, x: byte)
    ensures a + (b + [x]) == (a + b) + [x]
  {
  }

  /** Feeding one more byte after `bytes` is one more step. */
  lemma RunSnoc(cfg: Config, st: ParserState, bytes: seq<byte>, x: byte)
    requires Inv(st) && RegistryOk(cfg.registry.byId)
    ensures var o := Run(cfg, st, bytes);
      var o2 := Step(cfg, o.state, x);
      Run(cfg, st, bytes + [x]) == Outcome(o2.state, o.events + o2.events)
  {
    assert (bytes + [x])[..|bytes|] == bytes;
  }

  /** Feeding one byte is one step. */
  lemma RunOne(cfg: Config, st: ParserState, ch: byte)
    requires Inv(st) && RegistryOk(cfg.registry.byId)
    ensures Run(cfg, st, [ch]) == Step(cfg, st, ch)
  {
    assert [ch][..0] == [];
  }

  // ---------------------------------------------------------------------
  // Receiving one whole frame

  /** A frame as it arrives: a start byte of the version, and a second byte
      giving the payload length, which fixes the frame's length. */
  predicate WholeFrame(cfg: Config, frame: seq<byte>)
  {
    && 2 <= |frame| && frame[1] as int + 8 == |frame|
    && StartCharacter(cfg.version) == Some(frame[0])
  }

  /** The state after the first `k` bytes of a frame reached an idle machine. */
  function Fed(st: ParserState, frame: seq<byte>, k: nat): ParserState
    requires |st.buffer| == BufferSize && 2 <= k <= |frame| <= BufferSize
  {
    ParserState(frame[..k] + st.buffer[k..], k, frame[1], st.lastCounter)
  }

  /** The first two bytes of a frame: start character, then length. */
  lemma FeedHeader(cfg: Config, st: ParserState, frame: seq<byte>)
    requires Inv(st) && RegistryOk(cfg.registry.byId) && st.bufferIndex == 0
    requires WholeFrame(cfg, frame)
    ensures Run(cfg, st, frame[..2]) == Outcome(Fed(st, frame, 2), [])
  {
    var s1 := Store(st, frame[0]);
    RunOne(cfg, st, frame[0]);
    assert frame[..1] == [frame[0]];
    assert Run(cfg, st, frame[..1]) == Outcome(s1, []);
    RunSnoc(cfg, st, frame[..1], frame[1]);
    assert frame[..1] + [frame[1]] == frame[..2];
    var s2 := Store(s1, frame[1]).(messageLength := frame[1]);
    assert Step(cfg, s1, frame[1]) == Outcome(s2, []);
    assert s2.buffer == frame[..2] + st.buffer[2..];
  }

  /** The bytes of a frame before its last one are stored in order and emit nothing. */
  lemma {:induction false} FeedPrefix(cfg: Config, st: ParserState, frame: seq<byte>, k: nat)
    requires Inv(st) && RegistryOk(cfg.registry.byId) && st.bufferIndex == 0
    requires WholeFrame(cfg, frame) && 2 <= k < |frame|
    ensures Inv(Fed(st, frame, k))
    ensures Run(cfg, st, frame[..k]) == Outcome(Fed(st, frame, k), [])
    decreases k
  {
    if k == 2 {
      FeedHeader(cfg, st, frame);
    } else {
      FeedPrefix(cfg, st, frame, k - 1);
      FeedNext(cfg, st, frame, k - 1);
    }
  }

  /** One more byte of the frame, not its last. */
  lemma FeedNext(cfg: Config, st: ParserState, frame: seq<byte>, k: nat)
    requires Inv(st) && RegistryOk(cfg.registry.byId) && st.bufferIndex == 0
    requires WholeFrame(cfg, frame) && 2 <= k && k + 1 < |frame|
    requires Inv(Fed(st, frame, k))
    requires Run(cfg, st, frame[..k]) == Outcome(Fed(st, frame, k), [])
    ensures Inv(Fed(st, frame, k + 1))
    ensures Run(cfg, st, frame[..k + 1]) == Outcome(Fed(st, frame, k + 1), [])
  {
    var f := Fed(st, frame, k);
    assert frame[..k] + [frame[k]] == frame[..k + 1];
    RunSnoc(cfg, st, frame[..k], frame[k]);
    StoreFed(st, frame, k);
    StepStores(cfg, f, frame[k]);
  }

  lemma StoreFed(st: ParserState, frame: seq<byte>, k: nat)
    requires |st.buffer| == BufferSize && 2 <= k < |frame| <= BufferSize
    ensures Store(Fed(st, frame, k), frame[k]) == Fed(st, frame, k + 1)
  {
    var a := (frame[..k] + st.buffer[k..])[k := frame[k]];
    var b := frame[..k + 1] + st.buffer[k + 1..];
    assert |a| == |b|;
    forall i | 0 <= i < |a| ensures a[i] == b[i] {
      if i < k {
      } else if i == k {
      } else {
        assert a[i] == st.buffer[i];
      }
    }
  }

  /** The byte that completes a frame is stored, and the frame is then ended. */
  lemma StepCompletes(cfg: Config, st: ParserState, ch: byte)
    requires Inv(st) && RegistryOk(cfg.registry.byId)
    requires 2 <= st.bufferIndex && st.bufferIndex == st.messageLength + 7
    ensures Completing(Store(st, ch))
    ensures Step(cfg, st, ch) == Complete(cfg, Store(st, ch))
  {
  }

  /** Feeding a whole frame to an idle machine ends the frame: the outcome
      is that of its end, on a buffer that starts with the frame. */
  lemma ReceiveFrame(cfg: Config, st: ParserState, frame: seq<byte>)
    requires Inv(st) && RegistryOk(cfg.registry.byId) && st.bufferIndex == 0
    requires WholeFrame(cfg, frame)
    ensures Completing(Fed(st, frame, |frame|))
    ensures Fed(st, frame, |frame|).buffer[..|frame|] == frame
    ensures Run(cfg, st, frame) == Complete(cfg, Fed(st, frame, |frame|))
  {
    var n := |frame| - 1;
    FeedPrefix(cfg, st, frame, n);
    var f := Fed(st, frame, n);
    assert frame[..n] + [frame[n]] == frame;
    RunSnoc(cfg, st, frame[..n], frame[n]);
    var g := Fed(st, frame, n + 1);
    StoreFed(st, frame, n);
    StepCompletes(cfg, f, frame[n]);
    assert frame[..n + 1] == frame;
    assert g.buffer[..|frame|] == frame;
  }

  /** At the end of a received frame, the view and both checksums depend
      only on the frame's own bytes. */
  lemma ReceivedFrameView(cfg: Config, st: ParserState, frame: seq<byte>)
    requires Inv(st) && st.bufferIndex == 0 && WholeFrame(cfg, frame)
    ensures var g := Fed(st, frame, |frame|);
      var len := frame[1];
      && Completing(g)
      && FrameIn(g) == FrameOf(frame)
      && Computed(cfg, g) == Crc(CrcInput(cfg.version, frame, len))
      && Received(g) == ReadUInt16LE(frame[len + 6], frame[len + 7])
  {
    var g := Fed(st, frame, |frame|);
    var len := frame[1];
    assert g.buffer[..|frame|] == frame;
    FrameOfPrefix(g.buffer, frame);
    assert g.buffer[1..len + 6] == frame[1..len + 6];
    assert g.buffer[5] == frame[5];
  }

  /** The receiving end of the seed mismatch: a v1.0 frame whose checksum was
      computed with seed `seed` passes the parser's checksum test exactly
      when `seed` is the table seed of the frame's id. */
  lemma SeededFrameChecks(cfg: Config, frame: seq<byte>, seed: byte)
    requires cfg.version == V1 && 8 <= |frame| && frame[1] as int + 8 == |frame|
    requires ChecksumMatches(frame, seed)
    ensures var len := frame[1];
      Crc(CrcInput(cfg.version, frame, len)) == ReadUInt16LE(frame[len + 6], frame[len + 7])
      <==> seed == TableSeed(frame[5])
  {
    var len := frame[1];
    var body := frame[1..len + 6];
    CrcFromSnoc(CrcInit, body, seed);
    CrcFromSnoc(CrcInit, body, TableSeed(frame[5]));
    CrcStepInjective(Crc(body), seed, TableSeed(frame[5]));
  }

  /** A v1.0 frame carrying the checksum made with `seed`, fed to an idle
      machine: checksumFail exactly when `seed` is not the table seed of its
      id, and otherwise, if the id filter passes, the "message" event and
      the named event as the last two events. */
  lemma SeededFrameReceived(cfg: Config, st: ParserState, frame: seq<byte>, seed: byte)
    requires cfg.version == V1
    requires Inv(st) && RegistryOk(cfg.registry.byId) && st.bufferIndex == 0
    requires WholeFrame(cfg, frame) && ChecksumMatches(frame, seed)
    ensures var m := FrameOf(frame);
      var r := Run(cfg, st, frame);
      && ((exists e | e in r.events :: e.ChecksumFail?) <==> seed != TableSeed(m.id))
      && (seed == TableSeed(m.id) && Accepts(cfg, m) ==>
            |r.events| >= 2 && r.events[|r.events| - 2..] == [MessageEvent(m), Named(MessageName(cfg.registry.byId, m.id), m, DecodeMessage(cfg.registry.byId, m))])
  {
    ReceiveFrame(cfg, st, frame);
    ReceivedFrameView(cfg, st, frame);
    SeededFrameChecks(cfg, frame, seed);
    CompletionEvents(cfg, Fed(st, frame, |frame|));
  }

  /** What a v1.0 receiver makes of a frame createMessage built: checksumFail
      exactly when the seed the sender registered for the id (the derived
      seed, in this engine) differs from the receiver's table seed, and
      otherwise, if the id filter passes, the "message" event and the named
      event for the frame. */
  lemma CreatedFrameReceived(sender: Config, sequence: int, ref: MessageRef, data: map<string, Value>, sysid: int,
                             cfg: Config, st: ParserState)
    requires sender.version == V1 && cfg.version == V1
    requires Inv(st) && RegistryOk(cfg.registry.byId) && st.bufferIndex == 0
    requires var id := ResolveId(sender.registry.byName, ref);
      && 0 <= id < 256
      && CreateFrame(sender, sequence, ref, data, sysid).Ok?
      && sender.registry.byId[id].layout.value.payloadLength < 256
    ensures var id := ResolveId(sender.registry.byName, ref);
      var seed := if id in sender.registry.checksums then sender.registry.checksums[id] else 0;
      var m := CreateFrame(sender, sequence, ref, data, sysid).value;
      var r := Run(cfg, st, m.bytes);
      && ((exists e | e in r.events :: e.ChecksumFail?) <==> seed != TableSeed(id))
      && (seed == TableSeed(id) && Accepts(cfg, m) ==>
            |r.events| >= 2 && r.events[|r.events| - 2..] == [MessageEvent(m), Named(MessageName(cfg.registry.byId, id), m, DecodeMessage(cfg.registry.byId, m))])
  {
    var id := ResolveId(sender.registry.byName, ref);
    var seed := if id in sender.registry.checksums then sender.registry.checksums[id] else 0;
    var m := CreateFrame(sender, sequence, ref, data, sysid).value;
    CreatedFrameView(sender, sequence, ref, data, sysid);
    SeededFrameReceived(cfg, st, m.bytes, seed);
  }

  /** A frame createMessage built views as itself. */
  lemma CreatedFrameView(sender: Config, sequence: int, ref: MessageRef, data: map<string, Value>, sysid: int)
    requires sender.version == V1
    requires var id := ResolveId(sender.registry.byName, ref);
      && 0 <= id < 256
      && CreateFrame(sender, sequence, ref, data, sysid).Ok?
      && sender.registry.byId[id].layout.value.payloadLength < 256
    ensures var id := ResolveId(sender.registry.byName, ref);
      var seed := if id in sender.registry.checksums then sender.registry.checksums[id] else 0;
      var m := CreateFrame(sender, sequence, ref, data, sysid).value;
      && 2 <= |m.bytes| && m.bytes[1] as int + 8 == |m.bytes|
      && m.bytes[0] == 0xFE && FrameOf(m.bytes) == m && m.id == id
      && ChecksumMatches(m.bytes, seed)
  {
    var id := ResolveId(sender.registry.byName, ref);
    var seed := if id in sender.registry.checksums then sender.registry.checksums[id] else 0;
    CreateFrameOutcome(sender, sequence, ref, data, sysid);
    var payload := EncodePayload(sender.registry.byId[id].layout.value, data).value;
    var from := if sysid == 0 then sender.sysid else sysid;
    FrameOfFrameBytes(StartByte(sender.version), NextSequence(sequence), from, sender.compid, id, payload, seed);
  }

  // ---------------------------------------------------------------------
  // parseChar as written: decodeMessage throwing inside parseChar

  /** The states parseChar can leave behind as written: as Inv, except that
      a complete frame may still be in the buffer. */
  predicate InvAsWritten(st: ParserState)
  {
    && |st.buffer| == BufferSize
    && st.messageLength <= 255
    && st.bufferIndex <= st.messageLength + 8
    && (st.bufferIndex <= 1 ==> st.messageLength == 0)
    && (st.bufferIndex >= 2 ==> st.messageLength == st.buffer[1])
  }

  /** How parseChar returns: normally, or by an exception, with the state
      and the events emitted up to that point. */
  datatype Return = Return(outcome: Outcome, threw: bool)

  /** The end of a frame as written: decodeMessage is evaluated as an
      argument of the named event, after "message" is emitted and before
      the reset, so when it throws the frame stays in the buffer with
      bufferIndex at len+8. */
  function CompleteAsWritten(cfg: Config, st: ParserState): (r: Return)
    requires Completing(st) && RegistryOk(cfg.registry.byId)
    ensures InvAsWritten(r.outcome.state)
  {
    var m := FrameIn(st);
    if Computed(cfg, st) == Received(st) && Accepts(cfg, m) && DecodeMessage(cfg.registry.byId, m) == Unreadable then
      Return(Outcome(st.(lastCounter := st.buffer[2]), SequenceEvents(st) + [MessageEvent(m)]), true)
    else
      Return(Complete(cfg, st), false)
  }

  /** parseChar(ch) as written. */
  function StepAsWritten(cfg: Config, st: ParserState, ch: byte): (r: Return)
    requires InvAsWritten(st) && RegistryOk(cfg.registry.byId)
    ensures InvAsWritten(r.outcome.state)
  {
    if st.bufferIndex == 0 && StartCharacter(cfg.version) == Some(ch) then
      Return(Outcome(Store(st, ch), []), false)
    else if st.bufferIndex == 1 then
      Return(Outcome(Store(st, ch).(messageLength := ch), []), false)
    else
      var st1 := if 1 < st.bufferIndex < st.messageLength + 8 then Store(st, ch) else st;
      if st1.bufferIndex == st1.messageLength + 8 then CompleteAsWritten(cfg, st1)
      else Return(Outcome(st1, []), false)
  }

  /** As written and corrected agree on every byte except the one that
      completes a reported frame with a valid checksum and a payload too
      short for its message's fields: there the source throws. */
  lemma AsWrittenAgrees(cfg: Config, st: ParserState, ch: byte)
    requires Inv(st) && RegistryOk(cfg.registry.byId)
    ensures var r := StepAsWritten(cfg, st, ch);
      && (!r.threw ==> r.outcome == Step(cfg, st, ch))
      && (r.threw <==>
            && 2 <= st.bufferIndex == st.messageLength + 7
            && var c := Store(st, ch);
               Computed(cfg, c) == Received(c) && Accepts(cfg, FrameIn(c))
               && DecodeMessage(cfg.registry.byId, FrameIn(c)) == Unreadable)
  {
  }

  /** Once parseChar has thrown, it throws again on every later byte, with
      the same frame still in the buffer: the "message" event (and, for a
      non-zero sequence byte, a sequenceError of -1) repeats on each byte,
      and no later frame is ever received. */
  lemma WedgeRepeats(cfg: Config, st: ParserState, ch: byte, next: byte)
    requires InvAsWritten(st) && RegistryOk(cfg.registry.byId)
    requires StepAsWritten(cfg, st, ch).threw
    ensures var w := StepAsWritten(cfg, st, ch).outcome.state;
      && Completing(w)
      && StepAsWritten(cfg, w, next)
           == Return(Outcome(w, SequenceEvents(w) + [MessageEvent(FrameIn(w))]), true)
      && SequenceEvents(w) == (if w.buffer[2] > 0 then [SequenceError(-1)] else [])
  {
  }

  /** A message whose first field in wire order is a uint32 cannot be read
      from an empty payload. */
  lemma EmptyPayloadUnreadable(layout: Layout)
    requires Consistent(layout) && |layout.fields| > 0
    requires layout.fields[0].base == UInt32 && layout.fields[0].arrayLength >= 1
    ensures DecodeFields(layout.fields, []) == None
  {
    var fs := layout.fields;
    var f := fs[0];
    assert f in fs;
    assert ReadElems([], 0, f, 1) == None;
    ReadElemsStopped([], 0, f, 1, f.arrayLength);
    assert fs[..1][..0] == [];
    assert DecodeFields(fs[..1], []) == None;
    DecodeFieldsStopped(fs, [], 1);
  }

  /** The frame of the finding: a v1.0 frame for message 0 (HEARTBEAT, whose
      first field in wire order is the uint32 custom_mode) with sequence byte
      `s`, sender 0/0, an empty payload and the valid table-seeded checksum. */
  function ShortFrame(s: byte): seq<byte>
  {
    var c := Crc([0, s, 0, 0, 0, TableSeed(0)]);
    [0xFE, 0, s, 0, 0, 0, LowByte(c), HighByte(c)]
  }

  /** The finding, as written: the short frame's last byte makes parseChar
      throw, leaving the frame in the buffer, and every later byte throws
      again (WedgeRepeats), whatever it is. */
  lemma ShortFrameWedges(cfg: Config, st: ParserState, s: byte, layout: Layout)
    requires cfg.version == V1 && cfg.sysid == 0 && cfg.compid == 0
    requires RegistryOk(cfg.registry.byId) && Inv(st) && st.bufferIndex == 0
    requires 0 in cfg.registry.byId && cfg.registry.byId[0].layout == Some(layout)
    requires |layout.fields| > 0 && layout.fields[0].base == UInt32 && layout.fields[0].arrayLength >= 1
    ensures var frame := ShortFrame(s);
      && Run(cfg, st, frame[..7]).events == []
      && StepAsWritten(cfg, Run(cfg, st, frame[..7]).state, frame[7]).threw
      && StepAsWritten(cfg, Run(cfg, st, frame[..7]).state, frame[7]).outcome.state.bufferIndex == 8
  {
    var frame := ShortFrame(s);
    ShortFrameFacts(cfg, s);
    FeedPrefix(cfg, st, frame, 7);
    var st7 := Fed(st, frame, 7);
    var st8 := Store(st7, frame[7]);
    StoreFed(st, frame, 7);
    ReceivedFrameView(cfg, st, frame);
    EmptyPayloadUnreadable(layout);
    assert FrameIn(st8).payload == [];
    assert DecodeMessage(cfg.registry.byId, FrameIn(st8)) == Unreadable;
  }

  /** The short frame is well formed and its checksum passes the parser's test. */
  lemma ShortFrameFacts(cfg: Config, s: byte)
    requires cfg.version == V1
    ensures var frame := ShortFrame(s);
      && WholeFrame(cfg, frame) && frame[5] == 0
      && Crc(CrcInput(cfg.version, frame, 0)) == ReadUInt16LE(frame[6], frame[7])
  {
    var frame := ShortFrame(s);
    var c := Crc([0, s, 0, 0, 0, TableSeed(0)]);
    ChecksumBytesRoundTrip(c);
    assert frame[1..6] == [0, s, 0, 0, 0];
    assert CrcInput(cfg.version, frame, 0) == [0, s, 0, 0, 0, TableSeed(0)];
  }

  /** The finding, corrected: the same byte in the corrected machine ends
      the frame, reports it with the decoding marked unreadable, and leaves
      the machine waiting for the next frame. */
  lemma ShortFrameRecovers(cfg: Config, st: ParserState, s: byte, layout: Layout)
    requires cfg.version == V1 && cfg.sysid == 0 && cfg.compid == 0
    requires RegistryOk(cfg.registry.byId) && Inv(st) && st.bufferIndex == 0
    requires 0 in cfg.registry.byId && cfg.registry.byId[0].layout == Some(layout)
    requires |layout.fields| > 0 && layout.fields[0].base == UInt32 && layout.fields[0].arrayLength >= 1
    ensures var frame := ShortFrame(s);
      var r := Run(cfg, st, frame);
      && r.state.bufferIndex == 0
      && |r.events| >= 1
      && r.events[|r.events| - 1] == Named(MessageName(cfg.registry.byId, 0), FrameOf(frame), Unreadable)
  {
    var frame := ShortFrame(s);
    ShortFrameFacts(cfg, s);
    ReceiveFrame(cfg, st, frame);
    ReceivedFrameView(cfg, st, frame);
    EmptyPayloadUnreadable(layout);
    var g := Fed(st, frame, |frame|);
    assert FrameIn(g).payload == [];
    assert DecodeMessage(cfg.registry.byId, FrameIn(g)) == Unreadable;
    CompletionEvents(cfg, g);
  }
}
