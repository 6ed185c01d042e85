# MAVLink v1.0 / v0.9 engine in Dafny

This project models the protocol engine of a Node.js MAVLink library
(`src/mavlink.js`) and proves properties of it. The engine covers:

- **Checksum.** The X.25 CRC (CRC-16/MCRF4XX) over a byte buffer.
- **CRC-extra seeds.** Two sources of the per-message seed byte: the seed
  derived from a message's name and fields, and the hard-coded per-id table
  the receiver checks against.
- **Field layout.** Each field is measured from its type token and the
  fields are sorted into wire order (widest type first, declaration order
  among equals).
- **Registry.** Messages are stored by id and by name. Lookups that miss
  give -1 or "".
- **Frame view.** The header fields, payload and checksum of a received frame.
- **Stream parser.** The byte-at-a-time receiver (`parseChar`, `parse`):
  - it collects a frame in a 512-byte buffer;
  - it checks the checksum;
  - it reports sequence gaps;
  - it filters on the system and component id;
  - it emits `message`, a per-message event, `sequenceError` and `checksumFail`.
- **Encoder and decoder.** `createMessage` writes field values
  little-endian at their wire offsets, adds the header, advances the
  wrapping sequence counter and appends the checksum. `decodeMessage` reads
  the fields back.

Modules, one file each:

| module | file | contents |
|---|---|---|
| `Wrappers` | `wrappers.dfy` | `Option` and `Result` |
| `Bytes` | `bytes.dfy` | byte coercion, little-endian integers, two's complement, UTF-8 |
| `Checksum` | `checksum.dfy` | the CRC as a fold and as a loop; fold to a byte; the checksum word |
| `CrcExtra` | `crcextra.dfy` | the static seed table |
| `Layout` | `layout.dfy` | type tokens, field measurement, alias rewriting, the wire-order sort, the derived seed string |
| `Codec` | `codec.dfy` | `bufferField` on an array, the payload encoder, the field decoder, the encode/decode round trip |
| `Frames` | `frames.dfy` | start characters, registry lookups, the frame view, frame assembly, `createMessage` and `decodeMessage` as functions |
| `Parser` | `parser.dfy` | `parseChar` and `parse` as a state machine on values; the as-written variant of the finding below |
| `Engine` | `engine.dfy` | the registry built by `addMessages`; the engine object as a class whose methods update its fields and buffer |

The engine object is the class `Engine.Mavlink`. Its methods update the
fields in place and are proved against the functions of the other modules.
`ParseChar`'s new state and events are those of `Parser.Step`.
`CreateMessage`'s frame is `Frames.CreateFrame`. `AddMessages`'s registry
is `Engine.Register`. The properties are proved about those functions.

Two behaviours of the source are modelled as they are, not corrected:

- **The two seeds differ.** The receiver checks a v1.0 frame with the
  static table seed (`src/mavlink.js:537-538`). The encoder appends the
  derived seed stored by `addMessages` (`src/mavlink.js:821`). A frame the
  engine creates is therefore accepted by a v1.0 receiver exactly when the
  two seeds agree for its id (`Parser.CreatedFrameReceived`).
- **UTF-8 in the seed string.** The derived seed string is UTF-8 encoded.
  An array size of 128 or more becomes a two-byte sequence in the string
  that is checksummed (`Layout.ArraySeedSuffix`).

## Model

| member | source | states |
|---|---|---|
| `Bytes.ToUint8` | src/mavlink.js:807-812 | storing a number into a Buffer byte keeps it modulo 256; a value already in 0..255 is unchanged |
| `Bytes.LE` | src/mavlink.js:622-633 | a little-endian write of width w produces exactly w bytes |
| `Bytes.FromLEOfLE` | src/mavlink.js:699-710 | reading back a little-endian write of n < 256^w gives n |
| `Bytes.FromLEBound` | src/mavlink.js:699-710 | an unsigned little-endian read of k bytes is below 256^k |
| `Bytes.SignedOfUnsigned` | src/mavlink.js:613-630 | the two's-complement image of an in-range signed value reads back as that value |
| `Bytes.Utf8Char` | src/mavlink.js:300 | the UTF-8 encoding of a character is 1 to 4 bytes, and is the character itself exactly when it is ASCII |
| `Bytes.Utf8OfAscii` | src/mavlink.js:300 | an ASCII string encodes to its own code points, byte for byte |
| `Bytes.Utf8Append` | src/mavlink.js:290-300 | encoding distributes over concatenation, so the seed string can be encoded piece by piece |
| `Bytes.CodeUnitUtf8Width` | src/mavlink.js:296-300 | a char code below 0x80 is one byte; one in 0x80..0x7FF is a two-byte sequence (lead 0xC2..0xDF, continuation 0x80..0xBF) |
| `Checksum.CalculateChecksum` | src/mavlink.js:274-283 | the loop computes the CRC fold of the buffer; the empty buffer gives 0xFFFF |
| `Checksum.CrcFromAppend` | src/mavlink.js:276-281 | the CRC of a ++ b is the loop continued over b from the CRC of a |
| `Checksum.CrcAppend` | src/mavlink.js:276-281 | the same, started from the initial value 0xFFFF |
| `Checksum.CrcFromSnoc` | src/mavlink.js:276-281 | one more byte is one more step of the loop |
| `Checksum.CrcStepInjective` | src/mavlink.js:277-280 | from a given CRC, two bytes give the same next CRC exactly when they are equal, so a corrupted last byte is always detected |
| `Checksum.UnstepMix` | src/mavlink.js:277-280 | the CRC a step started from can be recovered from the byte it took in and the CRC it produced |
| `Checksum.CrcStepInjectiveInCrc` | src/mavlink.js:277-280 | for a fixed byte, two CRCs give the same next CRC exactly when they are equal |
| `Checksum.CrcFromInjective` | src/mavlink.js:276-281 | the loop run over the same bytes from two CRCs ends equal exactly when they started equal |
| `Checksum.SingleByteCorruptionDetected` | src/mavlink.js:274-283 | two buffers that differ in one byte, at any position, have different checksums; buffers that agree have equal ones |
| `Checksum.MixInjective` | src/mavlink.js:277-279 | the byte mix of one step is injective in the byte |
| `Checksum.UnmixMix` | src/mavlink.js:277-279 | the byte a step consumed can be recovered from the CRC before and after it |
| `Checksum.ReferenceVector` | src/mavlink.js:274-283 | the CRC of ASCII "123456789" is 0x6F91, the CRC-16/MCRF4XX check value |
| `Checksum.OrderSensitive` | src/mavlink.js:274-283 | the checksum depends on byte order: for example, the bytes 1, 2 and the bytes 2, 1 have different CRCs |
| `Checksum.FoldSmall` | src/mavlink.js:301 | folding a CRC to a byte, (c & 0xFF) ^ (c >> 8), is the identity on values below 256 |
| `Checksum.ChecksumBytesRoundTrip` | src/mavlink.js:819-822 | writing the CRC as two little-endian bytes and reading them back as a 16-bit word gives the CRC |
| `Checksum.LowHighJoin` | src/mavlink.js:822 | the low and high bytes of a 16-bit word rejoin to the word |
| `CrcExtra.CrcExtraForIdIsEntry` | src/mavlink.js:314-497 | the table seed is the listed entry, or 0 for an id the table lacks; the fold at the end (and the parser's second fold) leaves it unchanged |
| `Layout.ReplaceFirst` | src/mavlink.js:221 | `replace` changes only the first occurrence, keeps the length, and is the identity when the character is absent |
| `Layout.SplitJoin` | src/mavlink.js:221 | `split(" ")` yields pieces free of spaces that rejoin with spaces to the original string |
| `Layout.TypePartsOfScalar` | src/mavlink.js:221 | a plain type token splits into just its base name |
| `Layout.TypePartsOfArray` | src/mavlink.js:221 | `base[size]` splits into [base, size, ""] |
| `Layout.ExactDivision` | src/mavlink.js:250-252 | arrayLength = length / typeLength recovers the array size exactly |
| `Layout.Measure` | src/mavlink.js:196-252 | a measured field keeps its name, token and declaration index, and has length = typeLength × arrayLength with a positive width |
| `Layout.MeasureScalar` | src/mavlink.js:196-252 | a plain known type measures with its table width, arrayLength 1 |
| `Layout.MeasureArray` | src/mavlink.js:216-252 | `base[n]` measures with the base width, length width × n and arrayLength n |
| `Layout.Annotate` | src/mavlink.js:239-252 | the annotated field carries the normalised token, its declaration index and a consistent length |
| `Layout.VersionAliasNormalised` | src/mavlink.js:242-244 | `uint8_t_mavlink_version` is measured as `uint8_t`, 1 byte |
| `Layout.ArrayAliasNormalised` | src/mavlink.js:245-247 | `array` is measured as `int8_t`, 1 byte |
| `Layout.AnnotateScalar` | src/mavlink.js:237-252 | an unaliased scalar field is annotated with its table width |
| `Layout.AnnotateArray` | src/mavlink.js:237-252 | an array field `base[n]` is annotated with arrayLength n and length width × n |
| `Layout.Annotated` | src/mavlink.js:237-254 | the annotation pass keeps the number of fields and annotates field i with index i |
| `Layout.BeforeTotal` | src/mavlink.js:257-270 | the sort's comparator orders any two fields with different declaration indices |
| `Layout.BeforeTransitive` | src/mavlink.js:257-270 | the comparator is transitive |
| `Layout.Insert` | src/mavlink.js:257-270 | inserting into a wire-ordered sequence keeps it wire-ordered and adds exactly the one field |
| `Layout.SortFields` | src/mavlink.js:257-270 | the result is a permutation of the input in wire order: non-increasing width, ascending declaration index among equal widths |
| `Layout.OrderFields` | src/mavlink.js:233-271 | a layout exists exactly when every type token is known and measurable; it is then the wire-ordered permutation of the annotated fields with the summed payload length |
| `Layout.OrderedPermutationUnique` | src/mavlink.js:257-270 | two wire-ordered permutations of the same fields are equal, so the stable sort has exactly one possible result |
| `Layout.SumLengthsPermutation` | src/mavlink.js:253 | the payload length, summed in declaration order, equals the sum in wire order |
| `Layout.LayoutFacts` | src/mavlink.js:233-271 | an ordered layout has one field per declared field, each an annotated declared field with length = typeLength × arrayLength, and the summed payload length |
| `Layout.LayoutExample` | src/mavlink.js:233-271 | fields declared as 1-, 1-, 4- and 2-byte scalars are laid out 4, 2, 1, 1 at offsets 0, 4, 6, 7, in an 8-byte payload |
| `Layout.OrderExample` | src/mavlink.js:257-270 | the sort of that example is [4-byte, 2-byte, first 1-byte, second 1-byte] |
| `Layout.ExampleAnnotated` | src/mavlink.js:237-254 | the annotation pass on that example |
| `Layout.ArraySeedSuffix` | src/mavlink.js:290-300 | an array field contributes "base name " then the UTF-8 of the char with code n: one byte below 128, two bytes from 128 to 2047 |
| `Codec.CodeUnit` | src/mavlink.js:611 | `charCodeAt(0)` is a UTF-16 code unit, the character itself in the Basic Multilingual Plane |
| `Codec.Elements` | src/mavlink.js:589-595 | a scalar field writes its value as a single element; an array field writes the elements of its list or the characters of its string |
| `Codec.EncodeElem` | src/mavlink.js:603-644 | a write produces exactly the type's width in bytes; 64-bit writes write nothing and never fail |
| `Codec.EncodeInt` | src/mavlink.js:613-633 | an integer write succeeds exactly when the value is a number in the type's range |
| `Codec.Splice` | src/mavlink.js:605-632 | a write changes exactly the bytes at its offset |
| `Codec.WriteBytes` | src/mavlink.js:605-632 | the array write performs that splice in place |
| `Codec.BufferField` | src/mavlink.js:584-648 | the method writes each element at offset + i × typeLength into the array and stops at the first error, as `WriteField` specifies |
| `Codec.WriteElemsImage` | src/mavlink.js:600-647 | writing in-range elements into a zero-filled region leaves exactly their concatenated little-endian images there |
| `Codec.WriteElemsStopped` | src/mavlink.js:600-647 | once a write throws, later elements are not written |
| `Codec.EncodeFieldsPresent` | src/mavlink.js:783-788 | an encoding that succeeds had a value for every field |
| `Codec.EncodeFieldsLast` | src/mavlink.js:783-791 | a successful encoding succeeded on the fields before the last one and had a value for the last one |
| `Codec.EncodeFieldsStopped` | src/mavlink.js:783-795 | once a field is missing or fails to write, the encoding fails with that error |
| `Codec.PadValue` | src/mavlink.js:777-778 | for every type there is a fitting element whose image is all zero bytes, the contents of a slot no write reached |
| `Codec.Padded` | src/mavlink.js:597-600 | a fitting value's elements followed by zero elements: exactly one per slot of the field, the value's own elements first |
| `Codec.FieldImagePadded` | src/mavlink.js:597-600 | the image of elements followed by k zero elements is their image followed by k element widths of zeros |
| `Codec.FieldBytesZeroTail` | src/mavlink.js:597-600 | a fitting value occupies its elements' images, and the slots a shorter string or array does not reach stay zero |
| `Codec.WriteFieldOverZeros` | src/mavlink.js:584-600 | bufferField of a fitting value (as long as the field or shorter) into the zero-filled rest of the payload lays down the field's bytes, zero tail included, and does not throw |
| `Codec.EncodeFieldsImage` | src/mavlink.js:778-795 | encoding fitting data, whose strings and arrays may be shorter than their fields, gives the fields' bytes in wire order followed by the untouched zero bytes |
| `Codec.EncodePayload` | src/mavlink.js:778-795 | a payload that encodes has exactly payloadLength bytes |
| `Codec.EncodeInto` | src/mavlink.js:778-795 | the loop over the fields computes the payload encoding |
| `Codec.ReadElem` | src/mavlink.js:680-723 | a read succeeds exactly when the payload holds the element; int64 reads 0 without reading; uint64 needs 8 bytes |
| `Codec.ReadInt` | src/mavlink.js:688-710 | an integer read succeeds exactly when the bytes are there |
| `Codec.ReadElems` | src/mavlink.js:678-734 | a field read yields arrayLength elements |
| `Codec.ReadElemsStopped` | src/mavlink.js:678-734 | once a read throws, reading more elements still throws |
| `Codec.ReadField` | src/mavlink.js:678-734 | the element loop reads every element at its stride, as `ReadElems` specifies |
| `Codec.DecodePayload` | src/mavlink.js:658-740 | the field loop computes `DecodeFields`: each field is read from the summed lengths of the fields before it |
| `Codec.DecodeFieldsKeys` | src/mavlink.js:665-739 | a successful decoding has a value under the name of every field and no other |
| `Codec.DecodeFieldsStopped` | src/mavlink.js:665-739 | a field that cannot be read makes the whole decoding fail |
| `Codec.IntRoundTrip` | src/mavlink.js:613-710 | an integer written in range reads back as the same integer, signed or unsigned |
| `Codec.ElemRoundTrip` | src/mavlink.js:603-723 | an element written reads back as its expected value (floats as their bytes, chars as code units) |
| `Codec.ReadElemsImage` | src/mavlink.js:678-734 | reading a region written with n element images gives the n expected elements |
| `Codec.DecodeImage` | src/mavlink.js:665-739 | decoding a payload that starts with the fields' images gives every field its expected value |
| `Codec.PayloadRoundTrip` | src/mavlink.js:584-795 | for a consistent layout and fitting data, encoding succeeds and decoding the payload gives back every field's value; a string or array shorter than its field comes back followed by zero elements |
| `Codec.ExpectedValuesKeys` | src/mavlink.js:665-739 | the expected decoding has exactly the field names as keys |
| `Codec.ExpectedValuesAt` | src/mavlink.js:729-738 | with distinct names, each field's expected value is its written value: a scalar, an element list, or char bytes |
| `Frames.StartCharacter` | src/mavlink.js:306-312 | v1.0 and v0.9 have a start character; any other version has none |
| `Frames.StartCharacterIdentifiesVersion` | src/mavlink.js:306-312 | the two start characters differ, so the start byte identifies the version |
| `Frames.MessageId` | src/mavlink.js:136-141 | the id of a registered name, and -1 exactly for a name not registered |
| `Frames.MessageName` | src/mavlink.js:144-149 | the name of a registered id, "" otherwise |
| `Frames.FrameOf` | src/mavlink.js:9-35 | the frame view has a payload of the declared length and keeps length + 8 bytes |
| `Frames.FrameOfPrefix` | src/mavlink.js:9-35 | the view depends only on the frame's own bytes, not on what follows it in the buffer |
| `Frames.NextSequenceWraps` | src/mavlink.js:802-804 | the send counter advances 1, 2, …, 255, 0 |
| `Frames.FrameBytes` | src/mavlink.js:798-822 | an assembled frame is payload length + 8 bytes |
| `Frames.FrameOfFrameBytes` | src/mavlink.js:807-824 | viewing an assembled frame gives back its start byte, header fields (as bytes), payload and checksum |
| `Frames.FrameBytesChecksum` | src/mavlink.js:819-822 | an assembled frame carries the CRC of bytes 1..len+5 plus the seed, little-endian |
| `Frames.CreateFrameOutcome` | src/mavlink.js:755-827 | no frame exactly for an unknown id or name; a frame exactly when the payload encodes; the frame's header holds the payload length, the next sequence number, the sender (the own sysid when the argument is 0), the component and the id; it carries the registered seed's checksum |
| `Frames.DecodeMessageOutcome` | src/mavlink.js:651-741 | undefined exactly for an unregistered id (or one with no layout); decoded values are keyed by the field names |
| `Frames.CreateThenDecode` | src/mavlink.js:651-827 | a message created from fitting data decodes back to the values written, a short string or array padded with zero elements |
| `Parser.Complete` | src/mavlink.js:522-573 | after a complete frame the machine is back in a legal between-bytes state |
| `Parser.Step` | src/mavlink.js:499-574 | parseChar keeps the between-bytes invariant: the length byte is recorded and the index stays below length + 8 |
| `Parser.Run` | src/mavlink.js:577-581 | parse keeps the same invariant |
| `Parser.IdleIgnoresNoise` | src/mavlink.js:501-522 | while waiting for a frame, a byte other than the start character changes nothing and emits nothing |
| `Parser.StepWritesWithinFrame` | src/mavlink.js:499-519 | parseChar writes only at the current index, which is at most length + 7 ≤ 262 |
| `Parser.StepStores` | src/mavlink.js:516-519 | inside a frame, a byte is stored at the index, the index advances, and nothing is emitted |
| `Parser.CompletionResets` | src/mavlink.js:570-572 | the byte that completes a frame resets index and length to 0, whatever the validation outcome |
| `Parser.CompletionEvents` | src/mavlink.js:547-569 | checksumFail is emitted exactly when the computed and received checksums differ, and is then the only event; message and the named event are emitted exactly when they match and the id filter passes |
| `Parser.CompletionSequence` | src/mavlink.js:547-553 | lastCounter becomes the sequence byte exactly on a valid checksum, filtered or not; sequenceError(s − lastCounter − 1) is emitted exactly when s > 0 and s − lastCounter ≠ 1 |
| `Parser.RunAppend` | src/mavlink.js:577-581 | feeding a ++ b equals feeding a and then b: chunked delivery gives the same state and event sequence as one call |
| `Parser.RunSnoc` | src/mavlink.js:577-581 | parse of one more byte is one more parseChar |
| `Parser.RunOne` | src/mavlink.js:577-581 | parse of a single byte is parseChar |
| `Parser.FeedPrefix` | src/mavlink.js:501-519 | from idle, the bytes of a well-formed frame before its last one are buffered without events |
| `Parser.ReceiveFrame` | src/mavlink.js:499-573 | from idle, a whole frame leaves exactly its bytes in the buffer and ends in the completion step |
| `Parser.ReceivedFrameView` | src/mavlink.js:524-556 | the received frame's view and checksums are those of the frame bytes themselves |
| `Parser.SeededFrameChecks` | src/mavlink.js:524-547 | a v1.0 frame checksummed with seed x passes the receiver's test exactly when x is the table seed of its id |
| `Parser.SeededFrameReceived` | src/mavlink.js:499-573 | a whole v1.0 frame checksummed with seed x causes checksumFail exactly when x is not the table seed; otherwise, if the filter passes, it ends with message and the named event |
| `Parser.CreatedFrameView` | src/mavlink.js:802-826 | a v1.0 frame made by createMessage starts with 0xFE, has its declared length, is its own view and carries the stored seed's checksum |
| `Parser.CreatedFrameReceived` | src/mavlink.js:537-547 | a frame made by createMessage (seeded at line 821) is accepted by a v1.0 receiver exactly when the stored derived seed equals the table seed for its id |
| `Parser.StepAsWritten` | src/mavlink.js:499-574 | parseChar as written, including a throw from decodeMessage at line 564, keeps the weaker invariant that allows a complete frame to stay in the buffer |
| `Parser.CompleteAsWritten` | src/mavlink.js:547-573 | the completion as written keeps that weaker invariant |
| `Parser.AsWrittenAgrees` | src/mavlink.js:547-573 | as written and corrected agree except when a valid, accepted frame has a payload too short for its fields; exactly then the source throws |
| `Parser.WedgeRepeats` | src/mavlink.js:516-573 | after such a throw, every later byte throws again with the same frame in the buffer and emits message again |
| `Parser.EmptyPayloadUnreadable` | src/mavlink.js:705-710 | a message whose first wire field is a uint32 cannot be read from an empty payload |
| `Parser.ShortFrameFacts` | src/mavlink.js:524-547 | the 8-byte frame with id 0 and an empty payload is well formed and passes the checksum test |
| `Parser.ShortFrameWedges` | src/mavlink.js:547-573 | as written, that frame's last byte makes parseChar throw and leaves the index at 8 |
| `Parser.ShortFrameRecovers` | src/mavlink.js:547-573 | corrected, the same frame is reported as unreadable and the machine is idle again |
| `Engine.LayoutOfFacts` | src/mavlink.js:233-271 | the layout a message is stored with is its ordered layout and is consistent |
| `Engine.LayoutOfUnique` | src/mavlink.js:233-271 | any ordered layout of the fields is that one |
| `Engine.RegisterSnoc` | src/mavlink.js:118-126 | addMessages over one more message registers that message on top |
| `Engine.RegisterOk` | src/mavlink.js:118-126 | every message registered by id has a consistent layout, if any |
| `Engine.RegisteredByName` | src/mavlink.js:101-107 | addMessage stores the message under its name and keeps the other names |
| `Engine.RegisteredById` | src/mavlink.js:101-107 | addMessage stores the message under its id and keeps the other ids |
| `Engine.RegisterFindsName` | src/mavlink.js:118-141 | after addMessages, a name defined last at index i looks up message i, and getMessageID gives its id |
| `Engine.RegisterFindsId` | src/mavlink.js:118-149 | after addMessages, an id defined last at index i looks up message i, and getMessageName gives its name |
| `Engine.RegisterStoresSeed` | src/mavlink.js:118-124 | in v1.0 the seed stored under an id is the derived seed of the message defined last with that id |
| `Engine.RegisterV09` | src/mavlink.js:118-126 | in v0.9 no seed is stored and no message gets a layout |
| `Engine.SeedString` | src/mavlink.js:290-298 | the loop builds the bytes of "name ", then "type name " and the array-size char for each field in wire order |
| `Engine.CalculateMessageChecksum` | src/mavlink.js:286-302 | the message's fields are ordered, and the seed is the folded CRC of the UTF-8 seed string |
| `Engine.ComposeFrame` | src/mavlink.js:755-827 | the lookup, payload loop and frame assembly compute `CreateFrame` for a given registry and send counter |
| `Engine.AssembleFrame` | src/mavlink.js:797-822 | the method assembles header, payload and checksum as `FrameBytes` specifies |
| `Engine.Mavlink.constructor` | src/mavlink.js:38-82 | a new engine has nothing registered, nothing received and sequence 0 |
| `Engine.Mavlink.AddMessage` | src/mavlink.js:101-107 | the message is stored under its id and its name; nothing else changes |
| `Engine.Mavlink.AddDefinition` | src/mavlink.js:120-124 | one iteration of addMessages: in v1.0 the seed is stored, then the message is added |
| `Engine.Mavlink.AddMessages` | src/mavlink.js:118-126 | the registry becomes `Register` of the old registry and the messages |
| `Engine.Mavlink.DecodeMessage` | src/mavlink.js:651-741 | the method returns the decoding `Frames.DecodeMessage` specifies |
| `Engine.Mavlink.ParseChar` | src/mavlink.js:499-574 | the buffer and counters become `Step`'s state and its events are appended; configuration and send counter unchanged |
| `Engine.Mavlink.FrameChecksums` | src/mavlink.js:524-547 | the computed and received checksums of the buffered frame |
| `Engine.Mavlink.Report` | src/mavlink.js:556-565 | the message and named events of an accepted frame, none for a filtered one |
| `Engine.Mavlink.CompleteFrame` | src/mavlink.js:522-573 | the completion step on the object, as `Complete` specifies |
| `Engine.Mavlink.Parse` | src/mavlink.js:577-581 | the state becomes `Run`'s state and its events are appended |
| `Engine.Mavlink.CreateMessage` | src/mavlink.js:755-827 | the frame is `CreateFrame`'s on the engine's registry and counter; the sequence counter advances exactly when a frame is produced, by one modulo 256; nothing else changes |

## Left out

- `loadDefinitions` (`src/mavlink.js:152-193`) reads and parses XML files asynchronously. The registry is filled by `AddMessages` from an already-parsed message list, so the constructor starts with an empty registry.
- `addDefinition`, `addEnum`, `addEnums` and the enum list store data that nothing in the engine reads.
- The `EventEmitter` dispatch is left out. Each `emit` appends an entry to the `events` sequence.
- Debug and console logging is left out, including the warnings at `src/mavlink.js:637, 641, 714, 760, 773, 786` and the dead variables at `src/mavlink.js:529-536`.
- `main.js` (serial-port setup and demo calls) is not part of this model.
- Float and double values are IEEE-754 bit patterns. They are treated as opaque 4- and 8-byte little-endian images. Decoding returns the bytes, not a number.
- Numbers are integers. JavaScript `Number()` coercion and non-integral numbers are not modelled. These writes fail with `Unmodelled`:
  - a string passed to an integer field;
  - a number passed to a float field;
  - `charCodeAt(0)` of an empty string.
- A numeric string passed as `msgid` to `createMessage` (`src/mavlink.js:766`) is not modelled. A message is referred to by a number or by a name.
- A type token outside the width table is not modelled, and neither is an array size that is not a decimal numeral (`char[0x10]`, which `Number` coercion at `src/mavlink.js:226-228` would read as 16). `addMessages` requires well-formed fields (`Layout.WellFormed`). `Layout.OrderFields` alone reports such tokens with `None`.
- Frames whose payload length is 256 or more cannot be sent as v1.0 frames. `Frames.CreateFrameOutcome` states its header facts only for payloads under 256 bytes.
- In v0.9 no layout is computed (`src/mavlink.js:121`). `createMessage` then fails with `NoLayout`, where the source would throw while allocating a buffer of undefined length. `decodeMessage` gives `Undefined`.
- `Frames.DecodeMessageOutcome`: an id registered without a layout (v0.9) decodes as `Undefined`. The source instead loops over fields whose `arrayLength` is undefined, so it reads nothing and returns placeholder entries for array fields only.
- The contents of a fresh `Buffer(512)` are unspecified in the source. The constructor does not specify them either, and no property depends on them.
- The callback `cb` of `createMessage` is not modelled. The frame it would receive is the method's result.
- `Engine.Mavlink.CreateMessage`: the `sysid` argument is always given. The three-argument call shown at `src/mavlink.js:743-754` passes the callback as `sysid` and leaves `cb` undefined. The source then writes 0 as the header's system id, advances the counter, and throws at `cb(msgObj)` (`src/mavlink.js:826`) without delivering the frame. The model does not capture that call form.
- `Frames.MessageId`: `messagesByName` is a plain object (`src/mavlink.js:61`). A name inherited from `Object.prototype` (`toString`, `constructor`, `valueOf`, `__proto__`) passes the test at `src/mavlink.js:137`, and reading `.$.id` from it throws. The model answers -1 for such a name, as for any unregistered one, so `createMessage("toString", …)` is an `UnknownMessage` error here where the source throws.
- An exception thrown by a Buffer write or read is modelled as an error result (`WriteError`, `EncodeError`, `Unreadable`). Its propagation through `parseChar` is the finding below.
- A char array is rendered with `toString()` as UTF-8 text (`src/mavlink.js:737`). The model keeps the byte sequence instead.

## Findings

| source | as written | input that shows it | evidently intended | confidence | as-written member | corrected member |
|---|---|---|---|---|---|---|
| src/mavlink.js:547-573 | `decodeMessage` is called at line 564, before the reset at lines 571-572. When the payload of a valid frame is shorter than its message's fields, the read throws and the reset never happens. `bufferIndex` stays at length + 8, so every later byte re-validates the same frame and throws again. The receiver is wedged for good. | A v1.0 engine with own ids 0/0 and message 0 (HEARTBEAT, first wire field uint32) registered. Feed `[0xFE, 0, s, 0, 0, 0, lo, hi]`, where lo/hi is the CRC of `[0, s, 0, 0, 0, 50]`. | A frame whose payload cannot be decoded should still end the frame. It is reported as unreadable and the machine returns to idle. | not executed | `Parser.ShortFrameWedges`, `Parser.WedgeRepeats`, `Parser.StepAsWritten` | `Parser.Step`, `Parser.ShortFrameRecovers` |
