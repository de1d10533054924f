# feather-protocol, modelled in Dafny

feather-protocol is a Rust implementation of the Minecraft network protocol. It has four parts:

- **A runtime wire layer.** This is the `types` module, `src/types.rs`. It reads and writes fixed-width big-endian integers, VarInt/VarLong, length-prefixed UTF-8 strings, booleans and UUIDs on `bytes` buffers.
- **A transport codec.** This is `src/network/codec.rs`. It splits the inbound byte stream into frames using VarInt length prefixes. It decrypts newly arrived bytes, handles the zlib data-length marker, and frames outgoing packets.
- **A protocol schema.** This is `spec/src/primitives.rs`, `spec/src/custom_type.rs` and `spec/src/validation.rs`. It covers packet identifiers and their order, the type language with its deserialisation, and the check that validates a protocol.
- **A code generator.** This is `codegen/src/generation.rs`. It turns an ordered packet map into Rust modules, one per direction and stage. It also covers the semantics of the `decode`/`encode` dispatch the generator emits.

There is one Dafny module per part, plus one for the runtime packet vocabulary:

| file | module | models |
|---|---|---|
| `wire.dfy` | `Wire` | `src/types.rs` |
| `packet.dfy` | `Packet` | `src/packet.rs` (Direction, Stage, DecodeError) |
| `transport.dfy` | `Transport` | `src/network/codec.rs` |
| `schema.dfy` | `Schema` | `spec/src/primitives.rs`, `spec/src/custom_type.rs`, the `Protocol` record of `spec/src/lib.rs` |
| `validation.dfy` | `Validation` | `spec/src/validation.rs` |
| `generation.dfy` | `Generation` | `codegen/src/generation.rs` |

Code that changes state step by step is modelled in imperative Dafny:

- a `bytes` buffer is the class `Wire.ByteBuf`;
- the VarInt reader and writer loops are methods with loop invariants;
- the codec's `Delimiter` and `PacketCodec` are classes;
- the validation pass is a loop over the packet map;
- the generator's repeated `split_off` calls run on the class `Generation.PacketMap`.

Each such method is proved equal to a pure specification function: `VarIntRead`, `DecodeSpec`, `EncodeSpec`, `Skips`/`Unique`, `Partition`, `ProtocolSpec`. The properties of the protocol are then proved as lemmas about those functions.

Modelling conventions:

- **Maps.** A `BTreeMap` is a sequence of entries in ascending key order. An `IndexMap` is a sequence in insertion order.
- **Integer widths.** The schema's `u8`, `u16`, `u64` and `i64` payloads and the runtime's `u64` packet id are subset types of the same range (`Schema.u8`, `Schema.u16`, `Schema.u64`, `Schema.i64`, `Packet.u64`).
- **Panics.** A slice past the end of a buffer, or an `advance` past its end, is the explicit outcome `Panicked`.
- **Rust casts and arithmetic.**
  - `as usize` wraps, as on a 64-bit target: `Wire.AsUsize`.
  - `as i32` keeps the low 32 bits: `Wire.AsI32`.
  - `i32 as u64` sign-extends: `Generation.AsU64`.
  - `decrypt_index -= length` wraps modulo 2^64, as in a release build.

The model follows the code wherever the code does something surprising, and a lemma exhibits each such behaviour:

- `read_head` consumes a partial VarInt prefix. A length prefix split across two reads therefore loses its first byte: `Transport.SplitHeadLosesFrame`.
- `decode` reduces `decrypt_index` but keeps using `encrypt_index`. After a frame is split off, the next call slices past the end of the buffer: `Transport.StaleEncryptIndexPanics`.
- Below the compression threshold, `encode` writes the zero data-length marker into its scratch array rather than into `dst`: `Transport.EncodeBelowThreshold`.
- `DirectionGenerator::generate` hands the Login group to the Status generator and the Status group to the Login generator: `Generation.SwappedStages`.

## Model

| member | source | states |
|---|---|---|
| Wire.AsUsize | src/types.rs:218 | `as usize` on a 64-bit target: a non-negative value is unchanged, a negative one wraps to at least 2^63 |
| Wire.AsI32 | src/network/codec.rs:286 | `as i32` keeps the low 32 bits as a signed value; sizes below 2^31 are unchanged |
| Wire.ByteBuf.GetU8 | src/types.rs:154 | taking one byte returns the front byte and drops exactly it |
| Wire.ByteBuf.Advance | src/network/codec.rs:302 | `advance(n)` drops exactly the first `n` bytes |
| Wire.ByteBuf.Put | src/network/codec.rs:282 | `extend` appends the bytes at the back |
| Wire.ByteBuf.SplitTo | src/network/codec.rs:238 | `split_to(n)` returns the first `n` bytes and leaves the rest |
| Wire.ByteBuf.ReplaceFrom | src/network/codec.rs:208 | in-place decryption of `src[i..]` overwrites the bytes from index `i` with exactly as many bytes and keeps those before `i` |
| Wire.BigEndianRoundTrip | src/types.rs:131-141 | decoding the big-endian bytes of a number gives the number back |
| Wire.FixedRead | src/types.rs:112-119 | `NotEnoughBytes` (nothing consumed) exactly when fewer than the type's size remain; otherwise exactly that many bytes are consumed and the value is in the type's range |
| Wire.FixedRoundTrip | src/types.rs:110-129 | reading back what `write` put for an integer type gives the value and consumes its size, whatever follows |
| Wire.ReadFixed | src/types.rs:112-119 | the buffer read returns what `FixedRead` says and advances by what it consumes |
| Wire.WriteFixed | src/types.rs:122-127 | `write` appends the value's big-endian bytes and returns the type's size |
| Wire.ToUnsigned | src/types.rs:155-156 | the two's-complement bit pattern of a signed value, read back as signed, is the value |
| Wire.Truncate | src/types.rs:156 | the accumulated groups keep only the low bits of the target width; bytes consumed and success or failure are those of the untruncated read |
| Wire.ShiftLeft | src/types.rs:156 | `overflowing_shl` stays inside the target width |
| Wire.ReadGroups | src/types.rs:150-165 | the VarInt loop: it consumes no more than it is given; it fails `NotEnoughBytes` only after taking everything; it fails `Malformed` exactly one byte past the limit; it never reports `ValueTooLarge` |
| Wire.VarIntRead | src/types.rs:146-168 | a VarInt read succeeds with a 32-bit value after 1 to 5 bytes, fails `Malformed` after 6, and never reports `ValueTooLarge` |
| Wire.VarLongRead | src/types.rs:191-213 | a VarLong read succeeds with a 64-bit value after 1 to 10 bytes and fails `Malformed` after 11 |
| Wire.GroupsRead | src/types.rs:150-165 | the reader loop decodes the 7-bit groups of any number that fits the remaining groups, whatever follows |
| Wire.VarRoundTrip | src/types.rs:146-168 | for either width, the bytes of a value's two's-complement groups read back as that value |
| Wire.Groups | src/types.rs:170-189 | a value is written as at least one 7-bit group |
| Wire.GroupsContinuation | src/types.rs:176-183 | every written byte but the last has the continuation bit set, and the last has it clear |
| Wire.ShiftRight7 | src/types.rs:176 | `k` successive shifts by 7 bits divide by 2^(7k), rounding down as an arithmetic shift does |
| Wire.VarIntBytes | src/types.rs:170-189 | a VarInt takes between 1 and 5 bytes |
| Wire.VarLongBytes | src/types.rs:191-213 | a VarLong takes between 1 and 10 bytes |
| Wire.VarIntRoundTrip | src/types.rs:146-189 | `try_read` of the VarInt bytes of any `i32` gives it back and consumes exactly those bytes |
| Wire.VarLongRoundTrip | src/types.rs:191-213 | the same round trip for any `i64` through the VarLong reader |
| Wire.VarIntBytesNonNegative | src/types.rs:170-189 | for a non-negative value, the bytes written are its 7-bit groups, least significant first |
| Wire.VarIntSixthByteMalformed | src/types.rs:158-161 | five continuation bytes make the read fail `Malformed` after taking a sixth byte |
| Wire.VarLongEleventhByteMalformed | src/types.rs:203-206 | ten continuation bytes make the VarLong read fail `Malformed` after an eleventh |
| Wire.ContinuationsMalformed | src/types.rs:158-161 | a run of continuation bytes that reaches the limit fails `Malformed` one byte past it |
| Wire.ContinuationsIncomplete | src/types.rs:151-153 | a buffer of continuation bytes only, within the limit, fails `NotEnoughBytes` having taken all of it |
| Wire.ReadVarGroups | src/types.rs:147-166 | the loop returns what `ReadGroups` says, truncated to the width, and advances the buffer by what it consumed |
| Wire.ReadVarInt | src/types.rs:146-168 | `VarInt::try_read` on a buffer returns what `VarIntRead` says and advances by what it consumes |
| Wire.ReadVarLong | src/types.rs:191-213 | `VarLong::try_read` on a buffer returns what `VarLongRead` says and advances by what it consumes |
| Wire.WriteVarInt | src/types.rs:170-189 | `VarInt::write` of a non-negative value appends its VarInt bytes and returns how many |
| Wire.NegativeShiftNeverZero | src/types.rs:176-184 | for a negative value, the arithmetic `x >>= 7` never reaches zero, so the writer never exits |
| Wire.IsUtf8 | src/types.rs:226-230 | valid UTF-8 never starts with a continuation byte, an overlong lead byte `C0`/`C1`, or a byte above `F4` |
| Wire.AsciiIsUtf8 | src/types.rs:226-230 | every all-ASCII byte sequence is valid UTF-8 |
| Wire.StringRead | src/types.rs:215-237 | a string read consumes no more than it is given and, on success, yields valid UTF-8 of at most 32767 bytes |
| Wire.StringRoundTrip | src/types.rs:215-237 | a VarInt length followed by that many UTF-8 bytes reads back as those bytes |
| Wire.StringTooLong | src/types.rs:222-224 | a length above 32767 fails `ValueTooLarge` after the length only |
| Wire.StringNegativeLength | src/types.rs:217-224 | a negative length wraps to a huge `usize` and fails `ValueTooLarge` |
| Wire.StringShort | src/types.rs:232-236 | fewer bytes than the length fail `NotEnoughBytes` after taking them all |
| Wire.StringNotUtf8 | src/types.rs:226-230 | bytes that are not UTF-8 fail `Malformed` |
| Wire.ReadString | src/types.rs:215-237 | `String::try_read` on a buffer returns what `StringRead` says and advances by what it consumes |
| Wire.BoolRead | src/types.rs:248-256 | empty input fails `NotEnoughBytes`; bytes 0 and 1 are false and true; anything else is `Malformed`; one byte is consumed whenever there is one |
| Wire.ReadBool | src/types.rs:248-256 | `bool::try_read` on a buffer returns what `BoolRead` says and advances by what it consumes |
| Wire.ReadUuid | src/types.rs:240-245 | a UUID is the next 16 bytes, which are consumed |
| Packet.FromError | src/packet.rs:41-45 | every primitive read error becomes `TryRead` of that same error |
| Transport.Crypt | src/network/codec.rs:208 | the cipher transforms bytes in place and keeps their number |
| Transport.NewCompressor | src/network/codec.rs:31-39 | a new compressor has threshold 256 and the buffers it was given |
| Transport.ReadHeadSpec | src/network/codec.rs:80-96 | a length read from the head never exceeds `max_length` and takes at least one byte |
| Transport.ReadHeadRoundTrip | src/network/codec.rs:82-88 | the VarInt of any allowed length reads back as that length |
| Transport.ReadHeadTooLarge | src/network/codec.rs:84-87 | a length whose `usize` value exceeds `max_length` is an error, negative lengths included |
| Transport.ReadHeadIncomplete | src/network/codec.rs:90 | an incomplete prefix yields no length but still consumes the bytes read |
| Transport.Delimit | src/network/codec.rs:213-222 | the delimiter ends with a length exactly when it is in `Data` of that length; in `Data` nothing is read; the source never grows |
| Transport.Delimiter.constructor | src/network/codec.rs:73-78 | a new delimiter waits for a head |
| Transport.Delimiter.ReadHead | src/network/codec.rs:80-96 | `read_head` on a buffer returns what `ReadHeadSpec` says and advances by what it consumed |
| Transport.Delimiter.NextLength | src/network/codec.rs:213-222 | the length match leaves the delimiter and the buffer as `Delimit` says |
| Transport.DecryptNew | src/network/codec.rs:207-210 | the slice panics exactly when `encrypt_index` is past the end; otherwise decrypting the newly arrived bytes keeps the buffer's length and keeps encryption on |
| Transport.FrameRemoved | src/network/codec.rs:233-235 | removing a frame keeps encryption on or off |
| Transport.DecodeHeadThenWait | src/network/codec.rs:213-227 | a full prefix with too little body consumes the prefix, moves the delimiter to `Data(n)` and yields nothing |
| Transport.DecodeDataWaits | src/network/codec.rs:221-227 | in `Data(n)` with fewer than `n` bytes, nothing changes |
| Transport.DecodeDataFrame | src/network/codec.rs:229-263 | in `Data(n)` with `n` bytes, the first `n` bytes are the packet, the delimiter resets and the rest stays |
| Transport.DecodeWholeFrame | src/network/codec.rs:205-264 | a plain frame `VarInt(len) ++ body` decodes to the packet read from `body` and leaves the rest |
| Transport.DecodePartialHead | src/network/codec.rs:214-219 | an incomplete prefix is consumed and nothing is produced |
| Transport.SplitHeadLosesFrame | src/network/codec.rs:82-90 | the prefix of a 300-byte frame split after its first byte is lost: the rest is framed as a 2-byte packet |
| Transport.WholePrefixFrames | src/network/codec.rs:205-264 | the two-byte prefix of 300 delivered whole frames the 300 bytes after it |
| Transport.FirstPrefixByteWaits | src/network/codec.rs:82-90 | the first byte of that prefix alone yields no frame, and is consumed |
| Transport.SecondPrefixByteFrames | src/network/codec.rs:205-264 | the prefix's second byte, read as a fresh length prefix, takes a 2-byte frame |
| Transport.DecodeLengthTooLarge | src/network/codec.rs:85-86 | a prefix above `max_length` fails the decode |
| Transport.DecodeEncryptionIndices | src/network/codec.rs:207-210 | when `encrypt_index` lies within the buffer, decode does not panic; the cipher advances over exactly the bytes after `encrypt_index`, which then becomes the buffer length |
| Transport.DecodeEncryptedFrame | src/network/codec.rs:205-264 | with encryption, a frame is read from the decrypted bytes and `decrypt_index` drops by the frame length, modulo 2^64 |
| Transport.StaleEncryptIndexPanics | src/network/codec.rs:208-234 | after a frame is split off, the unchanged `encrypt_index` points past the buffer and the next decode panics |
| Transport.InflateFrame | src/network/codec.rs:240-260 | without a compressor the frame is the payload; the compressor stays present; on an error it is unchanged; it changes only by having its inflated buffer split off after a successful decompression |
| Transport.ReadPacket | src/network/codec.rs:262-263 | the packet read either yields the packet or fails, and an earlier payload error is passed on unchanged |
| Transport.DecodeBody | src/network/codec.rs:224-263 | too few bytes wait with nothing changed; otherwise exactly `n` bytes are taken, the delimiter returns to `Head` and an outcome is produced; it never panics and keeps the maximum length, compression and encryption |
| Transport.DecodeSpec | src/network/codec.rs:205-264 | `decode` panics exactly when encryption is on and `encrypt_index` is past the end, and then changes nothing; the buffer never grows; the maximum length and the presence of compression and encryption are kept |
| Transport.InflateCapacityExceeded | src/network/codec.rs:246-248 | a data length above the inflated buffer's capacity is an error |
| Transport.InflateUncompressed | src/network/codec.rs:253-256 | data length 0 passes the rest of the frame through |
| Transport.InflateCompressed | src/network/codec.rs:250-252 | a positive data length inflates the rest and splits the output off the internal buffer, or fails |
| Transport.Zeros | src/network/codec.rs:280 | the scratch array is ten zero bytes |
| Transport.Seal | src/network/codec.rs:304-306 | encrypting the outgoing bytes keeps their length; without encryption they are unchanged |
| Transport.FramedFromEmpty | src/network/codec.rs:280-302 | after the header copy and the advance, an empty `dst` holds exactly `VarInt(len) ++ packet` |
| Transport.EncodePlain | src/network/codec.rs:275-309 | without compression or encryption, `encode` into an empty buffer yields `VarInt(len) ++ packet` |
| Transport.EncodeBelowThreshold | src/network/codec.rs:294-297 | below the threshold the frame carries no data-length marker, because the marker goes to the scratch array |
| Transport.EncodeAboveThreshold | src/network/codec.rs:292-293 | above the threshold `dst` holds the frame with no data-length marker; the compressor's buffer becomes what zlib leaves there, minus its first `offset` bytes; a failed deflate is an error |
| Transport.EncodeSpec | src/network/codec.rs:275-309 | a size that does not fit an `i32` panics with nothing changed, and without compression that is the only panic; `encode` always finishes with an outcome; it keeps the delimiter, the maximum length and the presence of compression and encryption; without compression a finished `dst` grows by the length prefix and the packet |
| Transport.EncodeIntoNonEmpty | src/network/codec.rs:282-289 | into a buffer already holding 10 or more bytes, the header is copied to absolute index `offset`, over the old bytes, so the buffer ends with ten zero bytes and the packet, with no length prefix |
| Transport.EncodeDecodeRoundTrip | src/network/codec.rs:205-309 | a packet encoded without compression or encryption decodes back to itself, leaving nothing behind |
| Transport.CanConvert | src/network/codec.rs:166-194 | a conversion always changes the stage, never leads back to Handshaking and never leaves Play |
| Transport.ConversionsAllowed | src/network/codec.rs:191-194 | the codec converts only Handshaking to Status or Login, and Login to Play |
| Transport.PacketCodec.constructor | src/network/codec.rs:154-163 | a new codec is plain: no compressor, no encryption |
| Transport.PacketCodec.Convert | src/network/codec.rs:175-184 | a stage conversion keeps the side, compressor, encryption and delimiter |
| Transport.PacketCodec.DecryptArrived | src/network/codec.rs:207-210 | the decryption step leaves the cipher and buffer as `DecryptNew` says, or reports the panic |
| Transport.PacketCodec.Inflate | src/network/codec.rs:241-260 | the compression step returns the payload and compressor `InflateFrame` says |
| Transport.PacketCodec.Decode | src/network/codec.rs:205-264 | `decode` yields the outcome, codec state and remaining input `DecodeSpec` says |
| Transport.PacketCodec.TakeFrame | src/network/codec.rs:224-263 | the part after the length is known matches `DecodeBody` |
| Transport.PacketCodec.Encode | src/network/codec.rs:275-309 | `encode` yields the outcome, codec state and `dst` `EncodeSpec` says |
| Schema.StageOrder | spec/src/primitives.rs:3-9 | Handshaking < Status < Login < Play, and the rank tells stages apart |
| Schema.DirectionOrder | spec/src/primitives.rs:11-15 | Client < Server, and the rank tells directions apart |
| Schema.Deref | spec/src/primitives.rs:19-24 | rewrapping the dereferenced value gives back the newtype |
| Schema.From | spec/src/primitives.rs:26-30 | the wrapped value is the one given |
| Schema.WrapRoundTrip | spec/src/primitives.rs:17-31 | `From` and `Deref` are inverse both ways |
| Schema.IdentifierLess | spec/src/primitives.rs:72-73 | an identifier never sorts before itself |
| Schema.IdentifierRank | spec/src/primitives.rs:72-73 | each identifier has one place in a linear order below 8·2^64 |
| Schema.IdentifierLessIsRankOrder | spec/src/primitives.rs:72-73 | the derived lexicographic order is exactly the rank order, and equal ranks mean equal identifiers |
| Schema.IdentifierOrderTotal | spec/src/primitives.rs:72-73 | the identifier order is irreflexive, transitive and total |
| Schema.BelowStageStart | spec/src/primitives.rs:72-73 | below `(d, s, 0)` lie exactly the earlier directions, and the earlier stages of `d` |
| Schema.Name | spec/src/custom_type.rs:33-41 | `name()` returns the name of whatever variant it is given |
| Schema.NameOfEach | spec/src/custom_type.rs:33-41 | each variant's constructor name is what `name()` returns |
| Schema.FromInteger | spec/src/custom_type.rs:226-230 | an integer type converts to `FieldType::Integer` of it |
| Schema.FromFloat | spec/src/custom_type.rs:232-236 | a float type converts to `FieldType::Float` of it |
| Schema.FromPrimitive | spec/src/custom_type.rs:238-242 | a primitive type converts to `FieldType::Primitive` of it |
| Schema.Deserialize | spec/src/custom_type.rs:158-222 | the flat tag decodes to an integer, float or custom type exactly when it names one, keeping a custom type's name |
| Schema.TagOf | spec/src/custom_type.rs:111-156 | the flat tag that deserialises to a field type is integer, float or custom exactly when the type is, and a custom type keeps its name |
| Schema.DeserializeBijective | spec/src/custom_type.rs:158-222 | the flattening deserialisation loses nothing and reaches every field type |
| Schema.DeserializeInjective | spec/src/custom_type.rs:158-222 | the tag can be recovered from its field type |
| Schema.DeserializeOnto | spec/src/custom_type.rs:158-222 | every field type is the decoding of its tag |
| Schema.DeserializeNumbers | spec/src/custom_type.rs:160-171 | each numeric tag decodes to its own integer or float type |
| Schema.DeserializePayloads | spec/src/custom_type.rs:172-221 | `Boolean`, `Uuid` and `Nbt` become those primitives; string, array, option and shared tags carry their payloads into the primitive; each of the five custom tags (enum, struct, bit field, bit flags, unit) becomes that custom type with its name and payload |
| Schema.StringLess | spec/src/custom_type.rs:244-250 | a string sorts only before a different string |
| Schema.LiteralLess | spec/src/custom_type.rs:244-250 | a literal sorts only before a different literal |
| Schema.StringLessIrreflexive | spec/src/custom_type.rs:244-250 | no string sorts before itself |
| Schema.StringLessTransitive | spec/src/custom_type.rs:244-250 | the string order is transitive |
| Schema.StringLessTotal | spec/src/custom_type.rs:244-250 | any two distinct strings are ordered one way |
| Schema.LiteralOrderTotal | spec/src/custom_type.rs:244-250 | the derived order of `Literal` is a strict total order |
| Schema.LiteralVariantsInOrder | spec/src/custom_type.rs:244-250 | strings sort before booleans, which sort before integers |
| Validation.Validate | spec/src/validation.rs:10-40 | `Ok` exactly when no (direction, stage, name) repeats; on success, the printed gaps are `Skips`; on failure, the error names the first repeat and the identifier it collides with |
| Validation.SameNameElsewhereAccepted | spec/src/validation.rs:22-29 | a name may repeat across stages or directions, just not within one |
| Validation.SkipsAreNeighbourGaps | spec/src/validation.rs:14-20 | a gap is reported exactly for neighbours in one direction and stage whose ids do not follow on |
| Validation.SkipMeansJump | spec/src/validation.rs:15-17 | in an ordered map a reported gap is a jump of more than one, and `id + 1` cannot overflow |
| Generation.KeptFields | codegen/src/generation.rs:359-361 | the fields kept are fields of the struct, and none is a `Key` |
| Generation.KeptFieldsMembers | codegen/src/generation.rs:361 | a field is kept exactly when it is not a `Key` |
| Generation.KeptFieldsCount | codegen/src/generation.rs:361 | one field is dropped per `Key` |
| Generation.KeptFieldsAppend | codegen/src/generation.rs:359-361 | the filter distributes over concatenation, so relative order is kept |
| Generation.NoKeysKeptWhole | codegen/src/generation.rs:359-361 | a struct with no `Key` keeps all its fields, in order |
| Generation.Rename | codegen/src/generation.rs:363-368 | `type` becomes `kind`, `match` becomes `match_`, every other name is unchanged, and no result is `type` or `match` |
| Generation.TypeGen | codegen/src/generation.rs:475-513 | a custom type is referred to by its camel-cased name; `Constant`/`Key` give no tokens; arrays and options wrap their element; only custom types declare items |
| Generation.CustomGen | codegen/src/generation.rs:340-353 | the ident is the camel-cased name and names the first item, which has the custom type's kind; a unit type is a unit struct; a `BitField` emits nothing |
| Generation.FieldList | codegen/src/generation.rs:359-381 | one emitted field per kept field |
| Generation.StructGen | codegen/src/generation.rs:355-388 | the struct comes first under the camel-cased name, holding the emitted field list |
| Generation.VariantGen | codegen/src/generation.rs:401-415 | the variant is named by the camel-cased key name; it has no payload exactly for `Unit`, which declares nothing; otherwise its payload is the type generated under that same name |
| Generation.EnumGen | codegen/src/generation.rs:390-429 | the enum comes first, with one variant per schema variant, in key order |
| Generation.BitflagsGen | codegen/src/generation.rs:442-469 | one `bitflags!` struct with flags upper-cased in key order and typed by the kind's tokens; the kind's own items are dropped |
| Generation.StructFieldsEmitted | codegen/src/generation.rs:355-388 | the emitted struct has one field per non-`Key` field, in order, renamed and typed by its type's tokens, and none named `type` or `match` |
| Generation.EnumVariantsEmitted | codegen/src/generation.rs:399-417 | the emitted enum has one variant per schema variant; each is unit exactly when the schema variant is `Unit`, and otherwise wraps the type generated from the key name |
| Generation.DirectionIdent | codegen/src/generation.rs:101-106 | the direction module's name is a snake-case identifier that `Ident::new` accepts, ending in `_bound` |
| Generation.StageIdent | codegen/src/generation.rs:228-235 | the stage module's name is a snake-case identifier that `Ident::new` accepts, with no underscore |
| Generation.IdentsDistinct | codegen/src/generation.rs:101-106 | the module names `client_bound` / `server_bound` and the four lowercase stage names never collide |
| Generation.RuntimeDirection | codegen/src/generation.rs:136-143 | the emitted direction token is the same direction |
| Generation.RuntimeStage | codegen/src/generation.rs:145-150 | the emitted stage token is the same stage |
| Generation.PacketGen | codegen/src/generation.rs:241-326 | the packet module is the snake-cased name; its type is the camel-cased name camel-cased again; its impl carries the identifier's id, direction and stage |
| Generation.StageGen | codegen/src/generation.rs:112-226 | each entry given becomes one variant, one dispatch id and one packet module, in order, under a module named after the stage |
| Generation.SplitPoint | codegen/src/generation.rs:63-64 | `split_off` cuts after the leading entries below the key |
| Generation.SplitExact | codegen/src/generation.rs:63-76 | in an ordered map the kept part is exactly the entries below the key, and the part split off exactly those at or above it |
| Generation.PacketMap.constructor | codegen/src/generation.rs:16 | the map holds the ordered entries it is given |
| Generation.PacketMap.SplitOff | codegen/src/generation.rs:63-64 | `split_off(key)` returns the tail at or above the key and keeps the rest; both parts stay ordered maps |
| Generation.Cut | codegen/src/generation.rs:63-64 | the two parts of a cut concatenate back to the map |
| Generation.Partition | codegen/src/generation.rs:63-76 | the four successive cuts lose nothing: below, Handshaking, Status, Login and Play concatenate back to the map |
| Generation.DirectionSpec | codegen/src/generation.rs:78-98 | as written, the Status module is generated from the Login group and the Login module from the Status group |
| Generation.GenerateDirection | codegen/src/generation.rs:57-99 | the four `split_off`s and stage generators yield `DirectionSpec`, and the map, still ordered, keeps only what lies below the Handshaking start |
| Generation.StageCut | codegen/src/generation.rs:63-76 | within one direction, the cut at a stage start splits by stage rank |
| Generation.NothingBelowHandshaking | codegen/src/generation.rs:72-76 | nothing of a direction lies below its Handshaking start |
| Generation.PartitionByStage | codegen/src/generation.rs:63-76 | for one direction, each group is exactly the entries of its stage, and nothing is left over |
| Generation.SwappedStages | codegen/src/generation.rs:80-83 | the emitted `status` module reports Status but holds only Login packets, and `login` the reverse |
| Generation.OwnStages | codegen/src/generation.rs:78-85 | the Handshaking and Play modules hold only their own packets |
| Generation.DirectionIntended | codegen/src/generation.rs:78-85 | each stage generator is given its own group |
| Generation.IntendedStagesOwn | codegen/src/generation.rs:80-83 | with the groups matched, every module holds only packets that report its stage, and the other modules are unchanged |
| Generation.SplitDirections | codegen/src/generation.rs:17-28 | the two top-level cuts concatenate back to the map |
| Generation.SplitByDirection | codegen/src/generation.rs:17-28 | the Server part is exactly the Server-bound entries and the Client part exactly the Client-bound ones; both stay ordered and nothing is lost |
| Generation.FlattenAppend | codegen/src/generation.rs:35-39 | flattening keeps each part's items, in order |
| Generation.SharedParts | codegen/src/generation.rs:35-39 | one part per shared type, holding that type's generated items |
| Generation.SharedItems | codegen/src/generation.rs:35-39 | no shared types emit nothing, and one shared type emits exactly its own generated items |
| Generation.SharedItemsInOrder | codegen/src/generation.rs:35-39 | the shared module emits each shared type's items in declaration order: those of `a + b` are those of `a`, then those of `b` |
| Generation.ProtocolSpec | codegen/src/generation.rs:16-50 | the direction module built from the Server-bound part is named `server_bound` and the one from the Client-bound part `client_bound`, although the source's local variables call them `client` and `server` |
| Generation.DirectionModuleDirection | codegen/src/generation.rs:78-85 | a direction module built from entries of one direction holds only packet modules reporting that direction, swap or no swap |
| Generation.DirectionsOwnPackets | codegen/src/generation.rs:16-50 | in an ordered packet map, every packet module under `server_bound` reports Server and every one under `client_bound` reports Client |
| Generation.GenerateProtocol | codegen/src/generation.rs:16-51 | for the ordered packet map of a protocol, the two `split_off`s and direction generators yield `ProtocolSpec` |
| Generation.SampleClientHandshaking | codegen/tests/temp.rs:16-31 | the sample's one packet `ma` is the only variant of `client_bound::handshaking`, wrapping its packet type, and that type is a struct with the one field `username: String` |
| Generation.SampleClientOthers | codegen/tests/temp.rs:33-41 | the sample's other Client-bound stage modules are empty |
| Generation.SampleServerEmpty | codegen/tests/temp.rs:2-15 | the sample's four Server-bound stage modules are empty |
| Generation.SampleSplit | codegen/src/generation.rs:17-28 | the sample's one Client-bound packet all goes to the Client part |
| Generation.SamplePartition | codegen/src/generation.rs:63-76 | the sample's packet lands in the Handshaking group and nowhere else |
| Generation.SampleStruct | codegen/tests/temp.rs:27-31 | the sample packet's module declares the struct `Ma { username: String }` |
| Generation.SingleEntryStage | codegen/src/generation.rs:120-134 | a one-packet group gives one variant `Name(NameType)` over that packet's module |
| Generation.AsU64 | codegen/src/generation.rs:199 | `i32 as u64` sign-extends: a non-negative value is unchanged, a negative one gains 2^64 |
| Generation.EmittedReadId | codegen/src/generation.rs:196-199 | the id read panics exactly on fewer than five bytes; it never reports `Malformed`; it yields a `u64` |
| Generation.FirstIndex | codegen/src/generation.rs:200-203 | a `match` takes the first arm whose id matches |
| Generation.Dispatch | codegen/src/generation.rs:200-209 | a known id dispatches to its arm; an unknown one fails `NonExistentPacket` with the module's direction and stage; a read error passes through |
| Generation.StageDecode | codegen/src/generation.rs:195-210 | the stage `decode` panics exactly on fewer than five bytes; it dispatches only to an arm with the id read; it reports unknown ids with the module's direction and stage; it never reports `Malformed` |
| Generation.PacketDecode | codegen/src/generation.rs:304-318 | a packet's `decode` accepts exactly its own id, read from a five-byte copy, and otherwise fails `NonExistentPacket` with its own direction and stage |
| Generation.DispatchedPacketAccepts | codegen/src/generation.rs:197-202 | since neither read advances `buf`, the packet decoder a stage dispatches to always passes its id check |
| Generation.EncodePacket | codegen/src/generation.rs:296-302 | `encode` appends `VarInt(id as i32)` and returns its byte count |
| Generation.EncodedIdReadBack | codegen/src/generation.rs:296-308 | the id `encode` writes is the id `decode` reads back, once five bytes are there |
| Generation.DispatchRoundTrip | codegen/src/generation.rs:195-210 | in a group of one direction and stage, a packet encoded by its own module is dispatched to that module, once five bytes are there |
| Generation.ShortPacketPanics | codegen/src/generation.rs:197 | a one-byte packet (id 0, no fields) makes the emitted `decode` panic |
| Generation.BoundedReadId | codegen/src/generation.rs:197-198 | reading the id from at most five bytes never panics and never reports `Malformed` |
| Generation.StageDecodeBounded | codegen/src/generation.rs:195-210 | the stage `decode` with the bounded read never panics and dispatches only to an arm with the id read |
| Generation.BoundedDispatchRoundTrip | codegen/src/generation.rs:195-210 | with the bounded read, every encoded id below 2^31 dispatches to the first arm with that id, however short the packet |

## Left out

- I/O and framework glue are not modelled: the `tokio_util` `Decoder`/`Encoder` traits, `anyhow`'s error text, and the `println!` of gap lines. Validation returns the gap lines as a sequence instead.
- The AES-CFB8 cipher and zlib are foreign code. The cipher is an opaque byte-step function over an opaque state. `compress`/`decompress` are opaque functions that may fail, and the inflated buffer's capacity is a parameter.
- Transport.InflateFrame: the inflated buffer's capacity (`Compressor.inflatedCapacity`) is held fixed across frames. In the source `decompress` first reserves room for its input, so the capacity that later frames are checked against may have grown; how much `BytesMut::reserve` allocates is not modelled.
- `compress`/`decompress` are given the working buffer and the input and return the buffer's new contents. Where zlib puts its output in that buffer (appended or not) is left open, so no contract says that `decode` sees only the new output.
- The packet decoder that `decode` calls last (`src.try_read()`) is a parameter, `readPacket`.
- The type-level stage and side of `PacketCodec` (its `PhantomData` parameters and the `State` impls choosing the inbound and outbound packet types) are constant fields of the class.
- Floating-point reads and writes (`f32`, `f64`) are not modelled. `Nbt` reads call the `nbt` crate and are not modelled.
- Wire.ReadUuid: requires 16 bytes. `copy_to_slice` panics on fewer, and that panic is not modelled as an outcome.
- Wire.WriteVarInt: requires a non-negative value. On a negative value the source's loop never exits (see Findings).
- Generation.EncodePacket: requires `id as i32` to be non-negative, for the same reason.
- The generator's token streams are modelled as the items and identifiers they declare. Not modelled:
  - the rendered Rust text;
  - the `From` impls and the `id()`/`name()` delegation of the stage enum;
  - the stage `encode` dispatch, which delegates to the packet's `encode`;
  - the unused `SerilizationGenerator`.
- The `unimplemented!()` body of the emitted packet `decode` is left out. The model stops once the id check passes.
- The case conversions are opaque parameters (`Generation.Casing`): `heck`'s `to_camel_case` and `to_snake_case`, and the standard library's `str::to_uppercase` for flag names. A `Type::Array`'s length, and a `Shared` type's name, are ignored by the generator and are not part of the model.
- The extractor, the spec CLI (`spec/src/main.rs`), the proc macro (`codegen-proc/src/lib.rs`), RON deserialisation and file I/O are not part of this model.

## Findings

| source | as written | input that shows it | evidently intended | confidence | as-written member | corrected member |
|---|---|---|---|---|---|---|
| codegen/src/generation.rs:197 | the emitted `decode` takes `buf.slice(..5)` before reading the id | a one-byte packet `[0x00]`: id 0, no fields | read the id from at most the first five bytes | not executed; high: `Bytes::slice` panics when the range exceeds the length | Generation.ShortPacketPanics | Generation.BoundedDispatchRoundTrip |
| src/types.rs:176 | `VarInt::write` shifts the signed value with `x >>= 7` until it reaches zero | `VarInt::from(-1).write(buf)` | encode the 32-bit two's-complement pattern in five bytes, which is what the reader accepts | not executed; high: an arithmetic shift of a negative `i32` stays negative | Wire.NegativeShiftNeverZero | Wire.VarIntRoundTrip |
| codegen/src/generation.rs:80-83 | the Login group goes to the Status generator and the Status group to the Login generator | one Client-bound Login packet: it is emitted under `client_bound::status` | each stage generator gets its own group | not executed; high: the bindings are crossed at the call sites | Generation.SwappedStages | Generation.IntendedStagesOwn |
