/**
 * The transport codec of `src/network/codec.rs`: a length-prefix frame
 * delimiter (a two-state machine over the inbound buffer), optional
 * decryption of newly arrived bytes, optional zlib data-length handling, and
 * the encoder that frames an outgoing packet.
 *
 * The cipher (AES in 8-bit CFB mode) and zlib are foreign code: the cipher is
 * an opaque byte-at-a-time step function over an opaque state, and
 * compression and decompression are opaque functions that may fail.
 *
 * Each of `decode` and `encode` is given as a pure function over a
 * `CodecState` value (`DecodeSpec`, `EncodeSpec`) and as a method of the
 * `PacketCodec` class whose effect on its fields and buffers is proved equal
 * to that function. The lemmas are about the functions.
 */
module Transport {
  import opened Wire
  import Packet

  datatype Option<T> = None | Some(value: T)

  /** Which end of the connection a codec serves (`ServerSide` / `ClientSide`). */
  datatype Side = ServerSide | ClientSide

  /** `DelimiterState`: waiting for a length prefix, or for the body of `length` bytes. */
  datatype DelimiterState = Head | Data(length: nat)

  /** The ways `decode` and `encode` fail (the source reports them as `anyhow` errors). */
  datatype CodecError =
    | LengthTooLarge              // the frame length exceeds `max_length`
    | HeadError(error: Error)     // the length prefix is not a VarInt
    | DataLength(error: Error)    // the data-length VarInt of a compressed frame does not read
    | InflatedCapacityExceeded    // the data length exceeds the inflated buffer's capacity
    | DecompressFailed
    | CompressFailed
    | PacketRead(error: Error)    // the packet's own `try_read` failed

  /** What one call returns: no frame yet, a value, an error, or a panic of the source. */
  datatype Outcome<T> = NoFrame | Done(value: T) | Failed(error: CodecError) | Panicked

  // ---------------------------------------------------------------------------
  // Opaque collaborators
  // ---------------------------------------------------------------------------

  datatype CryptMode = Encrypt | Decrypt

  /** `AesCfb8`, opaque: a state and the step that processes one byte in a mode and advances the state. */
  datatype Crypter = Crypter(state: nat, step: (nat, CryptMode, byte) -> (nat, byte))

  datatype Crypted = Crypted(crypter: Crypter, bytes: seq<byte>)

  /** Runs the cipher over `s` in place, byte by byte. */
  function Crypt(c: Crypter, mode: CryptMode, s: seq<byte>): (r: Crypted)
    ensures |r.bytes| == |s|
    decreases |s|
  {
    if |s| == 0 then Crypted(c, [])
    else
      var (state', b) := c.step(c.state, mode, s[0]);
      var rest := Crypt(Crypter(state', c.step), mode, s[1..]);
      Crypted(rest.crypter, [b] + rest.bytes)
  }

  /** `Encryption`: the crypter and the two buffer indices the codec keeps. */
  datatype Encryption = Encryption(crypter: Crypter, encryptIndex: nat, decryptIndex: nat)

  /**
   * `Compressor`: the threshold, the two working buffers, the capacity of
   * the inflated buffer, and zlib's compression and decompression as opaque
   * functions (`None` is zlib's error). Each is given the working buffer as
   * it stands and the input, and yields the buffer's new contents: where
   * zlib places its output in the buffer is left open.
   */
  datatype Compressor = Compressor(
    threshold: nat,
    deflated: seq<byte>,
    inflated: seq<byte>,
    inflatedCapacity: nat,
    deflate: (seq<byte>, seq<byte>) -> Option<seq<byte>>,
    inflate: (seq<byte>, seq<byte>) -> Option<seq<byte>>)

  /** The default compression threshold of `Compressor::new`. */
  const COMPRESSION_THRESHOLD: nat := 256

  /** `Compressor::new`: the default threshold and the given buffers. */
  function NewCompressor(deflated: seq<byte>, inflated: seq<byte>, inflatedCapacity: nat,
                         deflate: (seq<byte>, seq<byte>) -> Option<seq<byte>>,
                         inflate: (seq<byte>, seq<byte>) -> Option<seq<byte>>): (c: Compressor)
    ensures c.threshold == COMPRESSION_THRESHOLD
    ensures c.deflated == deflated && c.inflated == inflated && c.inflatedCapacity == inflatedCapacity
  {
    Compressor(COMPRESSION_THRESHOLD, deflated, inflated, inflatedCapacity, deflate, inflate)
  }

  // ---------------------------------------------------------------------------
  // The delimiter
  // ---------------------------------------------------------------------------

  datatype HeadResult = Length(n: nat) | Incomplete | HeadFailed(error: CodecError)

  datatype HeadReading = HeadReading(result: HeadResult, consumed: nat)

  /**
   * `Delimiter::read_head`: a VarInt length, cast to `usize` and checked
   * against `maxLength`. A short buffer is `Incomplete` rather than an error,
   * but the bytes the VarInt read examined are consumed all the same.
   */
  function ReadHeadSpec(maxLength: nat, s: seq<byte>): (r: HeadReading)
    ensures r.consumed <= |s|
    ensures r.result.Length? ==> r.result.n <= maxLength && r.consumed >= 1
  {
    var v := VarIntRead(s);
    match v.result
    case Ok(len) =>
      if AsUsize(len) > maxLength then HeadReading(HeadFailed(LengthTooLarge), v.consumed)
      else HeadReading(Length(AsUsize(len)), v.consumed)
    case Err(NotEnoughBytes) => HeadReading(Incomplete, v.consumed)
    case Err(e) => HeadReading(HeadFailed(HeadError(e)), v.consumed)
  }

  /** The length prefix of an acceptable length is read back, and only it is consumed. */
  lemma ReadHeadRoundTrip(maxLength: nat, n: nat, rest: seq<byte>)
    requires n <= maxLength && n < 0x8000_0000
    ensures ReadHeadSpec(maxLength, VarIntBytes(n) + rest) == HeadReading(Length(n), |VarIntBytes(n)|)
  {
    VarIntRoundTrip(n, rest);
  }

  /** A length above the maximum is an error, not a frame. */
  lemma ReadHeadTooLarge(maxLength: nat, n: int, rest: seq<byte>)
    requires IsI32(n) && AsUsize(n) > maxLength
    ensures ReadHeadSpec(maxLength, VarIntBytes(n) + rest).result == HeadFailed(LengthTooLarge)
  {
    VarIntRoundTrip(n, rest);
  }

  /** A prefix cut short reports `Incomplete`, yet every byte of it has been consumed. */
  lemma ReadHeadIncomplete(maxLength: nat, s: seq<byte>)
    requires |s| <= 5 && forall i :: 0 <= i < |s| ==> More(s[i])
    ensures ReadHeadSpec(maxLength, s) == HeadReading(Incomplete, |s|)
  {
    ContinuationsIncomplete(s, 0, 5);
  }

  /** The frame length `decode` works with, the delimiter's new state and what is left of the buffer. */
  datatype Delimited = Delimited(result: HeadResult, delimiter: DelimiterState, src: seq<byte>)

  /**
   * The delimiter's part of `decode`: in `Data(n)` the length is already
   * known; in `Head` a length prefix is read, and a complete one moves the
   * machine to `Data(n)`.
   */
  function Delimit(maxLength: nat, d: DelimiterState, src: seq<byte>): (r: Delimited)
    ensures r.result.Length? <==> r.delimiter.Data?
    ensures r.result.Length? ==> r.delimiter.length == r.result.n
    ensures d.Data? ==> r == Delimited(Length(d.length), d, src)
    ensures |r.src| <= |src|
  {
    match d
    case Data(n) => Delimited(Length(n), d, src)
    case Head =>
      var h := ReadHeadSpec(maxLength, src);
      Delimited(h.result, if h.result.Length? then Data(h.result.n) else Head, src[h.consumed..])
  }

  /** `Delimiter`: the maximum frame length and the state of the machine. */
  class Delimiter {
    const maxLength: nat
    var state: DelimiterState

    /** `Delimiter::new`: a fresh delimiter waits for a length prefix. */
    constructor (maxLength: nat)
      ensures this.maxLength == maxLength && state == Head
    {
      this.maxLength := maxLength;
      state := Head;
    }

    method ReadHead(src: ByteBuf) returns (r: HeadResult)
      modifies src
      ensures r == ReadHeadSpec(maxLength, old(src.bytes)).result
      ensures src.bytes == old(src.bytes)[ReadHeadSpec(maxLength, old(src.bytes)).consumed..]
    {
      var v := ReadVarInt(src);
      match v
      case Ok(len) =>
        var length := AsUsize(len);
        if length > maxLength {
          return HeadFailed(LengthTooLarge);
        }
        return Length(length);
      case Err(e) =>
        if e == NotEnoughBytes {
          return Incomplete;
        }
        return HeadFailed(HeadError(e));
    }

    /** The `match self.delimiter.state` of `decode`. */
    method NextLength(src: ByteBuf) returns (r: HeadResult)
      modifies this, src
      ensures Delimited(r, state, src.bytes) == Delimit(maxLength, old(state), old(src.bytes))
    {
      match state {
        case Head =>
          r := ReadHead(src);
          if r.Length? {
            state := Data(r.n);
          }
        case Data(n) =>
          r := Length(n);
      }
    }
  }

  // ---------------------------------------------------------------------------
  // Decoding
  // ---------------------------------------------------------------------------

  /** Everything `decode` and `encode` read and update. */
  datatype CodecState = CodecState(
    maxLength: nat,
    delimiter: DelimiterState,
    compressor: Option<Compressor>,
    encryption: Option<Encryption>)

  /** The outcome of `decode`, the codec's new state and what is left in `src`. */
  datatype DecodeStep<P> = DecodeStep(outcome: Outcome<P>, state: CodecState, src: seq<byte>)

  datatype Decrypted = Decrypted(encryption: Option<Encryption>, src: seq<byte>) | DecryptPanicked

  /**
   * Decrypts `src[encrypt_index..]` and sets `encrypt_index` to the buffer
   * length. The slice panics when `encrypt_index` is past the end.
   */
  function DecryptNew(enc: Option<Encryption>, src: seq<byte>): (r: Decrypted)
    ensures r.DecryptPanicked? <==> enc.Some? && enc.value.encryptIndex > |src|
    ensures r.Decrypted? ==> |r.src| == |src| && r.encryption.Some? == enc.Some?
  {
    match enc
    case None => Decrypted(None, src)
    case Some(e) =>
      if e.encryptIndex > |src| then DecryptPanicked
      else
        var c := Crypt(e.crypter, Decrypt, src[e.encryptIndex..]);
        Decrypted(Some(e.(crypter := c.crypter, encryptIndex := |src|)), src[..e.encryptIndex] + c.bytes)
  }

  /** `decrypt_index -= length` on a `usize`, wrapping (the model follows release builds). */
  function FrameRemoved(enc: Option<Encryption>, n: nat): (r: Option<Encryption>)
    ensures r.Some? == enc.Some?
  {
    match enc
    case None => None
    case Some(e) => Some(e.(decryptIndex := (e.decryptIndex - n) % USIZE))
  }

  datatype PayloadResult = Bytes(bytes: seq<byte>) | PayloadError(error: CodecError)

  datatype Payload = Payload(compressor: Option<Compressor>, result: PayloadResult)

  /**
   * The compression step of `decode` on one frame: a VarInt data length
   * (cast to `usize`) bounded by the inflated buffer's capacity; 0 passes the
   * rest of the frame through, anything else is decompressed into the
   * inflated buffer, which is then split off whole.
   */
  function InflateFrame(comp: Option<Compressor>, frame: seq<byte>): (r: Payload)
    ensures comp.None? ==> r == Payload(None, Bytes(frame))
    ensures r.compressor.Some? == comp.Some?
    ensures r.result.PayloadError? ==> r.compressor == comp
    ensures r.compressor != comp ==> r.result.Bytes? && r.compressor == Some(comp.value.(inflated := []))
  {
    match comp
    case None => Payload(None, Bytes(frame))
    case Some(c) =>
      var dl := VarIntRead(frame);
      match dl.result
      case Err(e) => Payload(comp, PayloadError(DataLength(e)))
      case Ok(v) =>
        var dataLength := AsUsize(v);
        if dataLength > c.inflatedCapacity then Payload(comp, PayloadError(InflatedCapacityExceeded))
        else if dataLength > 0 then
          match c.inflate(c.inflated, frame[dl.consumed..])
          case None => Payload(comp, PayloadError(DecompressFailed))
          case Some(inflated) => Payload(Some(c.(inflated := [])), Bytes(inflated))
        else Payload(comp, Bytes(frame[dl.consumed..]))
  }

  /** The packet's `try_read` on the payload. */
  function ReadPacket<P>(p: PayloadResult, readPacket: seq<byte> -> Result<P>): (r: Outcome<P>)
    ensures r.Done? || r.Failed?
    ensures p.PayloadError? ==> r == Failed(p.error)
  {
    match p
    case PayloadError(e) => Failed(e)
    case Bytes(b) =>
      match readPacket(b)
      case Ok(v) => Done(v)
      case Err(e) => Failed(PacketRead(e))
  }

  /** `decode` once the frame length `n` is known. */
  function DecodeBody<P>(st: CodecState, n: nat, src: seq<byte>, readPacket: seq<byte> -> Result<P>): (r: DecodeStep<P>)
    ensures |src| < n ==> r == DecodeStep(NoFrame, st, src)
    ensures |src| >= n ==> r.outcome != NoFrame && r.src == src[n..] && r.state.delimiter == Head
    ensures r.outcome != Panicked
    ensures r.state.maxLength == st.maxLength
    ensures r.state.compressor.Some? == st.compressor.Some? && r.state.encryption.Some? == st.encryption.Some?
  {
    if |src| < n then DecodeStep(NoFrame, st, src)
    else
      var p := InflateFrame(st.compressor, src[..n]);
      var st' := st.(delimiter := Head, encryption := FrameRemoved(st.encryption, n), compressor := p.compressor);
      DecodeStep(ReadPacket(p.result, readPacket), st', src[n..])
  }

  /** `Decoder::decode` of `PacketCodec`, given the codec state, the inbound buffer and the packet's reader. */
  function DecodeSpec<P>(st: CodecState, src: seq<byte>, readPacket: seq<byte> -> Result<P>): (r: DecodeStep<P>)
    ensures r.outcome.Panicked? <==> st.encryption.Some? && st.encryption.value.encryptIndex > |src|
    ensures r.outcome.Panicked? ==> r.state == st && r.src == src
    ensures |r.src| <= |src|
    ensures r.state.maxLength == st.maxLength
    ensures r.state.compressor.Some? == st.compressor.Some? && r.state.encryption.Some? == st.encryption.Some?
  {
    match DecryptNew(st.encryption, src)
    case DecryptPanicked => DecodeStep(Panicked, st, src)
    case Decrypted(enc, src1) =>
      var d := Delimit(st.maxLength, st.delimiter, src1);
      var st1 := st.(encryption := enc, delimiter := d.delimiter);
      match d.result
      case Length(n) => DecodeBody(st1, n, d.src, readPacket)
      case Incomplete => DecodeStep(NoFrame, st1, d.src)
      case HeadFailed(e) => DecodeStep(Failed(e), st1, d.src)
  }

  /** A codec with neither compression nor encryption. */
  predicate Plain(st: CodecState) {
    st.compressor.None? && st.encryption.None?
  }

  /** A complete length prefix with too little body: the state moves to `Data(n)`, the prefix is consumed, nothing else. */
  lemma DecodeHeadThenWait<P>(st: CodecState, n: nat, body: seq<byte>, readPacket: seq<byte> -> Result<P>)
    requires Plain(st) && st.delimiter == Head
    requires n <= st.maxLength && n < 0x8000_0000 && |body| < n
    ensures DecodeSpec(st, VarIntBytes(n) + body, readPacket) == DecodeStep(NoFrame, st.(delimiter := Data(n)), body)
  {
    var src := VarIntBytes(n) + body;
    ReadHeadRoundTrip(st.maxLength, n, body);
    assert src[|VarIntBytes(n)|..] == body;
  }

  /** In `Data(n)`, a buffer shorter than `n` changes nothing and no head is read. */
  lemma DecodeDataWaits<P>(st: CodecState, src: seq<byte>, readPacket: seq<byte> -> Result<P>)
    requires Plain(st) && st.delimiter.Data? && |src| < st.delimiter.length
    ensures DecodeSpec(st, src, readPacket) == DecodeStep(NoFrame, st, src)
  {
  }

  /** In `Data(n)` with `n` bytes buffered, exactly the first `n` are the frame; later bytes stay and the state resets. */
  lemma DecodeDataFrame<P>(st: CodecState, src: seq<byte>, readPacket: seq<byte> -> Result<P>)
    requires Plain(st) && st.delimiter.Data? && |src| >= st.delimiter.length
    ensures var n := st.delimiter.length;
      DecodeSpec(st, src, readPacket)
      == DecodeStep(ReadPacket(Bytes(src[..n]), readPacket), st.(delimiter := Head), src[n..])
  {
  }

  /** A whole frame, from `Head`: the packet is read from exactly its body; the rest stays buffered. */
  lemma DecodeWholeFrame<P>(st: CodecState, body: seq<byte>, rest: seq<byte>, readPacket: seq<byte> -> Result<P>)
    requires Plain(st) && st.delimiter == Head
    requires |body| <= st.maxLength && |body| < 0x8000_0000
    ensures DecodeSpec(st, VarIntBytes(|body|) + body + rest, readPacket)
         == DecodeStep(ReadPacket(Bytes(body), readPacket), st, rest)
  {
    var n := |body|;
    var src := VarIntBytes(n) + body + rest;
    assert src == VarIntBytes(n) + (body + rest);
    ReadHeadRoundTrip(st.maxLength, n, body + rest);
    var src2 := src[|VarIntBytes(n)|..];
    assert src2 == body + rest;
    assert src2[..n] == body && src2[n..] == rest;
  }

  /** A length prefix cut short: no frame, and the partial prefix has been removed from the buffer. */
  lemma DecodePartialHead<P>(st: CodecState, src: seq<byte>, readPacket: seq<byte> -> Result<P>)
    requires Plain(st) && st.delimiter == Head
    requires |src| <= 5 && forall i :: 0 <= i < |src| ==> More(src[i])
    ensures DecodeSpec(st, src, readPacket) == DecodeStep(NoFrame, st, [])
  {
    ReadHeadIncomplete(st.maxLength, src);
  }

  /**
   * Because the partial prefix is consumed, a stream whose two-byte length
   * prefix 300 arrives one byte at a time is not read as a 300-byte frame:
   * the second call sees only the prefix byte `0x02` and takes a 2-byte frame.
   * Delivered whole, the same bytes give the 300-byte frame.
   */
  lemma SplitHeadLosesFrame<P>(st: CodecState, body: seq<byte>, readPacket: seq<byte> -> Result<P>)
    requires Plain(st) && st.delimiter == Head && st.maxLength >= 300 && |body| == 300
    ensures DecodeSpec(st, [0xAC, 0x02] + body, readPacket).outcome == ReadPacket(Bytes(body), readPacket)
    ensures DecodeSpec(st, [0xAC], readPacket) == DecodeStep(NoFrame, st, [])
    ensures DecodeSpec(st, [0x02] + body, readPacket).outcome == ReadPacket(Bytes(body[..2]), readPacket)
  {
    WholePrefixFrames(st, body, readPacket);
    FirstPrefixByteWaits(st, readPacket);
    SecondPrefixByteFrames(st, body, readPacket);
  }

  /** The prefix `AC 02` delivered whole frames the 300 bytes after it. */
  lemma WholePrefixFrames<P>(st: CodecState, body: seq<byte>, readPacket: seq<byte> -> Result<P>)
    requires Plain(st) && st.delimiter == Head && st.maxLength >= 300 && |body| == 300
    ensures DecodeSpec(st, [0xAC, 0x02] + body, readPacket).outcome == ReadPacket(Bytes(body), readPacket)
  {
    SmallPrefixes();
    DecodeWholeFrame(st, body, [], readPacket);
    assert [0xAC, 0x02] + body + [] == [0xAC, 0x02] + body;
  }

  /** The first prefix byte `AC` alone yields nothing, and is consumed. */
  lemma FirstPrefixByteWaits<P>(st: CodecState, readPacket: seq<byte> -> Result<P>)
    requires Plain(st) && st.delimiter == Head
    ensures DecodeSpec(st, [0xAC], readPacket) == DecodeStep(NoFrame, st, [])
  {
    DecodePartialHead(st, [0xAC], readPacket);
  }

  /** What follows the lost byte, `02` and the body, is taken as a 2-byte frame. */
  lemma SecondPrefixByteFrames<P>(st: CodecState, body: seq<byte>, readPacket: seq<byte> -> Result<P>)
    requires Plain(st) && st.delimiter == Head && st.maxLength >= 2 && |body| >= 2
    ensures DecodeSpec(st, [0x02] + body, readPacket).outcome == ReadPacket(Bytes(body[..2]), readPacket)
  {
    SmallPrefixes();
    DecodeWholeFrame(st, body[..2], body[2..], readPacket);
    assert [0x02] + body[..2] + body[2..] == [0x02] + body;
  }

  /** The length prefixes of 300 and 2. */
  lemma SmallPrefixes()
    ensures VarIntBytes(300) == [0xAC, 0x02] && VarIntBytes(2) == [0x02]
  {
    VarIntBytesNonNegative(300);
    VarIntBytesNonNegative(2);
    assert Groups(2) == [2];
    assert Groups(300) == [0xAC] + Groups(2);
  }

  /** A length above the maximum fails the call. */
  lemma DecodeLengthTooLarge<P>(st: CodecState, n: int, rest: seq<byte>, readPacket: seq<byte> -> Result<P>)
    requires Plain(st) && st.delimiter == Head && IsI32(n) && AsUsize(n) > st.maxLength
    ensures DecodeSpec(st, VarIntBytes(n) + rest, readPacket).outcome == Failed(LengthTooLarge)
  {
    ReadHeadTooLarge(st.maxLength, n, rest);
  }

  /**
   * With encryption on and `encrypt_index` within the buffer: only the bytes
   * from `encrypt_index` on are decrypted, `encrypt_index` becomes the
   * buffer's length, and `decrypt_index` (not `encrypt_index`) drops by the
   * length of a frame when one is removed.
   */
  lemma DecodeEncryptionIndices<P>(st: CodecState, src: seq<byte>, readPacket: seq<byte> -> Result<P>)
    requires st.encryption.Some? && st.encryption.value.encryptIndex <= |src| && st.compressor.None?
    ensures var r := DecodeSpec(st, src, readPacket);
      var e := st.encryption.value;
      r.outcome != Panicked && r.state.encryption.Some?
      && r.state.encryption.value.encryptIndex == |src|
      && r.state.encryption.value.crypter == Crypt(e.crypter, Decrypt, src[e.encryptIndex..]).crypter
  {
  }

  /** When a frame of `n` bytes is taken under encryption, `decrypt_index` is reduced by `n` and the frame is the decrypted buffer's first `n` bytes. */
  lemma DecodeEncryptedFrame<P>(st: CodecState, src: seq<byte>, readPacket: seq<byte> -> Result<P>)
    requires st.encryption.Some? && st.encryption.value.encryptIndex <= |src| && st.compressor.None?
    requires st.delimiter.Data? && |src| >= st.delimiter.length
    ensures var r := DecodeSpec(st, src, readPacket);
      var e := st.encryption.value;
      var n := st.delimiter.length;
      var plain := src[..e.encryptIndex] + Crypt(e.crypter, Decrypt, src[e.encryptIndex..]).bytes;
      r.outcome == ReadPacket(Bytes(plain[..n]), readPacket)
      && r.src == plain[n..]
      && r.state.delimiter == Head
      && r.state.encryption.Some?
      && r.state.encryption.value.encryptIndex == |src|
      && r.state.encryption.value.decryptIndex == (e.decryptIndex - n) % USIZE
  {
  }

  /**
   * `encrypt_index` is not reduced when a frame leaves the buffer: right
   * after a nonempty frame is taken, the next call (with no new bytes)
   * slices past the end and panics.
   */
  lemma StaleEncryptIndexPanics<P>(st: CodecState, src: seq<byte>, readPacket: seq<byte> -> Result<P>)
    requires st.encryption.Some? && st.encryption.value.encryptIndex <= |src| && st.compressor.None?
    requires st.delimiter.Data? && 1 <= st.delimiter.length <= |src|
    ensures var r := DecodeSpec(st, src, readPacket);
      DecodeSpec(r.state, r.src, readPacket).outcome == Panicked
  {
    DecodeEncryptedFrame(st, src, readPacket);
  }

  /** A compressed frame whose data length exceeds the inflated buffer's capacity is an error. */
  lemma InflateCapacityExceeded(c: Compressor, n: nat, rest: seq<byte>)
    requires n < 0x8000_0000 && n > c.inflatedCapacity
    ensures InflateFrame(Some(c), VarIntBytes(n) + rest).result == PayloadError(InflatedCapacityExceeded)
  {
    VarIntRoundTrip(n, rest);
  }

  /** A zero data length passes the rest of the frame through unchanged, without touching zlib. */
  lemma InflateUncompressed(c: Compressor, rest: seq<byte>)
    ensures InflateFrame(Some(c), [0] + rest) == Payload(Some(c), Bytes(rest))
  {
    VarIntRoundTrip(0, rest);
    assert VarIntBytes(0) == [0];
    assert ([0] + rest)[1..] == rest;
  }

  /** A nonzero data length within capacity decompresses the rest; the inflated buffer is split off whole. */
  lemma InflateCompressed(c: Compressor, n: nat, rest: seq<byte>)
    requires 0 < n <= c.inflatedCapacity && n < 0x8000_0000
    ensures var r := InflateFrame(Some(c), VarIntBytes(n) + rest);
      match c.inflate(c.inflated, rest)
      case None => r.result == PayloadError(DecompressFailed)
      case Some(inflated) => r == Payload(Some(c.(inflated := [])), Bytes(inflated))
  {
    VarIntRoundTrip(n, rest);
    assert (VarIntBytes(n) + rest)[|VarIntBytes(n)|..] == rest;
  }

  // ---------------------------------------------------------------------------
  // Encoding
  // ---------------------------------------------------------------------------

  /** The outcome of `encode`, the codec's new state and the caller's `dst`. */
  datatype EncodeStep = EncodeStep(outcome: Outcome<()>, state: CodecState, dst: seq<byte>)

  function Zeros(n: nat): (z: seq<byte>)
    ensures |z| == n && forall i :: 0 <= i < n ==> z[i] == 0
  {
    seq(n, _ => 0)
  }

  datatype Sealed = Sealed(encryption: Option<Encryption>, bytes: seq<byte>)

  /** `encryption.crypter.encrypt(dst)`: encrypts everything in the buffer; the indices stay as they are. */
  function Seal(enc: Option<Encryption>, bytes: seq<byte>): (r: Sealed)
    ensures |r.bytes| == |bytes| && r.encryption.Some? == enc.Some?
    ensures enc.None? ==> r == Sealed(None, bytes)
  {
    match enc
    case None => Sealed(None, bytes)
    case Some(e) =>
      var c := Crypt(e.crypter, Encrypt, bytes);
      Sealed(Some(e.(crypter := c.crypter)), c.bytes)
  }

  /**
   * `Encoder::encode` of `PacketCodec` for a packet whose written bytes are
   * `packet`. Ten zero bytes are reserved, the packet appended, and the
   * VarInt of its size copied right-aligned into indices `offset..10` of
   * `dst` (absolute indices, not relative to where the reservation went).
   * Above the threshold, the whole `dst` is compressed into the deflated
   * buffer and the rest of the work happens there; otherwise (and without a
   * compressor) `dst` is advanced past `offset` and encrypted in full. The
   * zero data-length marker of the uncompressed case goes to a scratch array
   * and never reaches `dst`. A size that does not fit in an `i32` turns
   * negative, and writing its VarInt into the 5-byte scratch slice panics.
   */
  function EncodeSpec(st: CodecState, packet: seq<byte>, dst: seq<byte>): (r: EncodeStep)
    ensures AsI32(|packet|) < 0 ==> r.outcome == Panicked && r.state == st
    ensures st.compressor.None? ==> (r.outcome.Panicked? <==> AsI32(|packet|) < 0)
    ensures r.outcome != NoFrame
    ensures r.state.maxLength == st.maxLength && r.state.delimiter == st.delimiter
    ensures r.state.compressor.Some? == st.compressor.Some? && r.state.encryption.Some? == st.encryption.Some?
    ensures st.compressor.None? && r.outcome.Done? ==>
      |r.dst| == |dst| + |VarIntBytes(AsI32(|packet|))| + |packet|
  {
    var dst1 := dst + Zeros(10) + packet;
    var size := |packet|;
    var len := AsI32(size);
    if len < 0 then EncodeStep(Panicked, st, dst1)
    else
      var header := VarIntBytes(len);
      var offset := 10 - |header|;
      var dst2 := dst1[..offset] + header + dst1[10..];
      match st.compressor
      case Some(c) =>
        if size > c.threshold then
          match c.deflate(c.deflated, dst2)
          case None => EncodeStep(Failed(CompressFailed), st, dst2)
          case Some(deflated) =>
            if |deflated| < offset then EncodeStep(Panicked, st.(compressor := Some(c.(deflated := deflated))), dst2)
            else
              var s := Seal(st.encryption, deflated[offset..]);
              EncodeStep(Done(()), st.(compressor := Some(c.(deflated := s.bytes)), encryption := s.encryption), dst2)
        else
          var s := Seal(st.encryption, dst2[offset..]);
          EncodeStep(Done(()), st.(encryption := s.encryption), s.bytes)
      case None =>
        var s := Seal(st.encryption, dst2[offset..]);
        EncodeStep(Done(()), st.(encryption := s.encryption), s.bytes)
  }

  /** Header placement on an empty `dst`: the reserved bytes up to `offset` are dropped and the packet follows its length. */
  lemma FramedFromEmpty(packet: seq<byte>)
    requires |packet| < 0x8000_0000
    ensures var header := VarIntBytes(|packet|);
      var offset := 10 - |header|;
      var dst1 := [] + Zeros(10) + packet;
      (dst1[..offset] + header + dst1[10..])[offset..] == header + packet
  {
    var header := VarIntBytes(|packet|);
    var offset := 10 - |header|;
    var dst1 := [] + Zeros(10) + packet;
    assert dst1[10..] == packet;
    assert |dst1[..offset]| == offset;
  }

  /** Without compression or encryption, encoding into an empty `dst` leaves exactly the VarInt size followed by the packet. */
  lemma EncodePlain(st: CodecState, packet: seq<byte>)
    requires Plain(st) && |packet| < 0x8000_0000
    ensures EncodeSpec(st, packet, []) == EncodeStep(Done(()), st, VarIntBytes(|packet|) + packet)
  {
    FramedFromEmpty(packet);
  }

  /**
   * With a compressor, a packet no larger than the threshold is framed
   * exactly as without one: the zero data-length marker the protocol
   * expects is not in the output.
   */
  lemma EncodeBelowThreshold(st: CodecState, packet: seq<byte>)
    requires st.compressor.Some? && st.encryption.None?
    requires |packet| <= st.compressor.value.threshold && |packet| < 0x8000_0000
    ensures EncodeSpec(st, packet, []) == EncodeStep(Done(()), st, VarIntBytes(|packet|) + packet)
  {
    FramedFromEmpty(packet);
  }

  /** Above the threshold the caller's `dst` keeps the uncompressed frame, reserved bytes included; the output goes to the deflated buffer. */
  lemma EncodeAboveThreshold(st: CodecState, packet: seq<byte>)
    requires st.compressor.Some? && st.encryption.None?
    requires st.compressor.value.threshold < |packet| < 0x8000_0000
    ensures var c := st.compressor.value;
      var header := VarIntBytes(|packet|);
      var offset := 10 - |header|;
      var framed := Zeros(offset) + header + packet;
      var r := EncodeSpec(st, packet, []);
      r.dst == framed
      && match c.deflate(c.deflated, framed)
         case None => r.outcome == Failed(CompressFailed)
         case Some(deflated) =>
           |deflated| >= offset ==>
             r.outcome == Done(()) && r.state == st.(compressor := Some(c.(deflated := deflated[offset..])))
  {
    var header := VarIntBytes(|packet|);
    var offset := 10 - |header|;
    var dst1 := [] + Zeros(10) + packet;
    assert dst1[..offset] == Zeros(offset);
    assert dst1[10..] == packet;
  }

  /**
   * Into a `dst` that already holds at least ten bytes, the header is copied
   * over the old contents and the reserved bytes stay zero: the packet is
   * sent after ten zeros and no length prefix of its own.
   */
  lemma EncodeIntoNonEmpty(st: CodecState, packet: seq<byte>, dst: seq<byte>)
    requires Plain(st) && |packet| < 0x8000_0000 && |dst| >= 10
    ensures var r := EncodeSpec(st, packet, dst);
      r.outcome == Done(()) && r.dst[|r.dst| - |packet| - 10..] == Zeros(10) + packet
  {
    var header := VarIntBytes(|packet|);
    var offset := 10 - |header|;
    var dst1 := dst + Zeros(10) + packet;
    var dst2 := dst1[..offset] + header + dst1[10..];
    assert dst2[offset..][|dst2[offset..]| - |packet| - 10..] == dst1[|dst1| - |packet| - 10..];
    assert dst1[|dst1| - |packet| - 10..] == Zeros(10) + packet;
  }

  /** A plain codec decodes what a plain codec encodes: the frame round trip. */
  lemma EncodeDecodeRoundTrip<P>(st: CodecState, packet: seq<byte>, readPacket: seq<byte> -> Result<P>)
    requires Plain(st) && st.delimiter == Head && |packet| <= st.maxLength && |packet| < 0x8000_0000
    ensures var e := EncodeSpec(st, packet, []);
      DecodeSpec(e.state, e.dst, readPacket) == DecodeStep(ReadPacket(Bytes(packet), readPacket), st, [])
  {
    EncodePlain(st, packet);
    DecodeWholeFrame(st, packet, [], readPacket);
    assert VarIntBytes(|packet|) + packet + [] == VarIntBytes(|packet|) + packet;
  }

  // ---------------------------------------------------------------------------
  // The codec object
  // ---------------------------------------------------------------------------

  /** The stage changes `state_change!` generates `From` impls for. */
  predicate CanConvert(from: Packet.Stage, to: Packet.Stage)
    ensures CanConvert(from, to) ==> from != to && to != Packet.Handshaking && from != Packet.Play
  {
    (from == Packet.Handshaking && (to == Packet.Status || to == Packet.Login))
    || (from == Packet.Login && to == Packet.Play)
  }

  /** Exactly three conversions exist, and none leaves `Play` or `Status` or goes back to `Handshaking`. */
  lemma ConversionsAllowed(from: Packet.Stage, to: Packet.Stage)
    ensures CanConvert(from, to) <==>
      (from, to) in {(Packet.Handshaking, Packet.Status), (Packet.Handshaking, Packet.Login), (Packet.Login, Packet.Play)}
    ensures CanConvert(from, to) ==> from != Packet.Play && from != Packet.Status && to != Packet.Handshaking
  {
  }

  /** `PacketCodec`: its stage and side (type parameters in the source), the optional compressor and encryption, and the delimiter. */
  class PacketCodec {
    const stage: Packet.Stage
    const side: Side
    var compressor: Option<Compressor>
    var encryption: Option<Encryption>
    const delimiter: Delimiter

    ghost function State(): CodecState
      reads this, delimiter
    {
      CodecState(delimiter.maxLength, delimiter.state, compressor, encryption)
    }

    /** `PacketCodec::new`: no compression, no encryption. */
    constructor (stage: Packet.Stage, side: Side, delimiter: Delimiter)
      ensures this.stage == stage && this.side == side && this.delimiter == delimiter
      ensures compressor == None && encryption == None
    {
      this.stage := stage;
      this.side := side;
      this.delimiter := delimiter;
      compressor := None;
      encryption := None;
    }

    /** A `state_change!` conversion: a new stage, everything else carried over. */
    constructor Convert(from: PacketCodec, to: Packet.Stage)
      requires CanConvert(from.stage, to)
      ensures stage == to && side == from.side && delimiter == from.delimiter
      ensures compressor == from.compressor && encryption == from.encryption
    {
      stage := to;
      side := from.side;
      compressor := from.compressor;
      encryption := from.encryption;
      delimiter := from.delimiter;
    }

    /** The decryption that opens `decode`: the bytes from `encrypt_index` on, in place. */
    method DecryptArrived(src: ByteBuf) returns (ok: bool)
      modifies this, src
      ensures var d := DecryptNew(old(encryption), old(src.bytes));
        ok == d.Decrypted?
        && (ok ==> encryption == d.encryption && src.bytes == d.src)
        && (!ok ==> encryption == old(encryption) && src.bytes == old(src.bytes))
      ensures compressor == old(compressor)
    {
      ok := true;
      if encryption.Some? {
        var e := encryption.value;
        if e.encryptIndex > |src.bytes| {
          return false;
        }
        var c := Crypt(e.crypter, Decrypt, src.bytes[e.encryptIndex..]);
        src.ReplaceFrom(e.encryptIndex, c.bytes);
        encryption := Some(e.(crypter := c.crypter, encryptIndex := |src.bytes|));
      }
    }

    /** The compression step of `decode`, on the frame split off the buffer. */
    method Inflate(frame: seq<byte>) returns (p: PayloadResult)
      modifies this
      ensures var q := InflateFrame(old(compressor), frame);
        p == q.result && compressor == q.compressor
      ensures encryption == old(encryption)
    {
      if compressor.None? {
        return Bytes(frame);
      }
      var c := compressor.value;
      var body := new ByteBuf(frame);
      var dataLength := ReadVarInt(body);
      if dataLength.Err? {
        return PayloadError(DataLength(dataLength.error));
      }
      var n := AsUsize(dataLength.value);
      if n > c.inflatedCapacity {
        return PayloadError(InflatedCapacityExceeded);
      }
      if n > 0 {
        var out := c.inflate(c.inflated, body.bytes);
        if out.None? {
          return PayloadError(DecompressFailed);
        }
        p := Bytes(out.value);
        compressor := Some(c.(inflated := []));
      } else {
        p := Bytes(body.bytes);
      }
    }

    /** `Decoder::decode`. */
    method Decode<P>(src: ByteBuf, readPacket: seq<byte> -> Result<P>) returns (o: Outcome<P>)
      modifies this, delimiter, src
      ensures var r := DecodeSpec(old(State()), old(src.bytes), readPacket);
        o == r.outcome && State() == r.state && src.bytes == r.src
    {
      var ok := DecryptArrived(src);
      if !ok {
        return Panicked;
      }
      var h := delimiter.NextLength(src);
      var length: nat;
      match h {
        case Length(n) =>
          length := n;
        case Incomplete =>
          return NoFrame;
        case HeadFailed(err) =>
          return Failed(err);
      }
      o := TakeFrame(length, src, readPacket);
    }

    /** The rest of `decode` once the frame length is known: wait, or split off the frame and read the packet from it. */
    method TakeFrame<P>(length: nat, src: ByteBuf, readPacket: seq<byte> -> Result<P>) returns (o: Outcome<P>)
      modifies this, delimiter, src
      ensures var r := DecodeBody(old(State()), length, old(src.bytes), readPacket);
        o == r.outcome && State() == r.state && src.bytes == r.src
    {
      if |src.bytes| < length {
        return NoFrame;
      }
      ghost var st0 := State();
      delimiter.state := Head;
      if encryption.Some? {
        var e := encryption.value;
        encryption := Some(e.(decryptIndex := (e.decryptIndex - length) % USIZE));
      }
      var frame := src.SplitTo(length);
      var payload := Inflate(frame);
      o := ReadPacket(payload, readPacket);
      ghost var p := InflateFrame(st0.compressor, frame);
      assert State() == st0.(delimiter := Head, encryption := FrameRemoved(st0.encryption, length), compressor := p.compressor);
    }

    /** `Encoder::encode`, for a packet whose written bytes are `packet`. */
    method Encode(packet: seq<byte>, dst: ByteBuf) returns (o: Outcome<()>)
      modifies this, dst
      ensures var r := EncodeSpec(old(State()), packet, old(dst.bytes));
        o == r.outcome && State() == r.state && dst.bytes == r.dst
    {
      ghost var st0 := State();
      ghost var dst0 := dst.bytes;
      dst.Put(Zeros(10));
      dst.Put(packet);
      var packetSize := |packet|;
      var len := AsI32(packetSize);
      if len < 0 {
        assert EncodeSpec(st0, packet, dst0) == EncodeStep(Panicked, st0, dst.bytes);
        return Panicked;
      }
      var scratch := new ByteBuf([]);
      var lengthSize := WriteVarInt(scratch, len);
      assert scratch.bytes == VarIntBytes(len);
      var offset := 10 - lengthSize;
      dst.bytes := dst.bytes[..offset] + scratch.bytes + dst.bytes[10..];
      assert State() == st0;
      var sealed: Sealed;
      if compressor.Some? {
        var c := compressor.value;
        if packetSize > c.threshold {
          var out := c.deflate(c.deflated, dst.bytes);
          if out.None? {
            return Failed(CompressFailed);
          }
          var deflated := out.value;
          if |deflated| < offset {
            compressor := Some(c.(deflated := deflated));
            return Panicked;
          }
          sealed := Seal(encryption, deflated[offset..]);
          compressor := Some(c.(deflated := sealed.bytes));
        } else {
          // The zero data length goes into the scratch array, not into `dst`.
          sealed := Seal(encryption, dst.bytes[offset..]);
          dst.bytes := sealed.bytes;
        }
      } else {
        sealed := Seal(encryption, dst.bytes[offset..]);
        dst.bytes := sealed.bytes;
      }
      encryption := sealed.encryption;
      o := Done(());
    }
  }
}
