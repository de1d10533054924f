/**
 * The primitive wire codec of `src/types.rs`: fixed-width big-endian
 * integers, VarInt / VarLong (7-bit groups, least significant first),
 * length-prefixed UTF-8 strings, booleans and UUIDs, all read from the front
 * of a byte buffer and written to its back.
 *
 * Every read is given twice: as a pure specification function returning a
 * `Reading` (the result and how many bytes the read took from the buffer,
 * including on failure), and as a method on a mutable `ByteBuf` that is proved
 * to behave exactly as that function says.
 */
module Wire {

  type byte = x: int | 0 <= x < 256

  /** Two to the power `n`. */
  function Pow2(n: nat): (r: nat)
    ensures r >= 1
  {
    if n == 0 then 1 else 2 * Pow2(n - 1)
  }

  lemma {:induction false} Pow2Add(a: nat, b: nat)
    ensures Pow2(a + b) == Pow2(a) * Pow2(b)
  {
    if a > 0 {
      Pow2Add(a - 1, b);
    }
  }

  /** The powers of two the codec works with. */
  lemma Pow2Seven()
    ensures Pow2(3) == 8 && Pow2(6) == 64 && Pow2(7) == 128 && Pow2(8) == 256
  {
    assert Pow2(1) == 2;
    assert Pow2(2) == 4;
    assert Pow2(3) == 8;
    assert Pow2(4) == 16;
    assert Pow2(5) == 32;
    assert Pow2(6) == 64;
    assert Pow2(7) == 128;
  }

  lemma Pow2Thirty2()
    ensures Pow2(31) == 0x8000_0000 && Pow2(32) == 0x1_0000_0000
  {
    Pow2Seven();
    assert Pow2(9) == 0x200;
    assert Pow2(10) == 0x400;
    assert Pow2(11) == 0x800;
    assert Pow2(12) == 0x1000;
    assert Pow2(13) == 0x2000;
    assert Pow2(14) == 0x4000;
    assert Pow2(15) == 0x8000;
    assert Pow2(16) == 0x10000;
    assert Pow2(17) == 0x20000;
    assert Pow2(18) == 0x40000;
    assert Pow2(19) == 0x80000;
    assert Pow2(20) == 0x100000;
    assert Pow2(21) == 0x200000;
    assert Pow2(22) == 0x400000;
    assert Pow2(23) == 0x800000;
    assert Pow2(24) == 0x1000000;
    assert Pow2(25) == 0x2000000;
    assert Pow2(26) == 0x4000000;
    assert Pow2(27) == 0x8000000;
    assert Pow2(28) == 0x10000000;
    assert Pow2(29) == 0x20000000;
    assert Pow2(30) == 0x40000000;
    assert Pow2(31) == 0x80000000;
    assert Pow2(32) == 0x100000000;
  }

  lemma Pow2SixtyFour()
    ensures Pow2(63) == 0x8000_0000_0000_0000 && Pow2(64) == 0x1_0000_0000_0000_0000
  {
    Pow2Thirty2();
    assert Pow2(33) == 0x200000000;
    assert Pow2(34) == 0x400000000;
    assert Pow2(35) == 0x800000000;
    assert Pow2(36) == 0x1000000000;
    assert Pow2(37) == 0x2000000000;
    assert Pow2(38) == 0x4000000000;
    assert Pow2(39) == 0x8000000000;
    assert Pow2(40) == 0x10000000000;
    assert Pow2(41) == 0x20000000000;
    assert Pow2(42) == 0x40000000000;
    assert Pow2(43) == 0x80000000000;
    assert Pow2(44) == 0x100000000000;
    assert Pow2(45) == 0x200000000000;
    assert Pow2(46) == 0x400000000000;
    assert Pow2(47) == 0x800000000000;
    assert Pow2(48) == 0x1000000000000;
    assert Pow2(49) == 0x2000000000000;
    assert Pow2(50) == 0x4000000000000;
    assert Pow2(51) == 0x8000000000000;
    assert Pow2(52) == 0x10000000000000;
    assert Pow2(53) == 0x20000000000000;
    assert Pow2(54) == 0x40000000000000;
    assert Pow2(55) == 0x80000000000000;
    assert Pow2(56) == 0x100000000000000;
    assert Pow2(57) == 0x200000000000000;
    assert Pow2(58) == 0x400000000000000;
    assert Pow2(59) == 0x800000000000000;
    assert Pow2(60) == 0x1000000000000000;
    assert Pow2(61) == 0x2000000000000000;
    assert Pow2(62) == 0x4000000000000000;
    assert Pow2(63) == 0x8000000000000000;
    assert Pow2(64) == 0x10000000000000000;
  }

  lemma {:induction false} Pow2Monotone(a: nat, b: nat)
    requires a <= b
    ensures Pow2(a) <= Pow2(b)
  {
    if a < b {
      Pow2Monotone(a, b - 1);
    }
  }

  /** `(x + q * m) % m == x % m`. */
  lemma ModShift(x: int, q: int, m: int)
    requires m > 0
    ensures (x + q * m) % m == x % m
  {
    var y := x + q * m;
    var k := y / m - x / m - q;
    assert y == (y / m) * m + y % m;
    assert x == (x / m) * m + x % m;
    assert k * m == (y / m) * m - (x / m) * m - q * m;
    assert k * m == x % m - y % m;
  }

  lemma ModAddMod(a: int, b: int, m: int)
    requires m > 0
    ensures (a % m + b) % m == (a + b) % m
  {
    assert a == (a / m) * m + a % m;
    ModShift(a % m + b, a / m, m);
  }

  /** `u < 128 * p` gives `u / 128 < p`. */
  lemma DivBelow(u: nat, p: nat)
    requires u < 128 * p
    ensures u / 128 < p
  {
    var q := u / 128;
    assert u == 128 * q + u % 128;
  }

  /** The largest `usize` plus one; the model assumes a 64-bit target. */
  const USIZE: nat := 0x1_0000_0000_0000_0000

  /** `v as usize` for a value of a signed 32- or 64-bit type: negative values wrap around. */
  function AsUsize(v: int): (r: nat)
    requires -0x8000_0000_0000_0000 <= v < 0x8000_0000_0000_0000
    ensures r < USIZE
    ensures 0 <= v ==> r == v
    ensures v < 0 ==> r >= 0x8000_0000_0000_0000
  {
    if v < 0 then v + USIZE else v
  }

  /** `n as i32` for an unsigned `n`: the low 32 bits, as a signed value. */
  function AsI32(n: nat): (v: int)
    ensures -0x8000_0000 <= v < 0x8000_0000
    ensures n < 0x8000_0000 ==> v == n
    ensures v == n % 0x1_0000_0000 || v == n % 0x1_0000_0000 - 0x1_0000_0000
  {
    var m := n % 0x1_0000_0000;
    if m >= 0x8000_0000 then m - 0x1_0000_0000 else m
  }

  /** The read failures of the source's `Error` enum. */
  datatype Error = NotEnoughBytes | ValueTooLarge | Malformed

  datatype Result<T> = Ok(value: T) | Err(error: Error)

  /** What a read returns, and how many bytes it removed from the front of the buffer. */
  datatype Reading<T> = Reading(result: Result<T>, consumed: nat)

  /** A `BytesMut`: reads (`Buf`) take bytes from the front, writes (`BufMut`) append at the back. */
  class ByteBuf {
    var bytes: seq<byte>

    constructor (init: seq<byte>)
      ensures bytes == init
    {
      bytes := init;
    }

    /** `Buf::get_u8`, which panics on an empty buffer. */
    method GetU8() returns (b: byte)
      requires |bytes| > 0
      modifies this
      ensures b == old(bytes)[0] && bytes == old(bytes)[1..]
    {
      b := bytes[0];
      bytes := bytes[1..];
    }

    /** `Buf::advance`, which panics past the end. */
    method Advance(n: nat)
      requires n <= |bytes|
      modifies this
      ensures bytes == old(bytes)[n..]
    {
      bytes := bytes[n..];
    }

    /** `BufMut::put_slice` and its fixed-width relatives. */
    method Put(s: seq<byte>)
      modifies this
      ensures bytes == old(bytes) + s
    {
      bytes := bytes + s;
    }

    /** `BytesMut::split_to`: removes the first `n` bytes and returns them; panics past the end. */
    method SplitTo(n: nat) returns (front: seq<byte>)
      requires n <= |bytes|
      modifies this
      ensures front == old(bytes)[..n] && bytes == old(bytes)[n..]
    {
      front := bytes[..n];
      bytes := bytes[n..];
    }

    /** Overwrites the bytes from index `i` on with as many bytes of `s` (an in-place transformation of `buf[i..]`). */
    method ReplaceFrom(i: nat, s: seq<byte>)
      requires i <= |bytes| && |s| == |bytes| - i
      modifies this
      ensures bytes == old(bytes)[..i] + s
    {
      bytes := bytes[..i] + s;
    }
  }

  // ---------------------------------------------------------------------------
  // Fixed-width integers (the `try_read_write!` macro)
  // ---------------------------------------------------------------------------

  datatype FixedInt = U8 | I8 | U16 | I16 | U32 | I32 | U64 | I64 {
    /** The `$size` argument of the macro. */
    function Size(): nat {
      match this
      case U8 => 1
      case I8 => 1
      case U16 => 2
      case I16 => 2
      case U32 => 4
      case I32 => 4
      case U64 => 8
      case I64 => 8
    }

    predicate Signed() {
      this == I8 || this == I16 || this == I32 || this == I64
    }

    /** Half the number of bit patterns: the bound of the signed kinds. */
    function Half(): nat {
      match this
      case U8 => 0x80
      case I8 => 0x80
      case U16 => 0x8000
      case I16 => 0x8000
      case U32 => 0x8000_0000
      case I32 => 0x8000_0000
      case U64 => 0x8000_0000_0000_0000
      case I64 => 0x8000_0000_0000_0000
    }

    /** The number of bit patterns of the kind. */
    function Modulus(): nat {
      2 * Half()
    }
  }

  function Pow256(n: nat): (r: nat)
    ensures r >= 1
  {
    if n == 0 then 1 else 256 * Pow256(n - 1)
  }

  lemma ModulusIsPow256(kind: FixedInt)
    ensures kind.Modulus() == Pow256(kind.Size())
  {
    assert Pow256(2) == 0x1_0000;
    assert Pow256(4) == 0x1_0000_0000 by {
      assert Pow256(3) == 0x100_0000;
    }
    assert Pow256(8) == 0x1_0000_0000_0000_0000 by {
      assert Pow256(5) == 0x100_0000_0000;
      assert Pow256(6) == 0x1_0000_0000_0000;
      assert Pow256(7) == 0x100_0000_0000_0000;
    }
  }

  /** The values of the Rust type named by `kind`. */
  predicate InRange(kind: FixedInt, v: int) {
    if kind.Signed() then -(kind.Half() as int) <= v < kind.Half()
    else 0 <= v < kind.Modulus()
  }

  /** The unsigned number whose big-endian bytes are `s` (`get_u16` and friends are big-endian). */
  function BigEndian(s: seq<byte>): (r: nat)
    ensures r < Pow256(|s|)
  {
    if |s| == 0 then 0 else BigEndian(s[..|s| - 1]) * 256 + s[|s| - 1]
  }

  /** The `n` big-endian bytes of `u` (the low `n` bytes when `u` is larger). */
  function ToBigEndian(u: nat, n: nat): (r: seq<byte>)
    ensures |r| == n
  {
    if n == 0 then [] else ToBigEndian(u / 256, n - 1) + [u % 256]
  }

  lemma {:induction false} BigEndianRoundTrip(u: nat, n: nat)
    requires u < Pow256(n)
    ensures BigEndian(ToBigEndian(u, n)) == u
  {
    if n > 0 {
      var s := ToBigEndian(u, n);
      assert s[..n - 1] == ToBigEndian(u / 256, n - 1);
      var q := u / 256;
      assert u == 256 * q + u % 256;
      assert q < Pow256(n - 1);
      BigEndianRoundTrip(q, n - 1);
    }
  }

  /** The value `get_<kind>` returns for exactly `kind.Size()` bytes: two's complement for signed kinds. */
  function FixedValue(kind: FixedInt, s: seq<byte>): (v: int)
    requires |s| == kind.Size()
    ensures InRange(kind, v)
  {
    ModulusIsPow256(kind);
    var u := BigEndian(s);
    if kind.Signed() && u >= kind.Half() then u - kind.Modulus() else u
  }

  /** The bytes `put_<kind>` appends for `v`. */
  function FixedBytes(kind: FixedInt, v: int): (s: seq<byte>)
    requires InRange(kind, v)
    ensures |s| == kind.Size()
  {
    ToBigEndian(if v < 0 then v + kind.Modulus() else v, kind.Size())
  }

  /** `TryReadFrom::try_read` for a fixed-width integer. */
  function FixedRead(kind: FixedInt, s: seq<byte>): (r: Reading<int>)
    ensures r.result.Err? <==> |s| < kind.Size()
    ensures r.result.Err? ==> r.result.error == NotEnoughBytes && r.consumed == 0
    ensures r.result.Ok? ==> r.consumed == kind.Size() && InRange(kind, r.result.value)
  {
    if |s| < kind.Size() then Reading(Err(NotEnoughBytes), 0)
    else Reading(Ok(FixedValue(kind, s[..kind.Size()])), kind.Size())
  }

  /** Reading back the bytes written for `v` gives `v` and takes exactly those bytes. */
  lemma FixedRoundTrip(kind: FixedInt, v: int, rest: seq<byte>)
    requires InRange(kind, v)
    ensures FixedRead(kind, FixedBytes(kind, v) + rest) == Reading(Ok(v), kind.Size())
  {
    var n := kind.Size();
    var u := if v < 0 then v + kind.Modulus() else v;
    var bytes := FixedBytes(kind, v);
    assert BigEndian(bytes) == u by {
      ModulusIsPow256(kind);
      BigEndianRoundTrip(u, n);
    }
    assert FixedValue(kind, bytes) == v;
    assert (bytes + rest)[..n] == bytes;
  }

  method ReadFixed(buf: ByteBuf, kind: FixedInt) returns (r: Result<int>)
    modifies buf
    ensures r == FixedRead(kind, old(buf.bytes)).result
    ensures buf.bytes == old(buf.bytes)[FixedRead(kind, old(buf.bytes)).consumed..]
  {
    if |buf.bytes| < kind.Size() {
      return Err(NotEnoughBytes);
    }
    var chunk := buf.bytes[..kind.Size()];
    buf.Advance(kind.Size());
    return Ok(FixedValue(kind, chunk));
  }

  /** `WriteInto::write` for a fixed-width integer: appends its bytes and returns `$size`. */
  method WriteFixed(buf: ByteBuf, kind: FixedInt, v: int) returns (n: nat)
    requires InRange(kind, v)
    modifies buf
    ensures buf.bytes == old(buf.bytes) + FixedBytes(kind, v)
    ensures n == kind.Size()
  {
    buf.Put(FixedBytes(kind, v));
    return kind.Size();
  }

  // ---------------------------------------------------------------------------
  // VarInt and VarLong
  // ---------------------------------------------------------------------------

  /** The continuation bit `0b1000_0000` of a group byte. */
  predicate More(b: byte) {
    b >= 128
  }

  /**
   * The reader loop shared by VarInt (`limit` 5) and VarLong (`limit` 10),
   * started after `numRead` bytes: on success, the number the remaining 7-bit
   * groups stand for, least significant group first. `consumed` counts the
   * bytes of `s` taken, on failure too. The limit is checked after a byte is
   * taken, so a Malformed read takes one byte past the limit.
   */
  function ReadGroups(s: seq<byte>, numRead: nat, limit: nat): (r: Reading<nat>)
    requires numRead <= limit
    ensures r.consumed <= |s|
    ensures r.result == Err(NotEnoughBytes) ==> r.consumed == |s|
    ensures r.result.Ok? ==> r.consumed >= 1
    ensures r.result.Ok? || r.result == Err(NotEnoughBytes) ==> numRead + r.consumed <= limit
    ensures r.result == Err(Malformed) ==> numRead + r.consumed == limit + 1
    ensures r.result.Err? ==> r.result.error != ValueTooLarge
    decreases |s|
  {
    if |s| == 0 then Reading(Err(NotEnoughBytes), 0)
    else if numRead + 1 > limit then Reading(Err(Malformed), 1)
    else if !More(s[0]) then Reading(Ok(s[0] % 128), 1)
    else
      var r := ReadGroups(s[1..], numRead + 1, limit);
      Reading(if r.result.Ok? then Ok(s[0] % 128 + 128 * r.result.value) else r.result, r.consumed + 1)
  }

  /** The value in a `bits`-bit integer: the source's `result` is an `i32` / `i64`, so higher bits are lost. */
  function Truncate(r: Reading<nat>, bits: nat): (r': Reading<nat>)
    ensures r'.consumed == r.consumed && r'.result.Ok? == r.result.Ok?
    ensures r.result.Err? ==> r'.result == r.result
    ensures r.result.Ok? ==> r'.result.value == r.result.value % Pow2(bits) && r'.result.value < Pow2(bits)
  {
    match r.result
    case Ok(u) => Reading(Ok(u % Pow2(bits)), r.consumed)
    case Err(e) => r
  }

  /** The signed value of the `bits`-bit two's-complement pattern `u`. */
  function ToSigned(u: nat, bits: nat): (v: int)
    requires bits >= 1 && u < Pow2(bits)
    ensures -(Pow2(bits - 1) as int) <= v < Pow2(bits - 1)
  {
    if u >= Pow2(bits - 1) then u - Pow2(bits) else u
  }

  /** The `bits`-bit two's-complement pattern of `v`. */
  function ToUnsigned(v: int, bits: nat): (u: nat)
    requires bits >= 1 && -(Pow2(bits - 1) as int) <= v < Pow2(bits - 1)
    ensures u < Pow2(bits)
    ensures ToSigned(u, bits) == v
  {
    if v < 0 then v + Pow2(bits) else v
  }

  predicate IsI32(v: int) {
    -0x8000_0000 <= v < 0x8000_0000
  }

  predicate IsI64(v: int) {
    -0x8000_0000_0000_0000 <= v < 0x8000_0000_0000_0000
  }

  /** The signed reading of a truncated bit pattern. */
  function MapReading(r: Reading<nat>, bits: nat): (r': Reading<int>)
    requires bits >= 1
    requires r.result.Ok? ==> r.result.value < Pow2(bits)
    ensures r'.consumed == r.consumed && r'.result.Ok? == r.result.Ok?
    ensures r.result.Err? ==> r'.result == Err(r.result.error)
    ensures r.result.Ok? ==> r'.result.value == ToSigned(r.result.value, bits)
  {
    match r.result
    case Ok(u) => Reading(Ok(ToSigned(u, bits)), r.consumed)
    case Err(e) => Reading(Err(e), r.consumed)
  }

  /** `VarInt::try_read`. */
  function VarIntRead(s: seq<byte>): (r: Reading<int>)
    ensures r.consumed <= |s|
    ensures r.result.Ok? ==> IsI32(r.result.value) && 1 <= r.consumed <= 5
    ensures r.result == Err(NotEnoughBytes) ==> r.consumed == |s| <= 5
    ensures r.result == Err(Malformed) ==> r.consumed == 6
    ensures r.result.Err? ==> r.result.error != ValueTooLarge
  {
    Pow2Thirty2();
    MapReading(Truncate(ReadGroups(s, 0, 5), 32), 32)
  }

  /** `VarLong::try_read`. */
  function VarLongRead(s: seq<byte>): (r: Reading<int>)
    ensures r.consumed <= |s|
    ensures r.result.Ok? ==> IsI64(r.result.value) && 1 <= r.consumed <= 10
    ensures r.result == Err(NotEnoughBytes) ==> r.consumed == |s| <= 10
    ensures r.result == Err(Malformed) ==> r.consumed == 11
    ensures r.result.Err? ==> r.result.error != ValueTooLarge
  {
    Pow2SixtyFour();
    MapReading(Truncate(ReadGroups(s, 0, 10), 64), 64)
  }

  /** 7-bit groups of `u`, least significant first, the high bit set on every byte but the last. */
  function Groups(u: nat): (r: seq<byte>)
    ensures |r| >= 1
  {
    if u < 128 then [u] else [u % 128 + 128] + Groups(u / 128)
  }

  /** Every group but the last carries the continuation bit, so a reader stops exactly at the end of the groups. */
  lemma {:induction false} GroupsContinuation(u: nat)
    ensures !More(Groups(u)[|Groups(u)| - 1])
    ensures forall i :: 0 <= i < |Groups(u)| - 1 ==> More(Groups(u)[i])
  {
    if u >= 128 {
      GroupsContinuation(u / 128);
      assert Groups(u) == [(u % 128 + 128) as byte] + Groups(u / 128);
    }
  }

  /** If `u` has more than one group and fits `k` of them, the rest fits `k - 1`. */
  lemma RemainingGroups(u: nat, k: nat)
    requires 128 <= u < Pow2(7 * k)
    ensures k >= 2 && u / 128 < Pow2(7 * (k - 1))
  {
    Pow2Seven();
    assert k >= 1;
    Pow2Add(7, 7 * (k - 1));
    assert 7 * k == 7 + 7 * (k - 1);
    DivBelow(u, Pow2(7 * (k - 1)));
  }

  /** A value below 2^(7k) has at most `k` groups. */
  lemma {:induction false} GroupsLength(u: nat, k: nat)
    requires k >= 1 && u < Pow2(7 * k)
    ensures |Groups(u)| <= k
  {
    if u >= 128 {
      RemainingGroups(u, k);
      GroupsLength(u / 128, k - 1);
    }
  }

  /**
   * The VarInt encoding of a 32-bit value as the format intends it: the
   * groups of its two's-complement pattern, so that a negative value takes
   * five bytes.
   */
  function VarIntBytes(v: int): (r: seq<byte>)
    requires IsI32(v)
    ensures 1 <= |r| <= 5
  {
    Pow2Thirty2();
    var u := ToUnsigned(v, 32);
    Pow2Monotone(32, 35);
    GroupsLength(u, 5);
    Groups(u)
  }

  /** The 64-bit analogue of `VarIntBytes`, at most ten bytes. */
  function VarLongBytes(v: int): (r: seq<byte>)
    requires IsI64(v)
    ensures 1 <= |r| <= 10
  {
    Pow2SixtyFour();
    var u := ToUnsigned(v, 64);
    Pow2Monotone(64, 70);
    GroupsLength(u, 10);
    Groups(u)
  }

  /** Reading the groups of `u`, when they fit in the bytes left before the limit, gives `u` and stops right after them. */
  lemma {:induction false} GroupsRead(u: nat, rest: seq<byte>, numRead: nat, limit: nat)
    requires numRead < limit && u < Pow2(7 * (limit - numRead))
    ensures ReadGroups(Groups(u) + rest, numRead, limit) == Reading(Ok(u), |Groups(u)|)
    decreases limit - numRead
  {
    var s := Groups(u) + rest;
    if u < 128 {
      assert s[0] == u;
    } else {
      var q := u / 128;
      assert s[1..] == Groups(q) + rest && s[0] == u % 128 + 128 by {
        assert Groups(u) == [u % 128 + 128] + Groups(q);
      }
      RemainingGroups(u, limit - numRead);
      GroupsRead(q, rest, numRead + 1, limit);
      ReadGroupsMore(s, numRead, limit);
      assert u % 128 + 128 * q == u;
    }
  }

  /** A continuation byte within the limit: the rest of the read, one group higher. */
  lemma ReadGroupsMore(s: seq<byte>, numRead: nat, limit: nat)
    requires |s| > 0 && numRead < limit && More(s[0])
    ensures var r := ReadGroups(s[1..], numRead + 1, limit);
      ReadGroups(s, numRead, limit)
      == Reading(if r.result.Ok? then Ok(s[0] % 128 + 128 * r.result.value) else r.result, r.consumed + 1)
  {
  }

  /** The shared round trip: groups of a `bits`-bit pattern, read with a limit covering `bits`, give the value back. */
  lemma VarRoundTrip(v: int, rest: seq<byte>, limit: nat, bits: nat)
    requires 1 <= bits <= 7 * limit && -(Pow2(bits - 1) as int) <= v < Pow2(bits - 1)
    ensures MapReading(Truncate(ReadGroups(Groups(ToUnsigned(v, bits)) + rest, 0, limit), bits), bits)
         == Reading(Ok(v), |Groups(ToUnsigned(v, bits))|)
  {
    var u := ToUnsigned(v, bits);
    assert ReadGroups(Groups(u) + rest, 0, limit) == Reading(Ok(u), |Groups(u)|) by {
      Pow2Monotone(bits, 7 * limit);
      GroupsRead(u, rest, 0, limit);
    }
    SmallMod(u, Pow2(bits));
  }

  /** Round trip: for every 32-bit value, reading its VarInt bytes gives it back and takes exactly those bytes. */
  lemma VarIntRoundTrip(v: int, rest: seq<byte>)
    requires IsI32(v)
    ensures VarIntRead(VarIntBytes(v) + rest) == Reading(Ok(v), |VarIntBytes(v)|)
  {
    Pow2Thirty2();
    VarRoundTrip(v, rest, 5, 32);
  }

  /** The same round trip for VarLong and 64-bit values. */
  lemma VarLongRoundTrip(v: int, rest: seq<byte>)
    requires IsI64(v)
    ensures VarLongRead(VarLongBytes(v) + rest) == Reading(Ok(v), |VarLongBytes(v)|)
  {
    Pow2SixtyFour();
    VarRoundTrip(v, rest, 10, 64);
  }

  /** For a non-negative value the groups are those of the value itself (no sign handling is involved). */
  lemma VarIntBytesNonNegative(v: int)
    requires 0 <= v < 0x8000_0000
    ensures VarIntBytes(v) == Groups(v)
  {
  }

  /** Five bytes of continuation bits and a sixth byte: the sixth is consumed and the read is Malformed. */
  lemma VarIntSixthByteMalformed(s: seq<byte>)
    requires |s| >= 6 && forall i :: 0 <= i < 5 ==> More(s[i])
    ensures VarIntRead(s) == Reading(Err(Malformed), 6)
  {
    ContinuationsMalformed(s, 0, 5);
  }

  /** The VarLong limit is ten bytes: an eleventh byte is consumed and the read is Malformed. */
  lemma VarLongEleventhByteMalformed(s: seq<byte>)
    requires |s| >= 11 && forall i :: 0 <= i < 10 ==> More(s[i])
    ensures VarLongRead(s) == Reading(Err(Malformed), 11)
  {
    ContinuationsMalformed(s, 0, 10);
  }

  /** Continuation bits on every byte up to the limit and one byte more: Malformed, after taking that byte. */
  lemma {:induction false} ContinuationsMalformed(s: seq<byte>, numRead: nat, limit: nat)
    requires numRead <= limit && |s| > limit - numRead
    requires forall i :: 0 <= i < limit - numRead ==> More(s[i])
    ensures ReadGroups(s, numRead, limit) == Reading(Err(Malformed), limit - numRead + 1)
    decreases limit - numRead
  {
    if numRead < limit {
      assert More(s[0]);
      assert forall i :: 0 <= i < limit - (numRead + 1) ==> s[1..][i] == s[i + 1];
      ContinuationsMalformed(s[1..], numRead + 1, limit);
    }
  }

  /** Continuation bits on every byte and no more bytes than the limit allows: NotEnoughBytes, after taking them all. */
  lemma {:induction false} ContinuationsIncomplete(s: seq<byte>, numRead: nat, limit: nat)
    requires numRead <= limit && |s| <= limit - numRead
    requires forall i :: 0 <= i < |s| ==> More(s[i])
    ensures ReadGroups(s, numRead, limit) == Reading(Err(NotEnoughBytes), |s|)
    decreases |s|
  {
    if |s| > 0 {
      assert More(s[0]);
      assert forall i :: 0 <= i < |s| - 1 ==> s[1..][i] == s[i + 1];
      ContinuationsIncomplete(s[1..], numRead + 1, limit);
    }
  }

  /** `overflowing_shl(..).0` on a `bits`-bit integer: the shift amount is masked to the width, the result truncated. */
  function ShiftLeft(v: nat, shift: nat, bits: nat): (r: nat)
    requires bits >= 1
    ensures r < Pow2(bits)
  {
    (v * Pow2(shift % bits)) % Pow2(bits)
  }

  lemma SmallMod(x: nat, m: nat)
    requires x < m
    ensures x % m == x
  {
  }

  /** Adding truncated summands and truncating again is truncating the sum. */
  lemma TruncatedSum(a: int, x: int, m: int)
    requires m > 0
    ensures (a % m + x % m) % m == (a + x) % m
  {
    ModAddMod(x, a % m, m);
    ModAddMod(a, x, m);
  }

  /** The group value `g` moved to the position of the group after `numRead` others. */
  function Place(g: nat, numRead: nat): nat {
    g * Pow2(7 * numRead)
  }

  /** A group plus the number formed by the groups above it, placed together, is the two placed apart. */
  lemma PlaceStep(g: nat, w: nat, numRead: nat)
    ensures Place(g + 128 * w, numRead) == Place(g, numRead) + Place(w, numRead + 1)
  {
    var p := Pow2(7 * numRead);
    Pow2Add(7 * numRead, 7);
    Pow2Seven();
    assert 7 * (numRead + 1) == 7 * numRead + 7;
    assert p * 128 == Pow2(7 * (numRead + 1));
    assert (g + 128 * w) * p == g * p + w * (p * 128);
  }

  /** OR-ing a group into the truncated accumulator is adding it to the whole accumulator, then truncating. */
  lemma ShiftStep(acc: nat, value: nat, numRead: nat, bits: nat)
    requires 7 * numRead < bits
    ensures (acc % Pow2(bits) + ShiftLeft(value, 7 * numRead, bits)) % Pow2(bits)
         == (acc + Place(value, numRead)) % Pow2(bits)
  {
    var k := 7 * numRead;
    SmallMod(k, bits);
    var x := Place(value, numRead);
    assert ShiftLeft(value, k, bits) == x % Pow2(bits);
    TruncatedSum(acc, x, Pow2(bits));
  }

  /** The whole read, seen from the loop after `numRead` bytes whose groups add up to `acc`. */
  ghost function Resumed(r: Reading<nat>, acc: nat, numRead: nat): Reading<nat> {
    Reading(if r.result.Ok? then Ok(acc + Place(r.result.value, numRead)) else r.result, r.consumed + numRead)
  }

  /** One more continuation byte moves its group from the rest of the read into the accumulator. */
  lemma ResumedStep(s: seq<byte>, acc: nat, numRead: nat, limit: nat)
    requires |s| > 0 && numRead + 1 <= limit && More(s[0])
    ensures Resumed(ReadGroups(s, numRead, limit), acc, numRead)
         == Resumed(ReadGroups(s[1..], numRead + 1, limit), acc + Place(s[0] % 128, numRead), numRead + 1)
  {
    var r := ReadGroups(s[1..], numRead + 1, limit);
    if r.result.Ok? {
      PlaceStep(s[0] % 128, r.result.value, numRead);
    }
  }

  /** The loop of `VarInt::try_read` / `VarLong::try_read`, giving the bit pattern read. */
  method ReadVarGroups(buf: ByteBuf, limit: nat, bits: nat) returns (r: Result<nat>)
    requires 1 <= limit && 7 * (limit - 1) < bits
    modifies buf
    ensures r == Truncate(ReadGroups(old(buf.bytes), 0, limit), bits).result
    ensures buf.bytes == old(buf.bytes)[ReadGroups(old(buf.bytes), 0, limit).consumed..]
  {
    ghost var s0 := buf.bytes;
    ghost var whole := ReadGroups(s0, 0, limit);
    ghost var acc: nat := 0;
    var numRead: nat := 0;
    var result: nat := 0;
    assert Resumed(whole, 0, 0) == whole;
    while true
      invariant numRead <= limit && numRead <= |s0|
      invariant buf.bytes == s0[numRead..]
      invariant result == acc % Pow2(bits)
      invariant whole == Resumed(ReadGroups(buf.bytes, numRead, limit), acc, numRead)
      decreases |buf.bytes|
    {
      if |buf.bytes| == 0 {
        return Err(NotEnoughBytes);
      }
      // `try_read` of a u8 cannot fail here: the buffer was just found non-empty.
      ghost var here := buf.bytes;
      var read := buf.GetU8();
      var value := read % 128;
      if numRead + 1 <= limit {
        ShiftStep(acc, value, numRead, bits);
        if More(read) {
          ResumedStep(here, acc, numRead, limit);
        }
      }
      result := (result + ShiftLeft(value, 7 * numRead, bits)) % Pow2(bits);
      acc := acc + Place(value, numRead);
      numRead := numRead + 1;
      if numRead > limit {
        return Err(Malformed);
      }
      if !More(read) {
        break;
      }
      assert here[1..] == buf.bytes;
    }
    return Ok(result);
  }

  method ReadVarInt(buf: ByteBuf) returns (r: Result<int>)
    modifies buf
    ensures r == VarIntRead(old(buf.bytes)).result
    ensures buf.bytes == old(buf.bytes)[VarIntRead(old(buf.bytes)).consumed..]
  {
    Pow2Thirty2();
    var u := ReadVarGroups(buf, 5, 32);
    match u
    case Ok(p) => r := Ok(ToSigned(p, 32));
    case Err(e) => r := Err(e);
  }

  method ReadVarLong(buf: ByteBuf) returns (r: Result<int>)
    modifies buf
    ensures r == VarLongRead(old(buf.bytes)).result
    ensures buf.bytes == old(buf.bytes)[VarLongRead(old(buf.bytes)).consumed..]
  {
    Pow2SixtyFour();
    var u := ReadVarGroups(buf, 10, 64);
    match u
    case Ok(p) => r := Ok(ToSigned(p, 64));
    case Err(e) => r := Err(e);
  }

  /**
   * `VarInt::write`. The source shifts `x` with an arithmetic `>>=`, which
   * for a negative `x` never reaches 0, so its loop stops only for
   * non-negative values; for those it appends the intended encoding and
   * returns its length.
   */
  method WriteVarInt(buf: ByteBuf, v: int) returns (bytesWritten: nat)
    requires 0 <= v < 0x8000_0000
    modifies buf
    ensures buf.bytes == old(buf.bytes) + VarIntBytes(v)
    ensures bytesWritten == |VarIntBytes(v)|
  {
    VarIntBytesNonNegative(v);
    var x := v;
    bytesWritten := 0;
    ghost var written: seq<byte> := [];
    while true
      invariant 0 <= x
      invariant buf.bytes == old(buf.bytes) + written
      invariant written + Groups(x) == Groups(v)
      invariant bytesWritten == |written|
      decreases x
    {
      ghost var before := x;
      GroupsFirst(before);
      var temp := x % 128;   // (x & 0b0111_1111) as u8
      x := x / 128;          // x >>= 7
      if x != 0 {
        temp := temp + 128;  // temp |= 0b1000_0000
      }
      buf.Put([temp]);
      ConcatStep(written, temp, Groups(x));
      written := written + [temp];
      bytesWritten := bytesWritten + 1;
      if x == 0 {
        break;
      }
    }
  }

  /** The first byte `VarInt::write` emits for `x`, and what follows it. */
  lemma GroupsFirst(x: nat)
    ensures x / 128 == 0 ==> Groups(x) == [x % 128]
    ensures x / 128 != 0 ==> Groups(x) == [x % 128 + 128] + Groups(x / 128)
  {
  }

  lemma ConcatStep<T>(a: seq<T>, b: T, c: seq<T>)
    ensures (a + [b]) + c == a + ([b] + c)
  {
  }

  /** `x` after `k` arithmetic shifts right by seven (`>>` on a signed integer rounds towards minus infinity). */
  function ShiftRight7(x: int, k: nat): (r: int)
    ensures r == x / Pow2(7 * k)
  {
    if k == 0 then x
    else
      Pow2Add(7 * (k - 1), 7);
      Pow2Seven();
      DivDiv(x, Pow2(7 * (k - 1)), 128);
      ShiftRight7(x, k - 1) / 128
  }

  /** A quotient and remainder that satisfy the division equation are Dafny's. */
  lemma DivUnique(x: int, d: int, q: int, r: int)
    requires d > 0 && x == d * q + r && 0 <= r < d
    ensures x / d == q
  {
    var k := q - x / d;
    assert d * k == x % d - r;
  }

  /** Dividing by `m` and then by `n` is dividing by `m * n`. */
  lemma DivDiv(x: int, m: int, n: int)
    requires m > 0 && n > 0
    ensures x / m / n == x / (m * n)
  {
    var q, r1 := x / m, x % m;
    var q2, r2 := q / n, q % n;
    assert x == m * q + r1;
    assert q == n * q2 + r2;
    MulSplit(m, n, q2, r2);
    DivUnique(x, m * n, q2, m * r2 + r1);
  }

  /** `m * (n * q + r)` regrouped, with `m * r` below `m * n` by at least `m`. */
  lemma MulSplit(m: int, n: int, q: int, r: int)
    requires m > 0 && 0 <= r < n
    ensures m * (n * q + r) == (m * n) * q + m * r
    ensures 0 <= m * r <= m * n - m
  {
    assert m * (n * q + r) == m * (n * q) + m * r;
    assert m * (n * q) == (m * n) * q;
    MulNonNegative(m, n - 1 - r);
    MulNonNegative(m, r);
    assert m * (n - 1 - r) == m * n - m - m * r;
  }

  /** A product of two non-negative numbers is non-negative. */
  lemma {:induction false} MulNonNegative(a: int, b: int)
    requires a >= 0 && b >= 0
    ensures a * b >= 0
  {
    if b > 0 {
      MulNonNegative(a, b - 1);
      assert a * b == a * (b - 1) + a;
    }
  }

  /** For a negative input, no number of iterations of the writer's shift makes `x` zero: the loop never exits. */
  lemma {:induction false} NegativeShiftNeverZero(x: int, k: nat)
    requires x < 0
    ensures ShiftRight7(x, k) < 0
  {
    if k > 0 {
      NegativeShiftNeverZero(x, k - 1);
    }
  }

  // ---------------------------------------------------------------------------
  // Strings, booleans, UUIDs
  // ---------------------------------------------------------------------------

  /** The string length cap of `String::try_read`. */
  const MAX_STRING_LENGTH: nat := 32767

  predicate Continuation(b: byte) {
    0x80 <= b <= 0xBF
  }

  /** Well-formed UTF-8, the `UTF8-octets` grammar of section 4 of RFC 3629. */
  predicate IsUtf8(s: seq<byte>)
    ensures IsUtf8(s) && |s| > 0 ==> !Continuation(s[0]) && s[0] != 0xC0 && s[0] != 0xC1 && s[0] < 0xF5
    decreases |s|
  {
    if |s| == 0 then true
    else if s[0] < 0x80 then IsUtf8(s[1..])
    else if 0xC2 <= s[0] <= 0xDF then
      |s| >= 2 && Continuation(s[1]) && IsUtf8(s[2..])
    else if s[0] == 0xE0 then
      |s| >= 3 && 0xA0 <= s[1] <= 0xBF && Continuation(s[2]) && IsUtf8(s[3..])
    else if 0xE1 <= s[0] <= 0xEC || 0xEE <= s[0] <= 0xEF then
      |s| >= 3 && Continuation(s[1]) && Continuation(s[2]) && IsUtf8(s[3..])
    else if s[0] == 0xED then
      |s| >= 3 && 0x80 <= s[1] <= 0x9F && Continuation(s[2]) && IsUtf8(s[3..])
    else if s[0] == 0xF0 then
      |s| >= 4 && 0x90 <= s[1] <= 0xBF && Continuation(s[2]) && Continuation(s[3]) && IsUtf8(s[4..])
    else if 0xF1 <= s[0] <= 0xF3 then
      |s| >= 4 && Continuation(s[1]) && Continuation(s[2]) && Continuation(s[3]) && IsUtf8(s[4..])
    else if s[0] == 0xF4 then
      |s| >= 4 && 0x80 <= s[1] <= 0x8F && Continuation(s[2]) && Continuation(s[3]) && IsUtf8(s[4..])
    else false
  }

  /** Every ASCII sequence is UTF-8. */
  lemma {:induction false} AsciiIsUtf8(s: seq<byte>)
    requires forall i :: 0 <= i < |s| ==> s[i] < 0x80
    ensures IsUtf8(s)
    decreases |s|
  {
    if |s| > 0 {
      assert forall i :: 0 <= i < |s| - 1 ==> s[1..][i] == s[i + 1];
      AsciiIsUtf8(s[1..]);
    }
  }

  function Min(a: nat, b: nat): nat {
    if a < b then a else b
  }

  /**
   * `String::try_read`: a VarInt length, cast to `usize` (so a negative
   * length is huge) and capped at 32767, then up to that many bytes, which
   * must be UTF-8. A Rust `String` is its UTF-8 bytes, so the model returns
   * those bytes.
   */
  function StringRead(s: seq<byte>): (r: Reading<seq<byte>>)
    ensures r.consumed <= |s|
    ensures r.result.Ok? ==> IsUtf8(r.result.value) && |r.result.value| <= MAX_STRING_LENGTH
  {
    var len := VarIntRead(s);
    match len.result
    case Err(e) => Reading(Err(e), len.consumed)
    case Ok(v) =>
      var n := AsUsize(v);
      if n > MAX_STRING_LENGTH then Reading(Err(ValueTooLarge), len.consumed)
      else
        var rest := s[len.consumed..];
        var taken := rest[..Min(n, |rest|)];
        if !IsUtf8(taken) then Reading(Err(Malformed), len.consumed + |taken|)
        else if |taken| == n then Reading(Ok(taken), len.consumed + n)
        else Reading(Err(NotEnoughBytes), len.consumed + |taken|)
  }

  /** A UTF-8 string of at most 32767 bytes, prefixed by its VarInt length, reads back as itself. */
  lemma StringRoundTrip(t: seq<byte>, rest: seq<byte>)
    requires IsUtf8(t) && |t| <= MAX_STRING_LENGTH
    ensures StringRead(VarIntBytes(|t|) + t + rest) == Reading(Ok(t), |VarIntBytes(|t|)| + |t|)
  {
    var s := VarIntBytes(|t|) + t + rest;
    var k := |VarIntBytes(|t|)|;
    assert VarIntRead(s) == Reading(Ok(|t|), k) by {
      assert s == VarIntBytes(|t|) + (t + rest);
      VarIntRoundTrip(|t|, t + rest);
    }
    assert s[k..] == t + rest;
    assert (t + rest)[..Min(|t|, |t + rest|)] == t;
  }

  /** A declared length above 32767 is `ValueTooLarge`, whatever follows. */
  lemma StringTooLong(n: int, rest: seq<byte>)
    requires MAX_STRING_LENGTH < n < 0x8000_0000
    ensures StringRead(VarIntBytes(n) + rest) == Reading(Err(ValueTooLarge), |VarIntBytes(n)|)
  {
    VarIntRoundTrip(n, rest);
  }

  /** A negative declared length becomes a huge `usize` and is `ValueTooLarge` too. */
  lemma StringNegativeLength(n: int, rest: seq<byte>)
    requires -0x8000_0000 <= n < 0
    ensures StringRead(VarIntBytes(n) + rest) == Reading(Err(ValueTooLarge), |VarIntBytes(n)|)
  {
    VarIntRoundTrip(n, rest);
  }

  /** Fewer well-formed bytes than declared: `NotEnoughBytes`, after taking what there was. */
  lemma StringShort(t: seq<byte>, n: nat)
    requires IsUtf8(t) && |t| < n <= MAX_STRING_LENGTH
    ensures StringRead(VarIntBytes(n) + t) == Reading(Err(NotEnoughBytes), |VarIntBytes(n)| + |t|)
  {
    var s := VarIntBytes(n) + t;
    var k := |VarIntBytes(n)|;
    assert VarIntRead(s) == Reading(Ok(n), k) by {
      VarIntRoundTrip(n, t);
    }
    assert s[k..] == t;
    assert t[..Min(n, |t|)] == t;
  }

  /** Bytes that are not UTF-8 within the declared length: `Malformed`. */
  lemma StringNotUtf8(t: seq<byte>, rest: seq<byte>)
    requires !IsUtf8(t) && |t| <= MAX_STRING_LENGTH
    ensures StringRead(VarIntBytes(|t|) + t + rest).result == Err(Malformed)
  {
    var s := VarIntBytes(|t|) + t + rest;
    var k := |VarIntBytes(|t|)|;
    assert VarIntRead(s) == Reading(Ok(|t|), k) by {
      assert s == VarIntBytes(|t|) + (t + rest);
      VarIntRoundTrip(|t|, t + rest);
    }
    assert s[k..] == t + rest;
    assert (t + rest)[..Min(|t|, |t + rest|)] == t;
  }

  method ReadString(buf: ByteBuf) returns (r: Result<seq<byte>>)
    modifies buf
    ensures r == StringRead(old(buf.bytes)).result
    ensures buf.bytes == old(buf.bytes)[StringRead(old(buf.bytes)).consumed..]
  {
    ghost var s0 := buf.bytes;
    var len := ReadVarInt(buf);
    if len.Err? {
      return Err(len.error);
    }
    var n := AsUsize(len.value);
    if n > MAX_STRING_LENGTH {
      return Err(ValueTooLarge);
    }
    // `buf.take(len).reader().read_to_string(..)`: takes up to `n` bytes, then checks UTF-8.
    var taken := buf.bytes[..Min(n, |buf.bytes|)];
    buf.Advance(|taken|);
    if !IsUtf8(taken) {
      return Err(Malformed);
    }
    if |taken| == n {
      return Ok(taken);
    } else {
      return Err(NotEnoughBytes);
    }
  }

  /** `bool::try_read`: one byte, 0 or 1. */
  function BoolRead(s: seq<byte>): (r: Reading<bool>)
    ensures r.result == Err(NotEnoughBytes) <==> |s| == 0
    ensures r.result.Ok? <==> |s| > 0 && s[0] <= 1
    ensures r.result == Err(Malformed) <==> |s| > 0 && s[0] > 1
    ensures r.result.Ok? ==> r.result.value == (s[0] == 1)
    ensures r.consumed == if |s| == 0 then 0 else 1
  {
    var b := FixedRead(U8, s);
    match b.result
    case Err(e) => Reading(Err(e), b.consumed)
    case Ok(v) =>
      assert s[..1] == [s[0]];
      if v == 0 then Reading(Ok(false), 1)
      else if v == 1 then Reading(Ok(true), 1)
      else Reading(Err(Malformed), 1)
  }

  method ReadBool(buf: ByteBuf) returns (r: Result<bool>)
    modifies buf
    ensures r == BoolRead(old(buf.bytes)).result
    ensures buf.bytes == old(buf.bytes)[BoolRead(old(buf.bytes)).consumed..]
  {
    var v := ReadFixed(buf, U8);
    match v
    case Err(e) => r := Err(e);
    case Ok(b) =>
      if b == 0 {
        r := Ok(false);
      } else if b == 1 {
        r := Ok(true);
      } else {
        r := Err(Malformed);
      }
  }

  /** `Uuid::try_read`: sixteen raw bytes; `copy_to_slice` panics on a shorter buffer. */
  method ReadUuid(buf: ByteBuf) returns (r: Result<seq<byte>>)
    requires |buf.bytes| >= 16
    modifies buf
    ensures r == Ok(old(buf.bytes)[..16])
    ensures buf.bytes == old(buf.bytes)[16..]
  {
    var bytes := buf.bytes[..16];
    buf.Advance(16);
    return Ok(bytes);
  }
}
