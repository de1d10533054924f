/**
 * The protocol schema of the `spec` crate: the identifier primitives of
 * `spec/src/primitives.rs`, the type language of `spec/src/custom_type.rs`
 * and the `Protocol` record of `spec/src/lib.rs`.
 *
 * Ordered maps (`BTreeMap`) are sequences of entries in strictly ascending
 * key order; insertion-ordered maps (`IndexMap`) are sequences of entries in
 * declaration order with distinct keys.
 */
module Schema {

  /** `u8`, `u16`, `u64` and `i64`. */
  type u8 = x: nat | x < 0x100
  type u16 = x: nat | x < 0x1_0000
  type u64 = x: nat | x < 0x1_0000_0000_0000_0000
  type i64 = x: int | -0x8000_0000_0000_0000 <= x < 0x8000_0000_0000_0000

  // ---------------------------------------------------------------------------
  // Stages, directions and the `wrap!` newtypes
  // ---------------------------------------------------------------------------

  /** `PacketStage`, ordered by its discriminant. */
  datatype PacketStage = Handshaking | Status | Login | Play {
    function Rank(): (r: nat)
      ensures r < 4
    {
      match this
      case Handshaking => 0
      case Status => 1
      case Login => 2
      case Play => 3
    }
  }

  /** `PacketDirection`, ordered by its discriminant. */
  datatype PacketDirection = Client | Server {
    function Rank(): (r: nat)
      ensures r < 2
    {
      match this
      case Client => 0
      case Server => 1
    }
  }

  /** The derived `Ord` of `PacketStage`. */
  predicate StageLess(a: PacketStage, b: PacketStage) {
    a.Rank() < b.Rank()
  }

  /** The derived `Ord` of `PacketDirection`. */
  predicate DirectionLess(a: PacketDirection, b: PacketDirection) {
    a.Rank() < b.Rank()
  }

  /** The stages run Handshaking, Status, Login, Play, and the ranks tell stages apart. */
  lemma StageOrder(a: PacketStage, b: PacketStage)
    ensures StageLess(Handshaking, Status) && StageLess(Status, Login) && StageLess(Login, Play)
    ensures a.Rank() == b.Rank() ==> a == b
  {
  }

  /** Client comes before Server, and the ranks tell directions apart. */
  lemma DirectionOrder(a: PacketDirection, b: PacketDirection)
    ensures DirectionLess(Client, Server)
    ensures a.Rank() == b.Rank() ==> a == b
  {
  }

  /** A `wrap!` newtype: a value with `Deref` to, and `From` of, the wrapped value. */
  datatype Wrapped<T> = Wrapped(inner: T)

  /** `Deref::deref`. */
  function Deref<T>(w: Wrapped<T>): (x: T)
    ensures Wrapped(x) == w
  {
    w.inner
  }

  /** `From::from`. */
  function From<T>(x: T): (w: Wrapped<T>)
    ensures w.inner == x
  {
    Wrapped(x)
  }

  /** Dereferencing what `From` built gives the value back, and wrapping what `Deref` returned gives the newtype back. */
  lemma WrapRoundTrip<T>(x: T, w: Wrapped<T>)
    ensures Deref(From(x)) == x
    ensures From(Deref(w)) == w
  {
  }

  type PacketId = Wrapped<u64>
  type PacketName = Wrapped<string>
  type MinecraftVersion = Wrapped<string>
  type ProtocolVersion = Wrapped<u64>
  type SharedTypeId = Wrapped<string>
  type VariantName = Wrapped<string>
  type FieldName = Wrapped<string>

  // ---------------------------------------------------------------------------
  // Packet identifiers
  // ---------------------------------------------------------------------------

  /** `PacketIdentifier(direction, stage, id)`; `direction()`, `stage()` and `id()` are its destructors. */
  datatype PacketIdentifier = PacketIdentifier(direction: PacketDirection, stage: PacketStage, id: PacketId)

  /** The derived `Ord` of `PacketIdentifier`: by direction, then stage, then id. */
  predicate IdentifierLess(a: PacketIdentifier, b: PacketIdentifier)
    ensures IdentifierLess(a, b) ==> a != b
  {
    DirectionLess(a.direction, b.direction)
    || (a.direction == b.direction && StageLess(a.stage, b.stage))
    || (a.direction == b.direction && a.stage == b.stage && a.id.inner < b.id.inner)
  }

  /** Where an identifier falls in one linear order of all identifiers. */
  function IdentifierRank(a: PacketIdentifier): (r: nat)
    ensures r < 8 * 0x1_0000_0000_0000_0000
  {
    (a.direction.Rank() * 4 + a.stage.Rank()) * 0x1_0000_0000_0000_0000 + a.id.inner
  }

  /** The lexicographic order is the order of the ranks, so it is a strict total order. */
  lemma IdentifierLessIsRankOrder(a: PacketIdentifier, b: PacketIdentifier)
    ensures IdentifierLess(a, b) <==> IdentifierRank(a) < IdentifierRank(b)
    ensures IdentifierRank(a) == IdentifierRank(b) <==> a == b
  {
    var ka := a.direction.Rank() * 4 + a.stage.Rank();
    var kb := b.direction.Rank() * 4 + b.stage.Rank();
    RankSplit(ka, a.id.inner, kb, b.id.inner);
    StageOrder(a.stage, b.stage);
    DirectionOrder(a.direction, b.direction);
  }

  lemma RankSplit(ka: nat, ia: u64, kb: nat, ib: u64)
    ensures ka * 0x1_0000_0000_0000_0000 + ia < kb * 0x1_0000_0000_0000_0000 + ib
        <==> ka < kb || (ka == kb && ia < ib)
    ensures ka * 0x1_0000_0000_0000_0000 + ia == kb * 0x1_0000_0000_0000_0000 + ib
        <==> ka == kb && ia == ib
  {
    if ka < kb {
      assert ka * 0x1_0000_0000_0000_0000 + 0x1_0000_0000_0000_0000 <= kb * 0x1_0000_0000_0000_0000;
    } else if kb < ka {
      assert kb * 0x1_0000_0000_0000_0000 + 0x1_0000_0000_0000_0000 <= ka * 0x1_0000_0000_0000_0000;
    }
  }

  /** The order is transitive, irreflexive and total. */
  lemma IdentifierOrderTotal(a: PacketIdentifier, b: PacketIdentifier, c: PacketIdentifier)
    ensures !IdentifierLess(a, a)
    ensures IdentifierLess(a, b) && IdentifierLess(b, c) ==> IdentifierLess(a, c)
    ensures a == b || IdentifierLess(a, b) || IdentifierLess(b, a)
  {
    IdentifierLessIsRankOrder(a, b);
    IdentifierLessIsRankOrder(b, c);
    IdentifierLessIsRankOrder(a, c);
    IdentifierLessIsRankOrder(a, a);
  }

  /** Id 0 of a stage is the least identifier of that direction and stage: everything below it is in an earlier stage or direction. */
  lemma BelowStageStart(a: PacketIdentifier, d: PacketDirection, s: PacketStage)
    ensures IdentifierLess(a, PacketIdentifier(d, s, From(0)))
        <==> DirectionLess(a.direction, d) || (a.direction == d && StageLess(a.stage, s))
  {
  }

  /** An ordered map: the identifiers of its entries strictly ascend. */
  predicate Ascending<V>(entries: seq<(PacketIdentifier, V)>) {
    forall i, j :: 0 <= i < j < |entries| ==> IdentifierLess(entries[i].0, entries[j].0)
  }

  // ---------------------------------------------------------------------------
  // The type language
  // ---------------------------------------------------------------------------

  /** `CustomTypeName` and `FlagName` (the `wrap!` list does not include them) are plain strings here. */
  type CustomTypeName = string
  type FlagName = string

  datatype CustomType =
    | Enum(name: CustomTypeName, variant: FieldType, variants: seq<(Literal, CustomType)>)
    | Struct(name: CustomTypeName, fields: seq<(FieldName, FieldType)>)
    | BitField(name: CustomTypeName, bitFields: seq<(FieldName, BitField)>)
    | BitFlags(name: CustomTypeName, fieldType: IntegerType, flags: seq<(u64, FlagName)>)
    | Unit(name: CustomTypeName)

  /** `CustomType::name`: the name of whichever variant it is. */
  function Name(t: CustomType): (r: CustomTypeName)
    ensures r == t.name
  {
    match t
    case Enum(name, _, _) => name
    case Struct(name, _) => name
    case BitField(name, _) => name
    case BitFlags(name, _, _) => name
    case Unit(name) => name
  }

  /** Every variant's name is what `Name` returns. */
  lemma NameOfEach(n: CustomTypeName, v: FieldType, vs: seq<(Literal, CustomType)>, fs: seq<(FieldName, FieldType)>,
                   bs: seq<(FieldName, BitField)>, k: IntegerType, flags: seq<(u64, FlagName)>)
    ensures Name(CustomType.Enum(n, v, vs)) == n && Name(CustomType.Struct(n, fs)) == n
    ensures Name(CustomType.BitField(n, bs)) == n && Name(CustomType.BitFlags(n, k, flags)) == n
    ensures Name(CustomType.Unit(n)) == n
  {
  }

  /** `BitField`: a boolean or an integer of the given width. */
  datatype BitField =
    | Boolean
    | I8(bits: u8) | U8(bits: u8) | I16(bits: u8) | U16(bits: u8)
    | I32(bits: u8) | U32(bits: u8) | I64(bits: u8) | U64(bits: u8)

  datatype ArrayLength = RemainingLength | FixedLength(length: u64) | Prefixed(prefix: IntegerType)

  datatype IntegerType = U8 | I8 | U16 | I16 | U32 | I32 | U64 | I64 | VarInt | VarLong

  datatype FloatType = F32 | F64

  datatype PrimitiveType =
    | Boolean
    | Uuid
    | String(maxLength: u16)
    | Nbt
    | Array(length: ArrayLength, fieldType: FieldType)
    | Option(inner: FieldType)
    | Shared(sharedName: CustomTypeName)

  datatype FieldType =
    | Primitive(primitive: PrimitiveType)
    | Float(float: FloatType)
    | Integer(integer: IntegerType)
    | Custom(customType: CustomType)

  /** The `From` impls of `FieldType`. */
  function FromInteger(t: IntegerType): (r: FieldType)
    ensures r.Integer? && r.integer == t
  {
    Integer(t)
  }

  function FromFloat(t: FloatType): (r: FieldType)
    ensures r.Float? && r.float == t
  {
    Float(t)
  }

  function FromPrimitive(t: PrimitiveType): (r: FieldType)
    ensures r.Primitive? && r.primitive == t
  {
    Primitive(t)
  }

  /** The flat tag `FieldType::deserialize` reads before building the nested value. */
  datatype FieldTag =
    | U8 | I8 | U16 | I16 | U32 | I32 | U64 | I64 | VarInt | VarLong
    | F32 | F64
    | Boolean | Uuid | String(maxLength: u16) | Nbt
    | Array(length: ArrayLength, fieldType: FieldType)
    | Option(inner: FieldType)
    | Shared(sharedName: CustomTypeName)
    | Enum(name: CustomTypeName, variant: FieldType, variants: seq<(Literal, CustomType)>)
    | Struct(name: CustomTypeName, fields: seq<(FieldName, FieldType)>)
    | BitField(name: CustomTypeName, bitFields: seq<(FieldName, BitField)>)
    | BitFlags(name: CustomTypeName, flagsType: IntegerType, flags: seq<(u64, FlagName)>)
    | Unit(name: CustomTypeName)
  {
    predicate IsInteger() {
      U8? || I8? || U16? || I16? || U32? || I32? || U64? || I64? || VarInt? || VarLong?
    }

    predicate IsFloat() {
      F32? || F64?
    }

    predicate IsCustom() {
      Enum? || Struct? || BitField? || BitFlags? || Unit?
    }
  }

  /** The match in `FieldType::deserialize`, from the flat tag to the nested variant. */
  function Deserialize(tag: FieldTag): (r: FieldType)
    ensures r.Integer? <==> tag.IsInteger()
    ensures r.Float? <==> tag.IsFloat()
    ensures r.Custom? <==> tag.IsCustom()
    ensures r.Custom? ==> Name(r.customType) == tag.name
  {
    match tag
    case U8 => Integer(IntegerType.U8)
    case I8 => Integer(IntegerType.I8)
    case U16 => Integer(IntegerType.U16)
    case I16 => Integer(IntegerType.I16)
    case U32 => Integer(IntegerType.U32)
    case I32 => Integer(IntegerType.I32)
    case U64 => Integer(IntegerType.U64)
    case I64 => Integer(IntegerType.I64)
    case VarInt => Integer(IntegerType.VarInt)
    case VarLong => Integer(IntegerType.VarLong)
    case F32 => Float(FloatType.F32)
    case F64 => Float(FloatType.F64)
    case Boolean => Primitive(PrimitiveType.Boolean)
    case Uuid => Primitive(PrimitiveType.Uuid)
    case String(n) => Primitive(PrimitiveType.String(n))
    case Nbt => Primitive(PrimitiveType.Nbt)
    case Array(length, fieldType) => Primitive(PrimitiveType.Array(length, fieldType))
    case Option(inner) => Primitive(PrimitiveType.Option(inner))
    case Shared(name) => Primitive(PrimitiveType.Shared(name))
    case Enum(name, variant, variants) => Custom(CustomType.Enum(name, variant, variants))
    case Struct(name, fields) => Custom(CustomType.Struct(name, fields))
    case BitField(name, fields) => Custom(CustomType.BitField(name, fields))
    case BitFlags(name, fieldType, flags) => Custom(CustomType.BitFlags(name, fieldType, flags))
    case Unit(name) => Custom(CustomType.Unit(name))
  }

  /** The flat tag that deserialises to `t`: the inverse of `Deserialize`. */
  function TagOf(t: FieldType): (tag: FieldTag)
    ensures tag.IsInteger() <==> t.Integer?
    ensures tag.IsFloat() <==> t.Float?
    ensures tag.IsCustom() <==> t.Custom?
    ensures t.Custom? ==> tag.name == Name(t.customType)
  {
    match t
    case Integer(k) =>
      (match k
      case U8 => FieldTag.U8
      case I8 => FieldTag.I8
      case U16 => FieldTag.U16
      case I16 => FieldTag.I16
      case U32 => FieldTag.U32
      case I32 => FieldTag.I32
      case U64 => FieldTag.U64
      case I64 => FieldTag.I64
      case VarInt => FieldTag.VarInt
      case VarLong => FieldTag.VarLong)
    case Float(f) => if f == FloatType.F32 then FieldTag.F32 else FieldTag.F64
    case Primitive(p) =>
      (match p
      case Boolean => FieldTag.Boolean
      case Uuid => FieldTag.Uuid
      case String(n) => FieldTag.String(n)
      case Nbt => FieldTag.Nbt
      case Array(length, fieldType) => FieldTag.Array(length, fieldType)
      case Option(inner) => FieldTag.Option(inner)
      case Shared(name) => FieldTag.Shared(name))
    case Custom(c) =>
      (match c
      case Enum(name, variant, variants) => FieldTag.Enum(name, variant, variants)
      case Struct(name, fields) => FieldTag.Struct(name, fields)
      case BitField(name, fields) => FieldTag.BitField(name, fields)
      case BitFlags(name, fieldType, flags) => FieldTag.BitFlags(name, fieldType, flags)
      case Unit(name) => FieldTag.Unit(name))
  }

  /**
   * `Deserialize` is a bijection between flat tags and field types: every
   * tag maps to a different value, payloads unchanged, and every field type
   * is reached.
   */
  lemma DeserializeBijective(tag: FieldTag, t: FieldType)
    ensures TagOf(Deserialize(tag)) == tag
    ensures Deserialize(TagOf(t)) == t
  {
    DeserializeInjective(tag);
    DeserializeOnto(t);
  }

  lemma DeserializeInjective(tag: FieldTag)
    ensures TagOf(Deserialize(tag)) == tag
  {
  }

  lemma DeserializeOnto(t: FieldType)
    ensures Deserialize(TagOf(t)) == t
  {
  }

  /** The integer tags map to the integer kind of the same name, and the float tags to the float kinds. */
  lemma DeserializeNumbers()
    ensures Deserialize(FieldTag.U8) == Integer(IntegerType.U8) && Deserialize(FieldTag.I8) == Integer(IntegerType.I8)
    ensures Deserialize(FieldTag.U16) == Integer(IntegerType.U16) && Deserialize(FieldTag.I16) == Integer(IntegerType.I16)
    ensures Deserialize(FieldTag.U32) == Integer(IntegerType.U32) && Deserialize(FieldTag.I32) == Integer(IntegerType.I32)
    ensures Deserialize(FieldTag.U64) == Integer(IntegerType.U64) && Deserialize(FieldTag.I64) == Integer(IntegerType.I64)
    ensures Deserialize(FieldTag.VarInt) == Integer(IntegerType.VarInt)
    ensures Deserialize(FieldTag.VarLong) == Integer(IntegerType.VarLong)
    ensures Deserialize(FieldTag.F32) == Float(FloatType.F32) && Deserialize(FieldTag.F64) == Float(FloatType.F64)
  {
  }

  /** Each primitive and custom tag maps to its own variant, keeping its payload. */
  lemma DeserializePayloads(tag: FieldTag)
    ensures tag.String? ==> Deserialize(tag) == Primitive(PrimitiveType.String(tag.maxLength))
    ensures tag.Array? ==> Deserialize(tag) == Primitive(PrimitiveType.Array(tag.length, tag.fieldType))
    ensures tag.Option? ==> Deserialize(tag) == Primitive(PrimitiveType.Option(tag.inner))
    ensures tag.Shared? ==> Deserialize(tag) == Primitive(PrimitiveType.Shared(tag.sharedName))
    ensures tag.Enum? ==> Deserialize(tag) == Custom(CustomType.Enum(tag.name, tag.variant, tag.variants))
    ensures tag.Struct? ==> Deserialize(tag) == Custom(CustomType.Struct(tag.name, tag.fields))
    ensures tag.BitFlags? ==> Deserialize(tag) == Custom(CustomType.BitFlags(tag.name, tag.flagsType, tag.flags))
    ensures tag.BitField? ==> Deserialize(tag) == Custom(CustomType.BitField(tag.name, tag.bitFields))
    ensures tag.Unit? ==> Deserialize(tag) == Custom(CustomType.Unit(tag.name))
    ensures tag.Boolean? ==> Deserialize(tag) == Primitive(PrimitiveType.Boolean)
    ensures tag.Uuid? ==> Deserialize(tag) == Primitive(PrimitiveType.Uuid)
    ensures tag.Nbt? ==> Deserialize(tag) == Primitive(PrimitiveType.Nbt)
  {
  }

  // ---------------------------------------------------------------------------
  // Literals
  // ---------------------------------------------------------------------------

  /** `Literal`, the key type of an enum's variants. */
  datatype Literal = String(text: string) | Boolean(flag: bool) | Int(value: i64) {
    function Rank(): nat {
      match this
      case String(_) => 0
      case Boolean(_) => 1
      case Int(_) => 2
    }
  }

  /** `str`'s `Ord`: lexicographic, a proper prefix first. */
  predicate StringLess(a: string, b: string)
    ensures StringLess(a, b) ==> a != b
    decreases |a|
  {
    |b| > 0 && (|a| == 0 || a[0] < b[0] || (a[0] == b[0] && StringLess(a[1..], b[1..])))
  }

  /** The derived `Ord` of `Literal`: by variant (String, Boolean, Int), then by value. */
  predicate LiteralLess(a: Literal, b: Literal)
    ensures LiteralLess(a, b) ==> a != b
  {
    a.Rank() < b.Rank()
    || (a.String? && b.String? && StringLess(a.text, b.text))
    || (a.Boolean? && b.Boolean? && !a.flag && b.flag)
    || (a.Int? && b.Int? && a.value < b.value)
  }

  lemma {:induction false} StringLessIrreflexive(a: string)
    ensures !StringLess(a, a)
    decreases |a|
  {
    if |a| > 0 {
      StringLessIrreflexive(a[1..]);
    }
  }

  lemma {:induction false} StringLessTransitive(a: string, b: string, c: string)
    requires StringLess(a, b) && StringLess(b, c)
    ensures StringLess(a, c)
    decreases |a|
  {
    if |a| > 0 && a[0] == b[0] && b[0] == c[0] {
      StringLessTransitive(a[1..], b[1..], c[1..]);
    }
  }

  lemma {:induction false} StringLessTotal(a: string, b: string)
    ensures a == b || StringLess(a, b) || StringLess(b, a)
    decreases |a|
  {
    if |a| > 0 && |b| > 0 && a[0] == b[0] {
      StringLessTotal(a[1..], b[1..]);
      if a[1..] == b[1..] {
        assert a == [a[0]] + a[1..] && b == [b[0]] + b[1..];
      }
    }
  }

  /** `Literal`'s order is a strict total order, so an enum's variants have one well-defined sequence. */
  lemma LiteralOrderTotal(a: Literal, b: Literal, c: Literal)
    ensures !LiteralLess(a, a)
    ensures LiteralLess(a, b) && LiteralLess(b, c) ==> LiteralLess(a, c)
    ensures a == b || LiteralLess(a, b) || LiteralLess(b, a)
  {
    if a.String? {
      StringLessIrreflexive(a.text);
      if b.String? {
        StringLessTotal(a.text, b.text);
        if c.String? && StringLess(a.text, b.text) && StringLess(b.text, c.text) {
          StringLessTransitive(a.text, b.text, c.text);
        }
      }
    }
  }

  /** Every string sorts before every boolean, and every boolean before every integer. */
  lemma LiteralVariantsInOrder(s: string, f: bool, n: i64)
    ensures LiteralLess(Literal.String(s), Literal.Boolean(f))
    ensures LiteralLess(Literal.Boolean(f), Literal.Int(n))
  {
  }

  // ---------------------------------------------------------------------------
  // The protocol record
  // ---------------------------------------------------------------------------

  /** `Protocol`: the version, the packet map and the shared types. */
  datatype Protocol = Protocol(version: ProtocolVersion, packets: seq<(PacketIdentifier, CustomType)>, sharedTypes: seq<CustomType>)
}
