/**
 * The code generator of `codegen/src/generation.rs`. From an ordered packet
 * map it emits one Rust module per direction and, inside it, one module per
 * stage: an enum over the stage's packets with a `decode` that dispatches on
 * the packet id, and one module per packet holding the packet's own type.
 *
 * The generator is written against its own schema shape (a `Type` with a
 * `Key` case, `Packet { name, custom_type }`, enum variants keyed by a
 * `VariantKey` whose second part is the variant's name); that shape is
 * declared here, apart from the one in module Schema. The emitted token
 * streams are modelled as the items and identifiers they declare. Case
 * conversion (`heck`) is foreign code and is a parameter, `Casing`.
 */
module Generation {
  import Schema
  import Wire
  import Runtime = Packet

  // ---------------------------------------------------------------------------
  // The generator's schema shape
  // ---------------------------------------------------------------------------

  /** A field type. `Custom` is `Type::CustomType(name, custom_type)`. */
  datatype Type =
    | Boolean | U8 | I8 | U16 | I16 | U32 | I32 | U64 | I64 | F32 | F64 | VarInt | VarLong | Uuid
    | String(maxLength: Schema.u16)
    | Nbt
    | Array(kind: Type)
    | Option(inner: Type)
    | Custom(typeName: string, customType: CustomType)
    | Constant(constant: string)
    | Key(key: string)
    | Shared(sharedName: string)

  /** The key of an enum variant; the generator reads only its second part, the variant's name. */
  datatype VariantKey = VariantKey(discriminant: string, name: string)

  /** A user-defined type. Struct fields keep their declared order; enum variants and flags are in key order. */
  datatype CustomType =
    | Struct(fields: seq<(string, Type)>)
    | Enum(variant: string, variants: seq<(VariantKey, CustomType)>)
    | Unit
    | BitField(bits: seq<string>)
    | BitFlags(kind: Type, flags: seq<(nat, string)>)

  datatype Packet = Packet(name: string, customType: CustomType)

  /** The packets of a protocol in identifier order, and its shared types. */
  datatype Protocol = Protocol(packets: seq<(Schema.PacketIdentifier, Packet)>, sharedTypes: seq<(string, CustomType)>)

  /** `heck`'s `to_camel_case` and `to_snake_case`, and `str::to_uppercase` of the standard library. */
  datatype Casing = Casing(camel: string -> string, snake: string -> string, upper: string -> string)

  // ---------------------------------------------------------------------------
  // What the generator emits
  // ---------------------------------------------------------------------------

  /** The type tokens of a field: a path, `Vec<_>`, `Option<_>`, or nothing. */
  datatype TypeRef = Path(path: string) | VecOf(element: TypeRef) | OptionOf(element: TypeRef) | NoType

  /** An enum variant: `Name` or `Name(Payload)`. */
  datatype Variant = UnitVariant(ident: string) | Wrapper(ident: string, payload: string)

  /** A declared item: `pub struct`, `pub enum`, a unit struct, or a `bitflags!` struct. */
  datatype Item =
    | StructItem(ident: string, fields: seq<(string, TypeRef)>)
    | EnumItem(ident: string, variants: seq<Variant>)
    | UnitStruct(ident: string)
    | BitflagsItem(ident: string, kind: TypeRef, flags: seq<(string, nat)>)

  /** What `CustomTypeGenerator::generate` returns: the items, and the ident of the type. */
  datatype Generated = Generated(items: seq<Item>, ident: string)

  /** What `TypeGenerator::generate` returns: the items of nested custom types, and the field's type tokens. */
  datatype TypeTokens = TypeTokens(items: seq<Item>, ref: TypeRef)

  function Flatten(xs: seq<seq<Item>>): (r: seq<Item>)
    ensures |xs| == 0 ==> r == []
  {
    if |xs| == 0 then [] else xs[0] + Flatten(xs[1..])
  }

  /** Flattening keeps each part, in order. */
  lemma {:induction false} FlattenAppend(xs: seq<seq<Item>>, ys: seq<seq<Item>>)
    ensures Flatten(xs + ys) == Flatten(xs) + Flatten(ys)
  {
    if |xs| > 0 {
      assert (xs + ys)[1..] == xs[1..] + ys;
      FlattenAppend(xs[1..], ys);
    } else {
      assert xs + ys == ys;
    }
  }

  // ---------------------------------------------------------------------------
  // Struct fields
  // ---------------------------------------------------------------------------

  /** The `filter` of `generate_struct`: the fields that are not `Key`s, in their order. */
  function KeptFields(fields: seq<(string, Type)>): (r: seq<(string, Type)>)
    ensures |r| <= |fields|
    ensures forall x :: x in r ==> x in fields && !x.1.Key?
  {
    if |fields| == 0 then []
    else if fields[0].1.Key? then KeptFields(fields[1..])
    else [fields[0]] + KeptFields(fields[1..])
  }

  /** The number of `Key` fields. */
  function KeyCount(fields: seq<(string, Type)>): nat {
    if |fields| == 0 then 0 else (if fields[0].1.Key? then 1 else 0) + KeyCount(fields[1..])
  }

  /** A field is kept if and only if it is not a `Key`. */
  lemma {:induction false} KeptFieldsMembers(fields: seq<(string, Type)>)
    ensures forall x :: x in KeptFields(fields) <==> x in fields && !x.1.Key?
  {
    if |fields| > 0 {
      KeptFieldsMembers(fields[1..]);
      assert fields == [fields[0]] + fields[1..];
    }
  }

  /** One field is dropped for each `Key`. */
  lemma {:induction false} KeptFieldsCount(fields: seq<(string, Type)>)
    ensures |KeptFields(fields)| == |fields| - KeyCount(fields)
  {
    if |fields| > 0 {
      KeptFieldsCount(fields[1..]);
    }
  }

  /** The filter distributes over concatenation, so the kept fields keep their relative order. */
  lemma {:induction false} KeptFieldsAppend(fields: seq<(string, Type)>, more: seq<(string, Type)>)
    ensures KeptFields(fields + more) == KeptFields(fields) + KeptFields(more)
  {
    if |fields| > 0 {
      KeptFieldsAppend(fields[1..], more);
      assert (fields + more)[1..] == fields[1..] + more;
    } else {
      assert fields + more == more;
    }
  }

  /** A struct with no `Key` field keeps all its fields, in order. */
  lemma {:induction false} NoKeysKeptWhole(fields: seq<(string, Type)>)
    requires forall i :: 0 <= i < |fields| ==> !fields[i].1.Key?
    ensures KeptFields(fields) == fields
  {
    if |fields| > 0 {
      assert !fields[0].1.Key?;
      NoKeysKeptWhole(fields[1..]);
    }
  }

  /** The renaming of snake-cased field names that are Rust keywords. */
  function Rename(name: string): (r: string)
    ensures r != "type" && r != "match"
    ensures name == "type" ==> r == "kind"
    ensures name == "match" ==> r == "match_"
    ensures name != "type" && name != "match" ==> r == name
  {
    if name == "type" then "kind" else if name == "match" then "match_" else name
  }

  // ---------------------------------------------------------------------------
  // The type generators
  // ---------------------------------------------------------------------------

  /**
   * `TypeGenerator::generate`. A custom type is named by its camel-cased
   * name; `Constant` and `Key` give no tokens at all; only a type that holds
   * a custom type declares items.
   */
  function TypeGen(c: Casing, ty: Type): (r: TypeTokens)
    ensures r.ref.NoType? <==> ty.Constant? || ty.Key?
    ensures ty.Custom? ==> r.ref == Path(c.camel(ty.typeName))
    ensures ty.Array? ==> r.ref.VecOf? && r.ref.element == TypeGen(c, ty.kind).ref && r.items == TypeGen(c, ty.kind).items
    ensures ty.Option? ==> r.ref.OptionOf? && r.ref.element == TypeGen(c, ty.inner).ref && r.items == TypeGen(c, ty.inner).items
    ensures !ty.Custom? && !ty.Array? && !ty.Option? ==> r.items == []
    decreases ty, 0
  {
    match ty
    case Boolean => TypeTokens([], Path("bool"))
    case U8 => TypeTokens([], Path("u8"))
    case I8 => TypeTokens([], Path("i8"))
    case U16 => TypeTokens([], Path("u16"))
    case I16 => TypeTokens([], Path("i16"))
    case U32 => TypeTokens([], Path("u32"))
    case I32 => TypeTokens([], Path("i32"))
    case U64 => TypeTokens([], Path("u64"))
    case I64 => TypeTokens([], Path("i64"))
    case F32 => TypeTokens([], Path("f32"))
    case F64 => TypeTokens([], Path("f64"))
    case VarInt => TypeTokens([], Path("crate::types::VarInt"))
    case VarLong => TypeTokens([], Path("crate::types::VarLong"))
    case Uuid => TypeTokens([], Path("uuid::Uuid"))
    case String(_) => TypeTokens([], Path("String"))
    case Nbt => TypeTokens([], Path("()"))
    case Array(kind) =>
      var t := TypeGen(c, kind);
      TypeTokens(t.items, VecOf(t.ref))
    case Option(inner) =>
      var t := TypeGen(c, inner);
      TypeTokens(t.items, OptionOf(t.ref))
    case Custom(name, customType) =>
      var g := CustomGen(c, name, customType);
      TypeTokens(g.items, Path(g.ident))
    case Constant(_) => TypeTokens([], NoType)
    case Key(_) => TypeTokens([], NoType)
    case Shared(_) => TypeTokens([], Path("()"))
  }

  /**
   * `CustomTypeGenerator::generate`. The returned ident is the camel-cased
   * name, and it names the first item emitted, which is of the kind the
   * custom type asks for; a `BitField` emits nothing.
   */
  function CustomGen(c: Casing, name: string, ct: CustomType): (r: Generated)
    ensures r.ident == c.camel(name)
    ensures r.items == [] <==> ct.BitField?
    ensures r.items != [] ==> r.items[0].ident == r.ident
    ensures ct.Struct? ==> r.items[0].StructItem?
    ensures ct.Enum? ==> r.items[0].EnumItem?
    ensures ct.Unit? ==> r.items == [UnitStruct(r.ident)]
    ensures ct.BitFlags? ==> r.items[0].BitflagsItem?
    decreases ct, 2
  {
    match ct
    case Struct(_) => StructGen(c, name, ct)
    case Enum(_, _) => EnumGen(c, name, ct)
    case Unit => Generated([UnitStruct(c.camel(name))], c.camel(name))
    case BitField(_) => Generated([], c.camel(name))
    case BitFlags(_, _) => BitflagsGen(c, name, ct)
  }

  /** The emitted field list of a struct: the kept fields, renamed, with their type tokens. */
  function FieldList(c: Casing, ct: CustomType): (r: seq<(string, TypeRef)>)
    requires ct.Struct?
    ensures |r| == |KeptFields(ct.fields)|
    decreases ct, 0
  {
    var kept := KeptFields(ct.fields);
    seq(|kept|, i requires 0 <= i < |kept| => (Rename(c.snake(kept[i].0)), TypeGen(c, kept[i].1).ref))
  }

  /** `generate_struct`: the struct, then the items of its kept fields' types, in field order. */
  function StructGen(c: Casing, name: string, ct: CustomType): (r: Generated)
    requires ct.Struct?
    ensures r.ident == c.camel(name)
    ensures |r.items| >= 1 && r.items[0] == StructItem(r.ident, FieldList(c, ct))
    decreases ct, 1
  {
    var kept := KeptFields(ct.fields);
    var nested := seq(|kept|, i requires 0 <= i < |kept| => TypeGen(c, kept[i].1).items);
    Generated([StructItem(c.camel(name), FieldList(c, ct))] + Flatten(nested), c.camel(name))
  }

  /** One variant of `generate_enum`: its shape, and the items its payload type declares. */
  function VariantGen(c: Casing, key: VariantKey, ty: CustomType): (r: (seq<Item>, Variant))
    ensures r.1.ident == c.camel(key.name)
    ensures r.1.UnitVariant? <==> ty.Unit?
    ensures r.1.Wrapper? ==> r.1.payload == c.camel(key.name)
    ensures ty.Unit? ==> r.0 == []
    decreases ty, 3
  {
    if ty.Unit? then ([], UnitVariant(c.camel(key.name)))
    else
      var g := CustomGen(c, key.name, ty);
      (g.items, Wrapper(c.camel(key.name), g.ident))
  }

  /** `generate_enum`: the enum, then the items of the variants' payload types, in variant order. */
  function EnumGen(c: Casing, name: string, ct: CustomType): (r: Generated)
    requires ct.Enum?
    ensures r.ident == c.camel(name)
    ensures |r.items| >= 1 && r.items[0].EnumItem? && r.items[0].ident == r.ident
    ensures |r.items[0].variants| == |ct.variants|
    ensures forall i :: 0 <= i < |ct.variants| ==> r.items[0].variants[i] == VariantGen(c, ct.variants[i].0, ct.variants[i].1).1
    decreases ct, 1
  {
    var vs := ct.variants;
    var shaped := seq(|vs|, i requires 0 <= i < |vs| => VariantGen(c, vs[i].0, vs[i].1));
    var idents := seq(|vs|, i requires 0 <= i < |vs| => shaped[i].1);
    var nested := seq(|vs|, i requires 0 <= i < |vs| => shaped[i].0);
    Generated([EnumItem(c.camel(name), idents)] + Flatten(nested), c.camel(name))
  }

  /** `generate_bitflags`: one `bitflags!` struct; the items of the kind's type are dropped. */
  function BitflagsGen(c: Casing, name: string, ct: CustomType): (r: Generated)
    requires ct.BitFlags?
    ensures r.ident == c.camel(name)
    ensures |r.items| == 1 && r.items[0].BitflagsItem? && r.items[0].ident == r.ident
    ensures r.items[0].kind == TypeGen(c, ct.kind).ref
    ensures |r.items[0].flags| == |ct.flags|
    ensures forall i :: 0 <= i < |ct.flags| ==> r.items[0].flags[i] == (c.upper(ct.flags[i].1), ct.flags[i].0)
    decreases ct, 1
  {
    var fs := ct.flags;
    var flags := seq(|fs|, i requires 0 <= i < |fs| => (c.upper(fs[i].1), fs[i].0));
    Generated([BitflagsItem(c.camel(name), TypeGen(c, ct.kind).ref, flags)], c.camel(name))
  }

  /**
   * The struct a `Struct` generates: one field per non-`Key` field, in order,
   * named by the renamed snake-cased name and typed by that field's type
   * tokens; no field comes out named `type` or `match`.
   */
  lemma StructFieldsEmitted(c: Casing, name: string, fields: seq<(string, Type)>)
    ensures CustomGen(c, name, Struct(fields)).items[0].StructItem?
    ensures |CustomGen(c, name, Struct(fields)).items[0].fields| == |fields| - KeyCount(fields)
    ensures forall i :: 0 <= i < |CustomGen(c, name, Struct(fields)).items[0].fields| ==>
      && CustomGen(c, name, Struct(fields)).items[0].fields[i].0 != "type"
      && CustomGen(c, name, Struct(fields)).items[0].fields[i].0 != "match"
      && CustomGen(c, name, Struct(fields)).items[0].fields[i]
        == (Rename(c.snake(KeptFields(fields)[i].0)), TypeGen(c, KeptFields(fields)[i].1).ref)
  {
    KeptFieldsCount(fields);
  }

  /**
   * The enum an `Enum` generates: one variant per schema variant, in key
   * order, named by the camel-cased variant name; `Unit` variants carry no
   * payload and every other variant wraps the type generated under the
   * variant's own name.
   */
  lemma EnumVariantsEmitted(c: Casing, name: string, variant: string, variants: seq<(VariantKey, CustomType)>)
    ensures CustomGen(c, name, Enum(variant, variants)).items[0].EnumItem?
    ensures |CustomGen(c, name, Enum(variant, variants)).items[0].variants| == |variants|
    ensures forall i :: 0 <= i < |variants| ==>
      && CustomGen(c, name, Enum(variant, variants)).items[0].variants[i].ident == c.camel(variants[i].0.name)
      && (CustomGen(c, name, Enum(variant, variants)).items[0].variants[i].UnitVariant? <==> variants[i].1.Unit?)
      && (!variants[i].1.Unit? ==>
          CustomGen(c, name, Enum(variant, variants)).items[0].variants[i]
            == Wrapper(c.camel(variants[i].0.name), CustomGen(c, variants[i].0.name, variants[i].1).ident))
  {
  }

  // ---------------------------------------------------------------------------
  // Identifiers
  // ---------------------------------------------------------------------------

  /** A name `Ident::new` accepts without panicking, in snake case: a lower-case letter, then lower-case letters and underscores. */
  predicate IsSnakeIdent(s: string) {
    |s| > 0 && 'a' <= s[0] <= 'z' && forall i :: 0 <= i < |s| ==> 'a' <= s[i] <= 'z' || s[i] == '_'
  }

  /** `DirectionGenerator::ident`: the direction's name followed by `_bound`. */
  function DirectionIdent(d: Schema.PacketDirection): (r: string)
    ensures IsSnakeIdent(r)
    ensures |r| == 12 && r[6..] == "_bound"
  {
    match d
    case Client => "client_bound"
    case Server => "server_bound"
  }

  /** `StageGenerator::ident`: the stage's name in lower case. */
  function StageIdent(s: Schema.PacketStage): (r: string)
    ensures IsSnakeIdent(r) && '_' !in r
  {
    match s
    case Handshaking => "handshaking"
    case Status => "status"
    case Login => "login"
    case Play => "play"
  }

  /** The emitted module names never collide: directions differ from each other, stages from each other, and no direction shares a name with a stage. */
  lemma IdentsDistinct(d: Schema.PacketDirection, e: Schema.PacketDirection, s: Schema.PacketStage, t: Schema.PacketStage)
    ensures DirectionIdent(d) == DirectionIdent(e) <==> d == e
    ensures StageIdent(s) == StageIdent(t) <==> s == t
    ensures DirectionIdent(d) != StageIdent(s)
  {
    assert "client_bound"[0] != "server_bound"[0];
    assert "handshaking"[0] != "status"[0] && "handshaking"[0] != "login"[0] && "handshaking"[0] != "play"[0];
    assert "status"[0] != "login"[0] && "status"[0] != "play"[0] && "login"[0] != "play"[0];
    assert |DirectionIdent(d)| == 12 && |StageIdent(s)| < 12;
  }

  /** The `crate::Direction` tokens the emitted code names. */
  function RuntimeDirection(d: Schema.PacketDirection): (r: Runtime.Direction)
    ensures r.Client? <==> d.Client?
  {
    match d
    case Client => Runtime.Client
    case Server => Runtime.Server
  }

  /** The `crate::Stage` tokens the emitted code names. */
  function RuntimeStage(s: Schema.PacketStage): (r: Runtime.Stage)
    ensures r.Handshaking? <==> s.Handshaking?
    ensures r.Status? <==> s.Status?
    ensures r.Login? <==> s.Login?
    ensures r.Play? <==> s.Play?
  {
    match s
    case Handshaking => Runtime.Handshaking
    case Status => Runtime.Status
    case Login => Runtime.Login
    case Play => Runtime.Play
  }

  // ---------------------------------------------------------------------------
  // Packet and stage modules
  // ---------------------------------------------------------------------------

  /**
   * The module `PacketGenerator::generate` emits: its ident, the ident of the
   * packet type, the type's items, and the constants and tokens of its
   * `crate::Packet` impl.
   */
  datatype PacketModule = PacketModule(
    ident: string, typeIdent: string, items: seq<Item>,
    id: nat, name: string, direction: Runtime.Direction, stage: Runtime.Stage)

  /**
   * `PacketGenerator::generate`: the module is the snake-cased name, the
   * packet type is generated under the camel-cased name (so its ident is
   * camel-cased twice), and the impl carries the identifier's id, direction
   * and stage.
   */
  function PacketGen(c: Casing, identifier: Schema.PacketIdentifier, packet: Packet): (r: PacketModule)
    ensures r.ident == c.snake(packet.name)
    ensures r.typeIdent == c.camel(c.camel(packet.name))
    ensures r.items == CustomGen(c, c.camel(packet.name), packet.customType).items
    ensures r.id == identifier.id.inner && r.name == packet.name
    ensures r.direction == RuntimeDirection(identifier.direction) && r.stage == RuntimeStage(identifier.stage)
  {
    var g := CustomGen(c, c.camel(packet.name), packet.customType);
    PacketModule(c.snake(packet.name), g.ident, g.items, identifier.id.inner, packet.name,
      RuntimeDirection(identifier.direction), RuntimeStage(identifier.stage))
  }

  /**
   * The module `StageGenerator::generate` emits: its ident, the direction and
   * stage its impl reports, the variants `name(type)` of its `Packet` enum,
   * the ids its `decode` matches, and the packet modules, one per entry.
   */
  datatype StageModule = StageModule(
    ident: string, direction: Runtime.Direction, stage: Runtime.Stage,
    variants: seq<Variant>, ids: seq<nat>, packets: seq<PacketModule>)

  /**
   * `StageGenerator::generate` over the entries it is given: entry `i` becomes
   * variant `i`, dispatch arm `i` and packet module `i`, whatever stage or
   * direction the entry itself has.
   */
  function StageGen(c: Casing, d: Schema.PacketDirection, s: Schema.PacketStage, entries: seq<(Schema.PacketIdentifier, Packet)>): (r: StageModule)
    ensures r.ident == StageIdent(s) && r.direction == RuntimeDirection(d) && r.stage == RuntimeStage(s)
    ensures |r.variants| == |r.ids| == |r.packets| == |entries|
    ensures forall i :: 0 <= i < |entries| ==>
      && r.packets[i] == PacketGen(c, entries[i].0, entries[i].1)
      && r.ids[i] == entries[i].0.id.inner
      && r.variants[i] == Wrapper(c.camel(entries[i].1.name), r.packets[i].typeIdent)
  {
    var packets := seq(|entries|, i requires 0 <= i < |entries| => PacketGen(c, entries[i].0, entries[i].1));
    var variants := seq(|entries|, i requires 0 <= i < |entries| => Wrapper(c.camel(entries[i].1.name), packets[i].typeIdent));
    var ids := seq(|entries|, i requires 0 <= i < |entries| => entries[i].0.id.inner);
    StageModule(StageIdent(s), RuntimeDirection(d), RuntimeStage(s), variants, ids, packets)
  }

  /** A direction module: its ident and its four stage modules, in the order they are emitted. */
  datatype DirectionModule = DirectionModule(
    ident: string, handshaking: StageModule, status: StageModule, login: StageModule, play: StageModule)

  /** The output of `ProtocolGenerator::generate`: the two direction modules in emission order, and the shared types' items. */
  datatype ProtocolModule = ProtocolModule(serverBound: DirectionModule, clientBound: DirectionModule, shared: seq<Item>)

  // ---------------------------------------------------------------------------
  // Grouping by split_off
  // ---------------------------------------------------------------------------

  type Entries = seq<(Schema.PacketIdentifier, Packet)>

  /** `PacketIdentifier(direction, stage, 0)`, the key every `split_off` is called with. */
  function StageStart(d: Schema.PacketDirection, s: Schema.PacketStage): Schema.PacketIdentifier {
    Schema.PacketIdentifier(d, s, Schema.From(0))
  }

  /** Where `split_off(key)` cuts an ordered map: the number of leading entries below `key`. */
  function SplitPoint(entries: Entries, key: Schema.PacketIdentifier): (k: nat)
    ensures k <= |entries|
    ensures forall i :: 0 <= i < k ==> Schema.IdentifierLess(entries[i].0, key)
    ensures k < |entries| ==> !Schema.IdentifierLess(entries[k].0, key)
  {
    if |entries| == 0 || !Schema.IdentifierLess(entries[0].0, key) then 0
    else 1 + SplitPoint(entries[1..], key)
  }

  /**
   * In an ordered map the cut is exact: the part kept holds exactly the
   * entries below `key`, and the part split off exactly those at or above it.
   */
  lemma SplitExact(entries: Entries, key: Schema.PacketIdentifier, e: (Schema.PacketIdentifier, Packet))
    requires Schema.Ascending(entries)
    ensures e in entries[..SplitPoint(entries, key)] <==> e in entries && Schema.IdentifierLess(e.0, key)
    ensures e in entries[SplitPoint(entries, key)..] <==> e in entries && !Schema.IdentifierLess(e.0, key)
  {
    var k := SplitPoint(entries, key);
    assert entries == entries[..k] + entries[k..];
    if e in entries[k..] {
      var j :| k <= j < |entries| && entries[j] == e;
      if j > k {
        assert Schema.IdentifierLess(entries[k].0, entries[j].0);
        Schema.IdentifierOrderTotal(entries[k].0, entries[j].0, key);
        Schema.IdentifierOrderTotal(key, entries[k].0, entries[j].0);
      }
    }
  }

  /** The part of an ordered map below `key` is ordered too. */
  lemma PrefixAscending(entries: Entries, k: nat)
    requires Schema.Ascending(entries) && k <= |entries|
    ensures Schema.Ascending(entries[..k]) && Schema.Ascending(entries[k..])
  {
    assert forall i :: 0 <= i < k ==> entries[..k][i] == entries[i];
    assert forall i :: 0 <= i < |entries| - k ==> entries[k..][i] == entries[k + i];
  }

  /** A `BTreeMap<PacketIdentifier, Packet>` that `split_off` mutates. */
  class PacketMap {
    var entries: Entries

    /** A `BTreeMap` holds its entries in ascending key order. */
    ghost predicate Valid()
      reads this
    {
      Schema.Ascending(entries)
    }

    constructor (entries: Entries)
      requires Schema.Ascending(entries)
      ensures Valid()
      ensures this.entries == entries
    {
      this.entries := entries;
    }

    /** `split_off(key)`: returns the entries at or above `key` and keeps those below; both parts stay ordered maps. */
    method SplitOff(key: Schema.PacketIdentifier) returns (tail: Entries)
      requires Valid()
      modifies this
      ensures Valid() && Schema.Ascending(tail)
      ensures entries == old(entries)[..SplitPoint(old(entries), key)]
      ensures tail == old(entries)[SplitPoint(old(entries), key)..]
    {
      var k := SplitPoint(entries, key);
      PrefixAscending(entries, k);
      tail := entries[k..];
      entries := entries[..k];
    }
  }

  /** The groups `DirectionGenerator::generate` cuts a map into, and what is left below the Handshaking start. */
  datatype Groups = Groups(below: Entries, handshaking: Entries, status: Entries, login: Entries, play: Entries)

  /** The two parts `split_off(key)` leaves: the entries kept and the entries split off. */
  function Cut(entries: Entries, key: Schema.PacketIdentifier): (r: (Entries, Entries))
    ensures r.0 == entries[..SplitPoint(entries, key)] && r.1 == entries[SplitPoint(entries, key)..]
    ensures entries == r.0 + r.1
  {
    var k := SplitPoint(entries, key);
    (entries[..k], entries[k..])
  }

  /** The four successive cuts at the Play, Login, Status and Handshaking starts of direction `d`. */
  function Partition(entries: Entries, d: Schema.PacketDirection): (g: Groups)
    ensures entries == g.below + g.handshaking + g.status + g.login + g.play
  {
    var cut3 := Cut(entries, StageStart(d, Schema.Play));
    var cut2 := Cut(cut3.0, StageStart(d, Schema.Login));
    var cut1 := Cut(cut2.0, StageStart(d, Schema.Status));
    var cut0 := Cut(cut1.0, StageStart(d, Schema.Handshaking));
    Groups(cut0.0, cut0.1, cut1.1, cut2.1, cut3.1)
  }

  /** The direction module built from a partition; the Status generator is given the Login group and the Login generator the Status group. */
  function DirectionSpec(c: Casing, d: Schema.PacketDirection, entries: Entries): (m: DirectionModule)
    ensures m.ident == DirectionIdent(d)
    ensures m.status == StageGen(c, d, Schema.Status, Partition(entries, d).login)
    ensures m.login == StageGen(c, d, Schema.Login, Partition(entries, d).status)
  {
    var g := Partition(entries, d);
    DirectionModule(DirectionIdent(d),
      StageGen(c, d, Schema.Handshaking, g.handshaking),
      StageGen(c, d, Schema.Status, g.login),
      StageGen(c, d, Schema.Login, g.status),
      StageGen(c, d, Schema.Play, g.play))
  }

  /**
   * `DirectionGenerator::generate`: four `split_off`s from the top stage
   * down, then the four stage generators. What is left in the map (the
   * entries below this direction's Handshaking start) is dropped.
   */
  method GenerateDirection(c: Casing, d: Schema.PacketDirection, packets: PacketMap) returns (m: DirectionModule)
    requires packets.Valid()
    modifies packets
    ensures packets.Valid()
    ensures m == DirectionSpec(c, d, old(packets.entries))
    ensures packets.entries == Partition(old(packets.entries), d).below
  {
    var play := packets.SplitOff(StageStart(d, Schema.Play));
    var login := packets.SplitOff(StageStart(d, Schema.Login));
    var status := packets.SplitOff(StageStart(d, Schema.Status));
    var handshaking := packets.SplitOff(StageStart(d, Schema.Handshaking));
    m := DirectionModule(DirectionIdent(d),
      StageGen(c, d, Schema.Handshaking, handshaking),
      StageGen(c, d, Schema.Status, login),
      StageGen(c, d, Schema.Login, status),
      StageGen(c, d, Schema.Play, play));
  }

  /** Within one direction, the cut at a stage's start keeps the earlier stages and splits off that stage and the later ones. */
  lemma StageCut(entries: Entries, d: Schema.PacketDirection, s: Schema.PacketStage, e: (Schema.PacketIdentifier, Packet))
    requires Schema.Ascending(entries)
    requires forall x :: x in entries ==> x.0.direction == d
    ensures e in entries[..SplitPoint(entries, StageStart(d, s))] <==> e in entries && e.0.stage.Rank() < s.Rank()
    ensures e in entries[SplitPoint(entries, StageStart(d, s))..] <==> e in entries && e.0.stage.Rank() >= s.Rank()
    ensures Schema.Ascending(entries[..SplitPoint(entries, StageStart(d, s))])
    ensures forall x :: x in entries[..SplitPoint(entries, StageStart(d, s))] ==> x.0.direction == d
  {
    var k := SplitPoint(entries, StageStart(d, s));
    PrefixAscending(entries, k);
    SplitExact(entries, StageStart(d, s), e);
    Schema.BelowStageStart(e.0, d, s);
    assert forall x :: x in entries[..k] ==> x in entries;
  }

  /** No entry of direction `d` lies below `d`'s Handshaking start. */
  lemma NothingBelowHandshaking(entries: Entries, d: Schema.PacketDirection)
    requires forall x :: x in entries ==> x.0.direction == d
    ensures SplitPoint(entries, StageStart(d, Schema.Handshaking)) == 0
  {
    if |entries| > 0 {
      assert entries[0] in entries;
      Schema.BelowStageStart(entries[0].0, d, Schema.Handshaking);
    }
  }

  /**
   * For a map of one direction, nothing is left below the Handshaking start,
   * and each group holds exactly the entries of its own stage.
   */
  lemma PartitionByStage(entries: Entries, d: Schema.PacketDirection, e: (Schema.PacketIdentifier, Packet))
    requires Schema.Ascending(entries)
    requires forall i :: 0 <= i < |entries| ==> entries[i].0.direction == d
    ensures Partition(entries, d).below == []
    ensures e in Partition(entries, d).handshaking <==> e in entries && e.0.stage == Schema.Handshaking
    ensures e in Partition(entries, d).status <==> e in entries && e.0.stage == Schema.Status
    ensures e in Partition(entries, d).login <==> e in entries && e.0.stage == Schema.Login
    ensures e in Partition(entries, d).play <==> e in entries && e.0.stage == Schema.Play
  {
    assert forall x :: x in entries ==> x.0.direction == d;
    var k3 := SplitPoint(entries, StageStart(d, Schema.Play));
    StageCut(entries, d, Schema.Play, e);
    var rest3 := entries[..k3];
    var k2 := SplitPoint(rest3, StageStart(d, Schema.Login));
    StageCut(rest3, d, Schema.Login, e);
    var rest2 := rest3[..k2];
    var k1 := SplitPoint(rest2, StageStart(d, Schema.Status));
    StageCut(rest2, d, Schema.Status, e);
    var rest1 := rest2[..k1];
    NothingBelowHandshaking(rest1, d);
    assert rest1[0..] == rest1;
    Schema.StageOrder(e.0.stage, Schema.Handshaking);
    Schema.StageOrder(e.0.stage, Schema.Status);
    Schema.StageOrder(e.0.stage, Schema.Login);
    Schema.StageOrder(e.0.stage, Schema.Play);
  }

  /** A group whose entries all belong to stage `t` gives packet modules that all report `t`. */
  lemma GroupReports(c: Casing, d: Schema.PacketDirection, s: Schema.PacketStage, group: Entries, t: Schema.PacketStage)
    requires forall e :: e in group ==> e.0.stage == t
    ensures forall p :: p in StageGen(c, d, s, group).packets ==> p.stage == RuntimeStage(t)
  {
    assert forall i :: 0 <= i < |group| ==> group[i] in group;
  }

  /**
   * The Status/Login swap as written: every packet module inside the emitted
   * `status` module belongs to the Login stage and every one inside `login`
   * to the Status stage, while the modules themselves report Status and
   * Login.
   */
  lemma SwappedStages(c: Casing, d: Schema.PacketDirection, entries: Entries)
    requires Schema.Ascending(entries)
    requires forall i :: 0 <= i < |entries| ==> entries[i].0.direction == d
    ensures DirectionSpec(c, d, entries).status.stage == Runtime.Status
    ensures DirectionSpec(c, d, entries).login.stage == Runtime.Login
    ensures forall p :: p in DirectionSpec(c, d, entries).status.packets ==> p.stage == Runtime.Login
    ensures forall p :: p in DirectionSpec(c, d, entries).login.packets ==> p.stage == Runtime.Status
  {
    var g := Partition(entries, d);
    forall e | e in g.login ensures e.0.stage == Schema.Login { PartitionByStage(entries, d, e); }
    forall e | e in g.status ensures e.0.stage == Schema.Status { PartitionByStage(entries, d, e); }
    GroupReports(c, d, Schema.Status, g.login, Schema.Login);
    GroupReports(c, d, Schema.Login, g.status, Schema.Status);
  }

  /** The Handshaking and Play modules hold only packets of their own stage. */
  lemma OwnStages(c: Casing, d: Schema.PacketDirection, entries: Entries)
    requires Schema.Ascending(entries)
    requires forall i :: 0 <= i < |entries| ==> entries[i].0.direction == d
    ensures DirectionSpec(c, d, entries).handshaking.stage == Runtime.Handshaking
    ensures DirectionSpec(c, d, entries).play.stage == Runtime.Play
    ensures forall p :: p in DirectionSpec(c, d, entries).handshaking.packets ==> p.stage == Runtime.Handshaking
    ensures forall p :: p in DirectionSpec(c, d, entries).play.packets ==> p.stage == Runtime.Play
  {
    var g := Partition(entries, d);
    forall e | e in g.handshaking ensures e.0.stage == Schema.Handshaking { PartitionByStage(entries, d, e); }
    forall e | e in g.play ensures e.0.stage == Schema.Play { PartitionByStage(entries, d, e); }
    GroupReports(c, d, Schema.Handshaking, g.handshaking, Schema.Handshaking);
    GroupReports(c, d, Schema.Play, g.play, Schema.Play);
  }

  /** The direction module as evidently intended: each stage generator is given its own group. */
  function DirectionIntended(c: Casing, d: Schema.PacketDirection, entries: Entries): (m: DirectionModule)
    ensures m.ident == DirectionIdent(d)
    ensures m.status == StageGen(c, d, Schema.Status, Partition(entries, d).status)
    ensures m.login == StageGen(c, d, Schema.Login, Partition(entries, d).login)
  {
    var g := Partition(entries, d);
    DirectionModule(DirectionIdent(d),
      StageGen(c, d, Schema.Handshaking, g.handshaking),
      StageGen(c, d, Schema.Status, g.status),
      StageGen(c, d, Schema.Login, g.login),
      StageGen(c, d, Schema.Play, g.play))
  }

  /** With each group given to its own stage generator, every stage module holds only packets that report its stage. */
  lemma IntendedStagesOwn(c: Casing, d: Schema.PacketDirection, entries: Entries)
    requires Schema.Ascending(entries)
    requires forall i :: 0 <= i < |entries| ==> entries[i].0.direction == d
    ensures forall p :: p in DirectionIntended(c, d, entries).status.packets ==> p.stage == DirectionIntended(c, d, entries).status.stage
    ensures forall p :: p in DirectionIntended(c, d, entries).login.packets ==> p.stage == DirectionIntended(c, d, entries).login.stage
    ensures DirectionIntended(c, d, entries).handshaking == DirectionSpec(c, d, entries).handshaking
    ensures DirectionIntended(c, d, entries).play == DirectionSpec(c, d, entries).play
  {
    var g := Partition(entries, d);
    forall e | e in g.login ensures e.0.stage == Schema.Login { PartitionByStage(entries, d, e); }
    forall e | e in g.status ensures e.0.stage == Schema.Status { PartitionByStage(entries, d, e); }
    GroupReports(c, d, Schema.Status, g.status, Schema.Status);
    GroupReports(c, d, Schema.Login, g.login, Schema.Login);
  }

  /** The two cuts of `ProtocolGenerator::generate`, and what is left below the Client start. */
  datatype Split = Split(rest: Entries, client: Entries, server: Entries)

  function SplitDirections(entries: Entries): (s: Split)
    ensures entries == s.rest + s.client + s.server
  {
    var k1 := SplitPoint(entries, StageStart(Schema.Server, Schema.Handshaking));
    var low := entries[..k1];
    var k0 := SplitPoint(low, StageStart(Schema.Client, Schema.Handshaking));
    assert low == low[..k0] + low[k0..];
    assert entries == low + entries[k1..];
    Split(low[..k0], low[k0..], entries[k1..])
  }

  /**
   * The top-level cut loses nothing and mixes nothing: `server` holds exactly
   * the Server-bound entries, `client` exactly the Client-bound ones, both
   * stay ordered, and nothing is left over.
   */
  lemma SplitByDirection(entries: Entries, e: (Schema.PacketIdentifier, Packet))
    requires Schema.Ascending(entries)
    ensures SplitDirections(entries).rest == []
    ensures e in SplitDirections(entries).server <==> e in entries && e.0.direction == Schema.Server
    ensures e in SplitDirections(entries).client <==> e in entries && e.0.direction == Schema.Client
    ensures Schema.Ascending(SplitDirections(entries).server) && Schema.Ascending(SplitDirections(entries).client)
  {
    var k1 := SplitPoint(entries, StageStart(Schema.Server, Schema.Handshaking));
    var low := entries[..k1];
    PrefixAscending(entries, k1);
    var k0 := SplitPoint(low, StageStart(Schema.Client, Schema.Handshaking));
    PrefixAscending(low, k0);
    SplitExact(entries, StageStart(Schema.Server, Schema.Handshaking), e);
    SplitExact(low, StageStart(Schema.Client, Schema.Handshaking), e);
    Schema.BelowStageStart(e.0, Schema.Server, Schema.Handshaking);
    Schema.BelowStageStart(e.0, Schema.Client, Schema.Handshaking);
    Schema.DirectionOrder(e.0.direction, e.0.direction);
    if k0 > 0 {
      Schema.BelowStageStart(low[0].0, Schema.Client, Schema.Handshaking);
    }
  }

  /** The items of the shared types, in order. */
  function SharedItems(c: Casing, shared: seq<(string, CustomType)>): (r: seq<Item>)
    ensures |shared| == 0 ==> r == []
    ensures |shared| == 1 ==> r == CustomGen(c, shared[0].0, shared[0].1).items
  {
    Flatten(SharedParts(c, shared))
  }

  /** The items of each shared type, one part per type. */
  function SharedParts(c: Casing, shared: seq<(string, CustomType)>): (r: seq<seq<Item>>)
    ensures |r| == |shared|
    ensures forall i :: 0 <= i < |shared| ==> r[i] == CustomGen(c, shared[i].0, shared[i].1).items
  {
    seq(|shared|, i requires 0 <= i < |shared| => CustomGen(c, shared[i].0, shared[i].1).items)
  }

  /** The shared module emits each shared type's items in declaration order: the items of `a + b` are those of `a`, then those of `b`. */
  lemma SharedItemsInOrder(c: Casing, a: seq<(string, CustomType)>, b: seq<(string, CustomType)>)
    ensures SharedItems(c, a + b) == SharedItems(c, a) + SharedItems(c, b)
  {
    assert SharedParts(c, a + b) == SharedParts(c, a) + SharedParts(c, b);
    FlattenAppend(SharedParts(c, a), SharedParts(c, b));
  }

  /** What `ProtocolGenerator::generate` emits for a protocol. */
  function ProtocolSpec(c: Casing, p: Protocol): (m: ProtocolModule)
    ensures m.serverBound.ident == "server_bound" && m.clientBound.ident == "client_bound"
  {
    var s := SplitDirections(p.packets);
    ProtocolModule(DirectionSpec(c, Schema.Server, s.server), DirectionSpec(c, Schema.Client, s.client), SharedItems(c, p.sharedTypes))
  }

  /** Every packet module of a direction module, stage by stage. */
  function ModulePackets(m: DirectionModule): seq<PacketModule> {
    m.handshaking.packets + m.status.packets + m.login.packets + m.play.packets
  }

  /** A group whose entries all belong to direction `t` gives packet modules that all report `t`. */
  lemma GroupDirection(c: Casing, d: Schema.PacketDirection, s: Schema.PacketStage, group: Entries, t: Schema.PacketDirection)
    requires forall e :: e in group ==> e.0.direction == t
    ensures forall q :: q in StageGen(c, d, s, group).packets ==> q.direction == RuntimeDirection(t)
  {
    assert forall i :: 0 <= i < |group| ==> group[i] in group;
  }

  /** However the stages are grouped, a direction module built from entries of one direction reports only that direction. */
  lemma DirectionModuleDirection(c: Casing, d: Schema.PacketDirection, entries: Entries)
    requires forall e :: e in entries ==> e.0.direction == d
    ensures forall q :: q in ModulePackets(DirectionSpec(c, d, entries)) ==> q.direction == RuntimeDirection(d)
  {
    var g := Partition(entries, d);
    GroupDirection(c, d, Schema.Handshaking, g.handshaking, d);
    GroupDirection(c, d, Schema.Status, g.login, d);
    GroupDirection(c, d, Schema.Login, g.status, d);
    GroupDirection(c, d, Schema.Play, g.play, d);
  }

  /** In the emitted protocol, `server_bound` holds only Server-bound packets and `client_bound` only Client-bound ones. */
  lemma DirectionsOwnPackets(c: Casing, p: Protocol)
    requires Schema.Ascending(p.packets)
    ensures forall q :: q in ModulePackets(ProtocolSpec(c, p).serverBound) ==> q.direction == Runtime.Server
    ensures forall q :: q in ModulePackets(ProtocolSpec(c, p).clientBound) ==> q.direction == Runtime.Client
  {
    var s := SplitDirections(p.packets);
    forall e | e in s.server ensures e.0.direction == Schema.Server { SplitByDirection(p.packets, e); }
    forall e | e in s.client ensures e.0.direction == Schema.Client { SplitByDirection(p.packets, e); }
    DirectionModuleDirection(c, Schema.Server, s.server);
    DirectionModuleDirection(c, Schema.Client, s.client);
  }

  /** `ProtocolGenerator::generate`: two `split_off`s, then one direction generator per part. */
  method GenerateProtocol(c: Casing, p: Protocol) returns (m: ProtocolModule)
    requires Schema.Ascending(p.packets)
    ensures m == ProtocolSpec(c, p)
  {
    var packets := new PacketMap(p.packets);
    var serverBoundPackets := packets.SplitOff(StageStart(Schema.Server, Schema.Handshaking));
    var clientBoundPackets := packets.SplitOff(StageStart(Schema.Client, Schema.Handshaking));
    var serverMap := new PacketMap(serverBoundPackets);
    var server := GenerateDirection(c, Schema.Server, serverMap);
    var clientMap := new PacketMap(clientBoundPackets);
    var client := GenerateDirection(c, Schema.Client, clientMap);
    m := ProtocolModule(server, client, SharedItems(c, p.sharedTypes));
  }

  /** The sample protocol: one Client-bound Handshaking packet `ma` with a `username: String` field. */
  function SampleProtocolInput(): (p: Protocol)
    ensures |p.packets| == 1 && p.packets[0].0.direction == Schema.Client
  {
    Protocol([(StageStart(Schema.Client, Schema.Handshaking), Packet("ma", Struct([("username", String(0))])))], [])
  }

  /**
   * The sample protocol's packet appears in `client_bound::handshaking` as
   * the variant `Ma(Ma)` over a struct with the one field.
   */
  lemma SampleClientHandshaking(c: Casing)
    ensures ProtocolSpec(c, SampleProtocolInput()).clientBound.handshaking.variants == [Wrapper(c.camel("ma"), c.camel(c.camel("ma")))]
    ensures ProtocolSpec(c, SampleProtocolInput()).clientBound.handshaking.packets[0].items
      == [StructItem(c.camel(c.camel("ma")), [(Rename(c.snake("username")), Path("String"))])]
  {
    var entries := SampleProtocolInput().packets;
    var m := ProtocolSpec(c, SampleProtocolInput());
    SampleSplit();
    SamplePartition();
    assert m.clientBound == DirectionSpec(c, Schema.Client, entries);
    assert m.clientBound.handshaking == StageGen(c, Schema.Client, Schema.Handshaking, entries);
    SingleEntryStage(c, Schema.Client, Schema.Handshaking, entries[0]);
    assert entries == [entries[0]];
    SampleStruct(c);
  }

  /** A one-entry group gives one variant `Name(NameType)` over that entry's packet module. */
  lemma SingleEntryStage(c: Casing, d: Schema.PacketDirection, s: Schema.PacketStage, e: (Schema.PacketIdentifier, Packet))
    ensures StageGen(c, d, s, [e]).variants == [Wrapper(c.camel(e.1.name), c.camel(c.camel(e.1.name)))]
    ensures StageGen(c, d, s, [e]).packets == [PacketGen(c, e.0, e.1)]
  {
  }

  /** The sample protocol's other Client-bound stage modules are empty. */
  lemma SampleClientOthers(c: Casing)
    ensures ProtocolSpec(c, SampleProtocolInput()).clientBound.status.variants == []
    ensures ProtocolSpec(c, SampleProtocolInput()).clientBound.login.variants == []
    ensures ProtocolSpec(c, SampleProtocolInput()).clientBound.play.variants == []
  {
    var entries := SampleProtocolInput().packets;
    var m := ProtocolSpec(c, SampleProtocolInput());
    SampleSplit();
    SamplePartition();
    assert m.clientBound == DirectionSpec(c, Schema.Client, entries);
  }

  /** The sample protocol's four Server-bound stage modules are empty. */
  lemma SampleServerEmpty(c: Casing)
    ensures ProtocolSpec(c, SampleProtocolInput()).serverBound.handshaking.variants == []
    ensures ProtocolSpec(c, SampleProtocolInput()).serverBound.status.variants == []
    ensures ProtocolSpec(c, SampleProtocolInput()).serverBound.login.variants == []
    ensures ProtocolSpec(c, SampleProtocolInput()).serverBound.play.variants == []
  {
    var m := ProtocolSpec(c, SampleProtocolInput());
    SampleSplit();
    SamplePartition();
    assert m.serverBound == DirectionSpec(c, Schema.Server, []);
    assert Partition([], Schema.Server) == Groups([], [], [], [], []);
  }

  /** The sample's packet goes to the Client part. */
  lemma SampleSplit()
    ensures SplitDirections(SampleProtocolInput().packets) == Split([], SampleProtocolInput().packets, [])
  {
    var entries := SampleProtocolInput().packets;
    SplitByDirection(entries, entries[0]);
  }

  /** Within the Client part, the sample's packet goes to the Handshaking group. */
  lemma SamplePartition()
    ensures Partition(SampleProtocolInput().packets, Schema.Client) == Groups([], SampleProtocolInput().packets, [], [], [])
  {
    var entries := SampleProtocolInput().packets;
    PartitionByStage(entries, Schema.Client, entries[0]);
    assert |Partition(entries, Schema.Client).handshaking| == 1;
  }

  /** The sample packet's type is the struct `Ma` with its one field. */
  lemma SampleStruct(c: Casing)
    ensures PacketGen(c, SampleProtocolInput().packets[0].0, SampleProtocolInput().packets[0].1).items
      == [StructItem(c.camel(c.camel("ma")), [(Rename(c.snake("username")), Path("String"))])]
  {
    var ct := SampleProtocolInput().packets[0].1.customType;
    assert KeptFields(ct.fields) == ct.fields;
    assert FieldList(c, ct) == [(Rename(c.snake("username")), Path("String"))];
  }

  // ---------------------------------------------------------------------------
  // The emitted encode and decode
  // ---------------------------------------------------------------------------

  /** `*packet_id as u64` for an `i32` id: sign extension. */
  function AsU64(v: int): (r: Runtime.u64)
    requires Wire.IsI32(v)
    ensures r < Runtime.U64
    ensures v >= 0 ==> r == v
    ensures v < 0 ==> r == v + Runtime.U64
  {
    if v >= 0 then v else v + Runtime.U64
  }

  /** The id read of the emitted `decode`: a too-short slice, a failed read, or the id. */
  datatype IdRead = SliceTooShort | IdFailed(error: Wire.Error) | Id(value: Runtime.u64)

  /**
   * `buf.slice(..5)` then `try_read` of a VarInt from that copy: it panics on
   * fewer than five bytes and leaves `buf` where it was; a five-byte copy
   * can never be read as too long.
   */
  function EmittedReadId(buf: seq<Wire.byte>): (r: IdRead)
    ensures r.SliceTooShort? <==> |buf| < 5
    ensures r.IdFailed? ==> r.error != Wire.Malformed
    ensures r.Id? ==> r.value < Runtime.U64
  {
    if |buf| < 5 then SliceTooShort
    else
      match Wire.VarIntRead(buf[..5]).result
      case Err(e) => IdFailed(e)
      case Ok(v) => Id(AsU64(v))
  }

  /** The first arm of a `match` on the ids that takes `id`. */
  function FirstIndex(ids: seq<nat>, id: nat): (i: nat)
    requires id in ids
    ensures i < |ids| && ids[i] == id
    ensures forall j :: 0 <= j < i ==> ids[j] != id
  {
    if ids[0] == id then 0 else 1 + FirstIndex(ids[1..], id)
  }

  /** The outcome of the stage enum's `decode`: a panic, an error, or the arm whose packet decoder is called next. */
  datatype StageDecoded = StagePanicked | StageFailed(error: Runtime.DecodeError) | Dispatched(index: nat)

  function Dispatch(m: StageModule, read: IdRead): (r: StageDecoded)
    ensures read.SliceTooShort? <==> r.StagePanicked?
    ensures r.Dispatched? <==> read.Id? && read.value in m.ids
    ensures r.Dispatched? ==> r.index < |m.ids| && m.ids[r.index] == read.value
    ensures read.Id? && read.value !in m.ids ==> r == StageFailed(Runtime.NonExistentPacket(m.direction, m.stage, read.value))
    ensures read.IdFailed? ==> r == StageFailed(Runtime.TryRead(read.error))
  {
    match read
    case SliceTooShort => StagePanicked
    case IdFailed(e) => StageFailed(Runtime.FromError(e))
    case Id(id) =>
      if id in m.ids then Dispatched(FirstIndex(m.ids, id))
      else StageFailed(Runtime.NonExistentPacket(m.direction, m.stage, id))
  }

  /**
   * The stage enum's `decode` as emitted: it panics on fewer than five bytes,
   * dispatches to the first arm with the id read, reports an unknown id with
   * the module's direction and stage, and never reports a too-long VarInt.
   */
  function StageDecode(m: StageModule, buf: seq<Wire.byte>): (r: StageDecoded)
    ensures r.StagePanicked? <==> |buf| < 5
    ensures r.Dispatched? ==> r.index < |m.ids| && EmittedReadId(buf).Id? && EmittedReadId(buf).value == m.ids[r.index]
    ensures r.StageFailed? && r.error.NonExistentPacket? ==>
      r.error.direction == m.direction && r.error.stage == m.stage && r.error.id !in m.ids
    ensures r != StageFailed(Runtime.TryRead(Wire.Malformed))
  {
    Dispatch(m, EmittedReadId(buf))
  }

  /** The outcome of a packet type's `decode` up to the `unimplemented!()` body: a panic, an error, or the id check passed. */
  datatype PacketDecoded = PacketPanicked | PacketFailed(error: Runtime.DecodeError) | IdAccepted

  /** A packet type's `decode` as emitted: it re-reads the id from a five-byte copy and refuses any id but its own. */
  function PacketDecode(pm: PacketModule, buf: seq<Wire.byte>): (r: PacketDecoded)
    ensures r.PacketPanicked? <==> |buf| < 5
    ensures r.IdAccepted? <==> EmittedReadId(buf).Id? && EmittedReadId(buf).value == pm.id
    ensures r.PacketFailed? && r.error.NonExistentPacket? ==>
      r.error.direction == pm.direction && r.error.stage == pm.stage && r.error.id != pm.id
  {
    match EmittedReadId(buf)
    case SliceTooShort => PacketPanicked
    case IdFailed(e) => PacketFailed(Runtime.FromError(e))
    case Id(id) =>
      if id != pm.id then PacketFailed(Runtime.NonExistentPacket(pm.direction, pm.stage, id))
      else IdAccepted
  }

  /** Because neither read advances `buf`, the packet decoder a stage dispatches to always passes its own id check. */
  lemma DispatchedPacketAccepts(c: Casing, d: Schema.PacketDirection, s: Schema.PacketStage, entries: Entries, buf: seq<Wire.byte>)
    ensures
      var m := StageGen(c, d, s, entries);
      StageDecode(m, buf).Dispatched? ==> PacketDecode(m.packets[StageDecode(m, buf).index], buf) == IdAccepted
  {
  }

  /**
   * The packet type's `encode`: the VarInt of `id as i32`, and the number of
   * bytes written. The field encoding is not generated yet.
   */
  method EncodePacket(pm: PacketModule, buf: Wire.ByteBuf) returns (total: nat)
    requires Wire.AsI32(pm.id) >= 0
    modifies buf
    ensures buf.bytes == old(buf.bytes) + Wire.VarIntBytes(Wire.AsI32(pm.id))
    ensures total == |Wire.VarIntBytes(Wire.AsI32(pm.id))|
  {
    total := 0;
    var written := Wire.WriteVarInt(buf, Wire.AsI32(pm.id));
    total := total + written;
  }

  /** The id bytes `encode` writes are the id `decode` reads back, once at least five bytes are there. */
  lemma EncodedIdReadBack(id: nat, body: seq<Wire.byte>)
    requires id < 0x8000_0000
    requires |Wire.VarIntBytes(Wire.AsI32(id)) + body| >= 5
    ensures EmittedReadId(Wire.VarIntBytes(Wire.AsI32(id)) + body) == Id(id)
  {
    var bytes := Wire.VarIntBytes(id);
    var buf := bytes + body;
    assert buf[..5] == bytes + body[..5 - |bytes|];
    Wire.VarIntRoundTrip(id, body[..5 - |bytes|]);
  }

  /**
   * In a group of one direction and stage from an ordered map, a packet
   * encoded by its own module is dispatched by the stage decoder to that
   * same module, once the buffer holds at least five bytes.
   */
  lemma DispatchRoundTrip(c: Casing, d: Schema.PacketDirection, s: Schema.PacketStage, entries: Entries, i: nat, body: seq<Wire.byte>)
    requires Schema.Ascending(entries)
    requires forall j :: 0 <= j < |entries| ==> entries[j].0.direction == d && entries[j].0.stage == s
    requires i < |entries| && entries[i].0.id.inner < 0x8000_0000
    requires |Wire.VarIntBytes(Wire.AsI32(entries[i].0.id.inner)) + body| >= 5
    ensures
      var m := StageGen(c, d, s, entries);
      StageDecode(m, Wire.VarIntBytes(Wire.AsI32(m.packets[i].id)) + body) == Dispatched(i)
  {
    var m := StageGen(c, d, s, entries);
    var id := entries[i].0.id.inner;
    EncodedIdReadBack(id, body);
  }

  /**
   * The emitted `buf.slice(..5)` panics on any packet shorter than five bytes,
   * so a packet whose id is 0 and which has no fields, one byte long, brings
   * the decoder down instead of being dispatched.
   */
  lemma ShortPacketPanics(m: StageModule)
    ensures Wire.VarIntBytes(0) == [0]
    ensures StageDecode(m, Wire.VarIntBytes(0)) == StagePanicked
  {
    Wire.VarIntBytesNonNegative(0);
  }

  /** The id read as evidently intended: the VarInt is read from the first five bytes, or from all of them when there are fewer. */
  function BoundedReadId(buf: seq<Wire.byte>): (r: IdRead)
    ensures !r.SliceTooShort?
    ensures r.IdFailed? ==> r.error != Wire.Malformed
    ensures r.Id? ==> r.value < Runtime.U64
  {
    var n := if |buf| < 5 then |buf| else 5;
    match Wire.VarIntRead(buf[..n]).result
    case Err(e) => IdFailed(e)
    case Ok(v) => Id(AsU64(v))
  }

  /** A stage decoder that reads the id with `BoundedReadId`: it never panics. */
  function StageDecodeBounded(m: StageModule, buf: seq<Wire.byte>): (r: StageDecoded)
    ensures !r.StagePanicked?
    ensures r.Dispatched? ==> r.index < |m.ids| && BoundedReadId(buf).Id? && BoundedReadId(buf).value == m.ids[r.index]
  {
    Dispatch(m, BoundedReadId(buf))
  }

  /** With the bounded read, every encoded id is dispatched, however short the packet. */
  lemma BoundedDispatchRoundTrip(m: StageModule, i: nat, body: seq<Wire.byte>)
    requires i < |m.ids| && m.ids[i] < 0x8000_0000
    ensures StageDecodeBounded(m, Wire.VarIntBytes(m.ids[i]) + body) == Dispatched(FirstIndex(m.ids, m.ids[i]))
  {
    var id := m.ids[i];
    var bytes := Wire.VarIntBytes(id);
    var buf := bytes + body;
    var n := if |buf| < 5 then |buf| else 5;
    assert buf[..n] == bytes + body[..n - |bytes|];
    Wire.VarIntRoundTrip(id, body[..n - |bytes|]);
  }
}
