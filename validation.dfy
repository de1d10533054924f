/**
 * `Validation::validate` for `Protocol` (`spec/src/validation.rs`): one pass
 * over the packet map in identifier order that fails on the first packet
 * whose (direction, stage, name) was already taken, and reports, without
 * failing, each gap between the ids of neighbouring packets of one direction
 * and stage. The reports are printed by the source; here they are an
 * out-parameter.
 */
module Validation {
  import opened Schema

  /** The key of the `packet_names` map. */
  datatype NameKey = NameKey(direction: PacketDirection, stage: PacketStage, name: CustomTypeName)

  function KeyOf(e: (PacketIdentifier, CustomType)): NameKey {
    NameKey(e.0.direction, e.0.stage, Name(e.1))
  }

  /** The error `validate` bails with: the name, the identifier that repeats it and the identifier that used it first. */
  datatype ValidationError = NameAlreadyUsed(name: CustomTypeName, identifier: PacketIdentifier, previous: PacketIdentifier)

  datatype Validated = Valid | Invalid(error: ValidationError)

  /** One `Skiped from .. to ..` line. */
  datatype Skip = Skip(from: PacketIdentifier, to: PacketIdentifier)

  /** The gap test between a packet and its predecessor. */
  predicate Skipped(prev: PacketIdentifier, next: PacketIdentifier) {
    prev.direction == next.direction && prev.stage == next.stage && prev.id.inner + 1 != next.id.inner
  }

  /** The lines printed while the loop visits the first `k` entries, in order. */
  function SkipsBefore(packets: seq<(PacketIdentifier, CustomType)>, k: nat): seq<Skip>
    requires k <= |packets|
  {
    if k < 2 then []
    else
      SkipsBefore(packets, k - 1)
      + (if Skipped(packets[k - 2].0, packets[k - 1].0) then [Skip(packets[k - 2].0, packets[k - 1].0)] else [])
  }

  /** The lines printed for a whole packet map. */
  function Skips(packets: seq<(PacketIdentifier, CustomType)>): seq<Skip> {
    SkipsBefore(packets, |packets|)
  }

  /** No (direction, stage, name) appears twice among the first `k` entries. */
  predicate UniqueBefore(packets: seq<(PacketIdentifier, CustomType)>, k: nat)
    requires k <= |packets|
  {
    forall i, j :: 0 <= i < j < k ==> KeyOf(packets[i]) != KeyOf(packets[j])
  }

  /** No (direction, stage, name) appears twice. */
  predicate Unique(packets: seq<(PacketIdentifier, CustomType)>) {
    UniqueBefore(packets, |packets|)
  }

  /** The keys of the first `k` entries. */
  ghost function KeysBefore(packets: seq<(PacketIdentifier, CustomType)>, k: nat): set<NameKey>
    requires k <= |packets|
  {
    set i | 0 <= i < k :: KeyOf(packets[i])
  }

  /**
   * `validate`: `Valid` exactly when no (direction, stage, name) repeats. On
   * a repeat it stops at the first packet `j` whose key an earlier packet `i`
   * has, and names packet `j`'s name, its identifier and packet `i`'s
   * identifier; the gaps reported are those among the packets up to `j`.
   */
  method Validate(p: Protocol) returns (r: Validated, skips: seq<Skip>)
    ensures r.Valid? <==> Unique(p.packets)
    ensures r.Valid? ==> skips == Skips(p.packets)
    ensures r.Invalid? ==>
      exists i, j ::
        && 0 <= i < j < |p.packets|
        && UniqueBefore(p.packets, j) && KeyOf(p.packets[i]) == KeyOf(p.packets[j])
        && r.error == NameAlreadyUsed(Name(p.packets[j].1), p.packets[j].0, p.packets[i].0)
        && skips == SkipsBefore(p.packets, j + 1)
  {
    var packets := p.packets;
    var names: map<NameKey, PacketIdentifier> := map[];
    var prev: PacketIdentifier := PacketIdentifier(Client, Handshaking, From(0));
    skips := [];
    var k := 0;
    while k < |packets|
      invariant k <= |packets|
      invariant UniqueBefore(packets, k)
      invariant Recorded(packets, k, names)
      invariant skips == SkipsBefore(packets, k)
      invariant k > 0 ==> prev == packets[k - 1].0
    {
      var identifier := packets[k].0;
      var packet := packets[k].1;
      if k > 0 && Skipped(prev, identifier) {
        skips := skips + [Skip(prev, identifier)];
      }
      assert skips == SkipsBefore(packets, k + 1);
      prev := identifier;
      var key := NameKey(identifier.direction, identifier.stage, Name(packet));
      assert key == KeyOf(packets[k]);
      if key in names {
        ghost var i := Recorder(packets, k, names, key);
        DuplicateFound(packets, i, k);
        r := Invalid(NameAlreadyUsed(Name(packet), identifier, names[key]));
        assert 0 <= i < k < |p.packets| && KeyOf(p.packets[i]) == KeyOf(p.packets[k]);
        assert r.error == NameAlreadyUsed(Name(p.packets[k].1), p.packets[k].0, p.packets[i].0);
        return r, skips;
      }
      RecordStep(packets, k, names);
      names := names[key := identifier];
      assert Recorded(packets, k + 1, names);
      k := k + 1;
    }
    r := Valid;
  }

  /** `names` maps the key of each of the first `k` entries to its identifier, and holds nothing else. */
  ghost predicate Recorded(packets: seq<(PacketIdentifier, CustomType)>, k: nat, names: map<NameKey, PacketIdentifier>)
    requires k <= |packets|
  {
    names.Keys == KeysBefore(packets, k)
    && forall i :: 0 <= i < k ==> names[KeyOf(packets[i])] == packets[i].0
  }

  /** The entry whose key `names` holds. */
  lemma Recorder(packets: seq<(PacketIdentifier, CustomType)>, k: nat, names: map<NameKey, PacketIdentifier>, key: NameKey)
    returns (i: nat)
    requires k <= |packets| && Recorded(packets, k, names) && key in names
    ensures i < k && KeyOf(packets[i]) == key && names[key] == packets[i].0
  {
    i :| 0 <= i < k && KeyOf(packets[i]) == key;
  }

  /** Recording entry `k` under its new key keeps the first `k + 1` entries free of repeats. */
  lemma RecordStep(packets: seq<(PacketIdentifier, CustomType)>, k: nat, names: map<NameKey, PacketIdentifier>)
    requires k < |packets| && UniqueBefore(packets, k) && Recorded(packets, k, names)
    requires KeyOf(packets[k]) !in names
    ensures UniqueBefore(packets, k + 1)
    ensures Recorded(packets, k + 1, names[KeyOf(packets[k]) := packets[k].0])
  {
    assert KeysBefore(packets, k + 1) == KeysBefore(packets, k) + {KeyOf(packets[k])};
    forall i, j | 0 <= i < j < k + 1
      ensures KeyOf(packets[i]) != KeyOf(packets[j])
    {
      if j == k {
        assert KeyOf(packets[i]) in KeysBefore(packets, k);
      }
    }
  }

  /** A repeat among the entries is a repeat in the map. */
  lemma DuplicateFound(packets: seq<(PacketIdentifier, CustomType)>, i: nat, k: nat)
    requires i < k < |packets| && KeyOf(packets[i]) == KeyOf(packets[k])
    ensures !Unique(packets)
  {
  }

  /** Uniqueness is keyed on all three parts: the same name is accepted in another stage or direction. */
  lemma SameNameElsewhereAccepted(a: PacketIdentifier, b: PacketIdentifier, t: CustomType, u: CustomType)
    ensures Unique([(a, t), (b, u)]) <==> a.direction != b.direction || a.stage != b.stage || Name(t) != Name(u)
  {
    assert [(a, t), (b, u)][0] == (a, t) && [(a, t), (b, u)][1] == (b, u);
  }

  /**
   * A gap line is printed only for neighbours: every report is the pair of
   * entries `i - 1` and `i` for some `i`, of one direction and stage and
   * with ids that do not follow on, and every such pair is reported.
   */
  lemma {:induction false} SkipsAreNeighbourGaps(packets: seq<(PacketIdentifier, CustomType)>, k: nat, s: Skip)
    requires k <= |packets|
    ensures s in SkipsBefore(packets, k) <==>
      exists i :: 1 <= i < k && s == Skip(packets[i - 1].0, packets[i].0) && Skipped(packets[i - 1].0, packets[i].0)
  {
    if k >= 2 {
      SkipsAreNeighbourGaps(packets, k - 1, s);
    }
  }

  /**
   * In an ordered map, a gap between neighbours of one direction and stage
   * means the id jumps by more than one; and the test's `prev.id + 1` is
   * only evaluated when the ids ascend, so it never overflows a `u64`.
   */
  lemma SkipMeansJump(packets: seq<(PacketIdentifier, CustomType)>, i: nat)
    requires Ascending(packets) && 1 <= i < |packets|
    ensures packets[i - 1].0.direction == packets[i].0.direction && packets[i - 1].0.stage == packets[i].0.stage
      ==> packets[i - 1].0.id.inner + 1 < 0x1_0000_0000_0000_0000
    ensures Skipped(packets[i - 1].0, packets[i].0) <==>
      packets[i - 1].0.direction == packets[i].0.direction && packets[i - 1].0.stage == packets[i].0.stage
      && packets[i - 1].0.id.inner + 1 < packets[i].0.id.inner
  {
    assert IdentifierLess(packets[i - 1].0, packets[i].0);
  }
}
