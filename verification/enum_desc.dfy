/**
 * The enum descriptor: the variants parsed from a declaration, the
 * serializer arms generated for every local version, and what the emitted
 * code writes and reads.
 *
 * On the wire an enum value is the backend's enum tag: the variant's
 * position in the declaration as a `u32`. The `u16` discriminant the derive
 * insists on is validated but not written.
 */
module EnumDesc {
  import opened Common
  import opened Errors
  import opened Primitives
  import opened Descriptor
  import EV = EnumVariant

  datatype EnumDescriptor = EnumDescriptor(ty: string, version: u16, variants: seq<EV.EnumVariant>)

  function VariantBounds(vs: seq<EV.EnumVariant>): (r: seq<(u16, u16)>)
    ensures |r| == |vs|
    ensures forall j :: 0 <= j < |vs| ==> r[j] == (vs[j].startVersion, vs[j].endVersion)
  {
    seq(|vs|, j requires 0 <= j < |vs| => (vs[j].startVersion, vs[j].endVersion))
  }

  /** `parse_enum_variants`: each declaration in order, with the given base version. */
  function ParseVariants(baseVersion: u16, decls: seq<EV.VariantDecl>): (r: Derived<seq<EV.EnumVariant>>)
    ensures r.Generated? <==> forall j :: 0 <= j < |decls| ==> EV.New(baseVersion, decls[j]).Generated?
    ensures r.Generated? ==> (|r.value| == |decls| &&
      forall j :: 0 <= j < |decls| ==> r.value[j] == EV.New(baseVersion, decls[j]).value)
  {
    if |decls| == 0 then Generated([])
    else
      match EV.New(baseVersion, decls[0])
      case Rejected(reason) => Rejected(reason)
      case Generated(first) =>
        match ParseVariants(baseVersion, decls[1..])
        case Rejected(reason) =>
          assert forall j :: 1 <= j < |decls| ==> decls[j] == decls[1..][j - 1];
          Rejected(reason)
        case Generated(others) =>
          assert forall j :: 1 <= j < |decls| ==> decls[j] == decls[1..][j - 1];
          Generated([first] + others)
  }

  /**
   * `EnumDescriptor::new`: the variants are parsed while the descriptor's
   * version is still 1, so every unannotated variant starts at version 1;
   * the version is then computed from all their ranges.
   */
  function New(ty: string, decls: seq<EV.VariantDecl>): (r: Derived<EnumDescriptor>)
    ensures r.Generated? <==>
      forall j :: 0 <= j < |decls| ==> decls[j].discriminant.IntLiteral? && decls[j].discriminant.value < 0x1_0000
    ensures r.Generated? ==> |r.value.variants| == |decls| && r.value.ty == ty
    ensures r.Generated? ==> r.value.version == ComputeVersion(VariantBounds(r.value.variants))
    ensures r.Generated? ==> forall j :: 0 <= j < |decls| && decls[j].attrs.start.None? ==>
      r.value.variants[j].startVersion == 1
  {
    var descriptor := EnumDescriptor(ty, 1, []);
    match ParseVariants(descriptor.version, decls)
    case Rejected(reason) => Rejected(reason)
    case Generated(variants) =>
      Generated(descriptor.(variants := variants, version := ComputeVersion(VariantBounds(variants))))
  }

  /** Whether variant `v` can appear in the arm for `version`: it exists there, or it has a `default_fn`. */
  predicate ArmAllowed(v: EV.EnumVariant, version: u16) {
    v.ExistsAt(version) || v.attrs.defaultFn.Some?
  }

  /** The arm entries of every variant for one version, in declaration order. */
  function ArmFor(vs: seq<EV.EnumVariant>, version: u16): Derived<seq<EV.Arm>> {
    if |vs| == 0 then Generated([])
    else
      match EV.GenerateSerializer(vs[0], version)
      case Rejected(reason) => Rejected(reason)
      case Generated(first) =>
        match ArmFor(vs[1..], version)
        case Rejected(reason) => Rejected(reason)
        case Generated(others) => Generated([first] + others)
  }

  lemma {:induction false} ArmForSpec(vs: seq<EV.EnumVariant>, version: u16)
    ensures ArmFor(vs, version).Generated? <==> forall j :: 0 <= j < |vs| ==> ArmAllowed(vs[j], version)
    ensures ArmFor(vs, version).Generated? ==> (|ArmFor(vs, version).value| == |vs| &&
      forall j :: 0 <= j < |vs| ==> EV.GenerateSerializer(vs[j], version) == Generated(ArmFor(vs, version).value[j]))
  {
    if |vs| > 0 {
      var tail := vs[1..];
      ArmForSpec(tail, version);
      var first := EV.GenerateSerializer(vs[0], version);
      if first.Rejected? {
        assert !ArmAllowed(vs[0], version);
      } else if ArmFor(tail, version).Rejected? {
        var j :| 0 <= j < |tail| && !ArmAllowed(tail[j], version);
        assert vs[j + 1] == tail[j];
      } else {
        var arm := ArmFor(vs, version).value;
        assert arm == [first.value] + ArmFor(tail, version).value;
        forall j | 1 <= j < |vs|
          ensures EV.GenerateSerializer(vs[j], version) == Generated(arm[j])
        {
          assert vs[j] == tail[j - 1];
        }
      }
    }
  }

  /** The arms for versions `1..=n`, generated in ascending order. */
  function Arms(vs: seq<EV.EnumVariant>, n: u16): Derived<seq<seq<EV.Arm>>> {
    if n == 0 then Generated([])
    else
      match Arms(vs, n - 1)
      case Rejected(reason) => Rejected(reason)
      case Generated(earlier) =>
        match ArmFor(vs, n)
        case Rejected(reason) => Rejected(reason)
        case Generated(arm) => Generated(earlier + [arm])
  }

  lemma {:induction false} ArmsSpec(vs: seq<EV.EnumVariant>, n: u16)
    ensures Arms(vs, n).Generated? <==>
      forall i: u16, j :: 1 <= i <= n && 0 <= j < |vs| ==> ArmAllowed(vs[j], i)
    ensures Arms(vs, n).Generated? ==> (|Arms(vs, n).value| == n as int &&
      forall k :: 0 <= k < n as int ==> ArmFor(vs, (k + 1) as u16) == Generated(Arms(vs, n).value[k]))
  {
    if n > 0 {
      ArmsSpec(vs, n - 1);
      ArmForSpec(vs, n);
      if Arms(vs, n - 1).Rejected? {
        var i: u16, j :| 1 <= i <= n - 1 && 0 <= j < |vs| && !ArmAllowed(vs[j], i);
      } else if ArmFor(vs, n).Rejected? {
        var j :| 0 <= j < |vs| && !ArmAllowed(vs[j], n);
      } else {
        var earlier := Arms(vs, n - 1).value;
        assert Arms(vs, n).value == earlier + [ArmFor(vs, n).value];
        forall i: u16, j | 1 <= i <= n && 0 <= j < |vs|
          ensures ArmAllowed(vs[j], i)
        {
          if i == n {
            assert ArmFor(vs, n).Generated?;
          }
        }
      }
    }
  }

  /**
   * `EnumDescriptor::generate_serializer`: one arm per version `1..=version`,
   * each covering every variant. `arms[k][j]` is what variant `j` does at
   * version `k + 1`.
   */
  function GenerateSerializer(e: EnumDescriptor): (r: Derived<seq<seq<EV.Arm>>>)
    ensures r.Generated? <==> forall i: u16, j :: 1 <= i <= e.version && 0 <= j < |e.variants| ==>
      ArmAllowed(e.variants[j], i)
    ensures r.Generated? ==> |r.value| == e.version as int
    ensures r.Generated? ==> forall k :: 0 <= k < |r.value| ==> |r.value[k]| == |e.variants|
    ensures r.Generated? ==> forall k, j :: 0 <= k < |r.value| && 0 <= j < |e.variants| ==>
      EV.GenerateSerializer(e.variants[j], (k + 1) as u16) == Generated(r.value[k][j])
  {
    ArmsSpec(e.variants, e.version);
    var r := Arms(e.variants, e.version);
    if r.Generated? then
      assert forall k :: 0 <= k < |r.value| ==> (|r.value[k]| == |e.variants| &&
        forall j :: 0 <= j < |e.variants| ==> EV.GenerateSerializer(e.variants[j], (k + 1) as u16) == Generated(r.value[k][j]))
      by {
        forall k | 0 <= k < |r.value|
          ensures |r.value[k]| == |e.variants|
          ensures forall j :: 0 <= j < |e.variants| ==> EV.GenerateSerializer(e.variants[j], (k + 1) as u16) == Generated(r.value[k][j])
        {
          ArmForSpec(e.variants, (k + 1) as u16);
        }
      }
      r
    else r
  }

  /**
   * A variant that starts after version 1 and has no `default_fn` always
   * makes the derive fail: version 1's arm is always generated.
   */
  lemma LateVariantWithoutDefaultRejects(ty: string, decls: seq<EV.VariantDecl>, j: nat)
    requires New(ty, decls).Generated? && j < |decls|
    requires decls[j].attrs.start.Some? && decls[j].attrs.start.value > 1
    requires decls[j].attrs.defaultFn.None?
    ensures GenerateSerializer(New(ty, decls).value).Rejected?
  {
    var e := New(ty, decls).value;
    var variant := e.variants[j];
    assert variant.startVersion > 1;
    assert VariantBounds(e.variants)[j] == (variant.startVersion, variant.endVersion);
    assert 1 < e.version;
    assert !ArmAllowed(e.variants[j], 1);
  }

  // ---------------------------------------------------------------------
  // Runtime.
  // ---------------------------------------------------------------------

  /** The variant written for `x` at `version`: `x` itself, or its `default_fn`'s answer. */
  function WrittenVariant(e: EnumDescriptor, defaults: seq<u16 -> nat>, x: nat, version: u16): nat
    requires x < |e.variants| == |defaults|
  {
    if e.variants[x].ExistsAt(version) then x else defaults[x](version)
  }

  /**
   * The arm for `version` applied to the value `x` (a variant position);
   * `defaults[j]` is `default_fn` of variant `j`.
   */
  function SerializeEnum(e: EnumDescriptor, defaults: seq<u16 -> nat>, x: nat, version: u16): (r: seq<byte>)
    requires GenerateSerializer(e).Generated?
    requires 1 <= version <= e.version && x < |e.variants| == |defaults|
    ensures |r| == 4
  {
    var arms := GenerateSerializer(e).value;
    match arms[version - 1][x]
    case WriteSelf => EncodeInt(U32, x)
    case WriteDefault(_) => EncodeInt(U32, defaults[x](version))
  }

  /**
   * `EnumDescriptor::generate_deserializer`: reads the tag whatever the
   * version; a tag that names no variant is a Deserialize error.
   */
  function DeserializeEnum(e: EnumDescriptor, b: seq<byte>, version: u16): (r: Result<(nat, seq<byte>)>)
    ensures r.Ok? ==> r.value.0 < |e.variants| && |b| >= 4 && r.value.1 == b[4..]
    ensures r.Err? ==> r.error.Deserialize?
  {
    match DecodeInt(U32, b)
    case Err(err) => Err(err)
    case Ok((tag, rest)) =>
      if 0 <= tag < |e.variants| then Ok((tag as nat, rest))
      else Err(Deserialize(Backend("invalid value: integer, expected variant index")))
  }

  /** Reading never depends on the version: there is no cross-variant reconstruction. */
  lemma DeserializeIgnoresVersion(e: EnumDescriptor, b: seq<byte>, v1: u16, v2: u16)
    ensures DeserializeEnum(e, b, v1) == DeserializeEnum(e, b, v2)
  {
  }

  /**
   * Reading back what the arm for `version` wrote gives the variant it
   * wrote: the value itself when it exists at that version, its
   * `default_fn`'s variant otherwise.
   */
  lemma EnumRoundTrip(e: EnumDescriptor, defaults: seq<u16 -> nat>, x: nat, version: u16, readVersion: u16, rest: seq<byte>)
    requires GenerateSerializer(e).Generated?
    requires 1 <= version <= e.version && x < |e.variants| == |defaults|
    requires |e.variants| <= 0x1_0000
    requires forall j, v :: 0 <= j < |defaults| ==> defaults[j](v) < |e.variants|
    ensures DeserializeEnum(e, SerializeEnum(e, defaults, x, version) + rest, readVersion)
         == Ok((WrittenVariant(e, defaults, x, version), rest))
    ensures e.variants[x].ExistsAt(version) ==>
      DeserializeEnum(e, SerializeEnum(e, defaults, x, version) + rest, readVersion) == Ok((x, rest))
  {
    var w := WrittenVariant(e, defaults, x, version);
    var arms := GenerateSerializer(e).value;
    assert EV.GenerateSerializer(e.variants[x], version) == Generated(arms[version - 1][x]);
    assert SerializeEnum(e, defaults, x, version) == EncodeInt(U32, w);
    IntRoundTrip(U32, w, rest);
  }
}
