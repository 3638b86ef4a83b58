/**
 * What the code the derive emits for a struct does when it runs.
 *
 * Serializing at application (root) version `app`: the struct's local
 * version is its entry in the crate's version map; the arm for that version
 * first runs the semantic serializers of absent fields on a working copy,
 * then writes each present field in declaration order. Deserializing reads
 * each present field in declaration order, gives absent fields their
 * `default_fn` or default value, and then runs the semantic deserializers of
 * absent fields on the rebuilt object.
 *
 * A field's value is written at the application version, translated through
 * the version map for foreign types. The emitted serializer decides this by
 * whether the *enclosing* type is foreign; the emitted deserializer by
 * whether the *field's* type is. `Translation` selects one of the two
 * serializers: `BySelf` is the code as written, `ByFieldType` the
 * translation that matches the deserializer.
 */
module StructDesc {
  import opened Common
  import opened Errors
  import opened VersionMap
  import opened Primitives
  import opened Descriptor
  import opened StructField

  /** The values a field can hold. */
  datatype Value =
    | Int(n: int)
    | Flag(b: bool)
    | Letter(c: char)
    | Text(s: string)
    | Items(items: seq<Value>)     // a `Vec` or a fixed-length array
    | Record(fields: seq<Value>)   // a nested struct
    | Nothing                      // a zero-sized marker

  /** The crate's `VERSION_MAP` and `FOREIGN_TYPES`. */
  datatype Domain = Domain(vm: VersionMap, foreign: seq<TypeName>)

  /** The version a foreign type is addressed at: its own entry in the version map. */
  function Translate(d: Domain, app: u16, tid: TypeName): (r: u16)
    requires app as int <= |d.vm.versions|
    ensures tid !in d.foreign ==> r == app
    ensures tid in d.foreign ==> r == GetTypeVersion(d.vm, app, tid)
  {
    if tid in d.foreign then GetTypeVersion(d.vm, app, tid) else app
  }

  /** The hook signature: `fn(&mut self, version: u16) -> Result<()>`, as a new value. */
  type Hook = (seq<Value>, u16) -> Result<seq<Value>>

  /**
   * What the struct's code supplies for one field: the field type's own rule
   * (for arrays, the element type's), `Default::default()`, and the functions
   * the field's attributes may name.
   */
  datatype FieldImpl = FieldImpl(
    codec: Codec<Value>,
    defaultValue: Value,
    defaultFn: u16 -> Value,
    semanticSer: Hook,
    semanticDe: Hook)

  datatype StructDef = StructDef(name: TypeName, fields: seq<StructField>, impls: seq<FieldImpl>)

  function Bounds(fields: seq<StructField>): (r: seq<(u16, u16)>)
    ensures |r| == |fields|
    ensures forall i :: 0 <= i < |fields| ==> r[i] == (fields[i].startVersion, fields[i].endVersion)
  {
    seq(|fields|, i requires 0 <= i < |fields| => (fields[i].startVersion, fields[i].endVersion))
  }

  /** The struct's local version count: arms are generated for `1..=StructVersion`. */
  function StructVersion(s: StructDef): u16 {
    ComputeVersion(Bounds(s.fields))
  }

  /** Every arm `1..=StructVersion` generates for every field. */
  predicate Derivable(s: StructDef) {
    forall i, v: u16 :: 0 <= i < |s.fields| && 1 <= v <= StructVersion(s) ==>
      GenerateSerializer(s.fields[i], v).Generated? && GenerateDeserializer(s.fields[i], v).Generated?
  }

  ghost predicate PresentInSomeArm(f: StructField, n: u16) {
    exists v: u16 :: 1 <= v <= n && f.ExistsAt(v)
  }

  /** The derive succeeds exactly when every field present in some arm has a readable shape. */
  lemma DerivableIff(s: StructDef)
    ensures Derivable(s) <==>
      forall i :: 0 <= i < |s.fields| && PresentInSomeArm(s.fields[i], StructVersion(s)) ==> ReadableShape(s.fields[i].ty)
  {
    var n := StructVersion(s);
    if Derivable(s) {
      forall i | 0 <= i < |s.fields| && PresentInSomeArm(s.fields[i], n) ensures ReadableShape(s.fields[i].ty) {
        var v: u16 :| 1 <= v <= n && s.fields[i].ExistsAt(v);
        assert GenerateDeserializer(s.fields[i], v).Generated?;
      }
    } else {
      var i, v: u16 :| 0 <= i < |s.fields| && 1 <= v <= n &&
        !(GenerateSerializer(s.fields[i], v).Generated? && GenerateDeserializer(s.fields[i], v).Generated?);
      assert s.fields[i].ExistsAt(v);
      assert PresentInSomeArm(s.fields[i], n);
      assert !ReadableShape(s.fields[i].ty);
    }
  }

  /** The struct's values: one per field, an array field holding `Items`. */
  predicate Typed(s: StructDef, x: seq<Value>) {
    |x| == |s.fields| && forall i :: 0 <= i < |x| && s.fields[i].ty.ArrayType? ==> x[i].Items?
  }

  /** The hooks are methods of the struct: they keep a value of the struct a value of the struct. */
  ghost predicate HooksKeepShape(s: StructDef) {
    |s.impls| == |s.fields| &&
    forall i, x, v :: 0 <= i < |s.impls| && |x| == |s.fields| ==>
      (s.impls[i].semanticSer(x, v).Ok? ==>
         (|s.impls[i].semanticSer(x, v).value| == |s.fields| &&
          (Typed(s, x) ==> Typed(s, s.impls[i].semanticSer(x, v).value)))) &&
      (s.impls[i].semanticDe(x, v).Ok? ==> |s.impls[i].semanticDe(x, v).value| == |s.fields|)
  }

  predicate WellFormed(s: StructDef) {
    |s.impls| == |s.fields| && Derivable(s)
  }

  /** The struct's own local version at application version `app`. */
  function LocalVersion(d: Domain, s: StructDef, app: u16): u16
    requires app as int <= |d.vm.versions|
  {
    GetTypeVersion(d.vm, app, s.name)
  }

  /** What serializing and deserializing need: a derived struct, a known version, an arm for it. */
  ghost predicate CanRun(d: Domain, s: StructDef, app: u16) {
    WellFormed(s) && HooksKeepShape(s) &&
    app as int <= |d.vm.versions| && 1 <= LocalVersion(d, s, app) <= StructVersion(s)
  }

  // ---------------------------------------------------------------------
  // Serialization.
  // ---------------------------------------------------------------------

  /** The semantic serializers of the first `n` fields, in order, on the working copy. */
  function SerHooks(s: StructDef, version: u16, x: seq<Value>, n: nat): (r: Result<seq<Value>>)
    requires HooksKeepShape(s) && Typed(s, x) && n <= |s.fields|
    ensures r.Ok? ==> Typed(s, r.value)
    ensures (forall j :: 0 <= j < n ==> GenerateSemanticSerializer(s.fields[j], version).None?) ==> r == Ok(x)
  {
    if n == 0 then Ok(x)
    else
      match SerHooks(s, version, x, n - 1)
      case Err(e) => Err(e)
      case Ok(copy) =>
        if GenerateSemanticSerializer(s.fields[n - 1], version).Some? then s.impls[n - 1].semanticSer(copy, version)
        else Ok(copy)
  }

  datatype Translation = BySelf | ByFieldType

  /** The version field `i` is written at. */
  function WriteVersion(d: Domain, s: StructDef, t: Translation, i: nat, app: u16): (r: u16)
    requires i < |s.fields| && app as int <= |d.vm.versions|
    ensures t == BySelf ==> r == Translate(d, app, s.name)
    ensures t == ByFieldType ==> r == (if s.fields[i].ty.PathType? then Translate(d, app, s.fields[i].ty.name) else app)
  {
    match t
    case BySelf => Translate(d, app, s.name)
    case ByFieldType => if s.fields[i].ty.PathType? then Translate(d, app, s.fields[i].ty.name) else app
  }

  /**
   * The bytes field `i` of the working copy contributes. The two error
   * branches cannot be reached for a derived struct and a typed value; they
   * keep the function total.
   */
  function FieldBytes(d: Domain, s: StructDef, t: Translation, copy: seq<Value>, i: nat, app: u16, version: u16)
    : (r: Result<seq<byte>>)
    requires |s.impls| == |s.fields| == |copy| && i < |s.fields| && app as int <= |d.vm.versions|
    ensures !s.fields[i].ExistsAt(version) ==> r == Ok([])
  {
    match GenerateSerializer(s.fields[i], version)
    case Rejected(reason) => Err(Serialize(Backend(reason)))
    case Generated(None) => Ok([])
    case Generated(Some(WriteValue)) => s.impls[i].codec.enc(copy[i], WriteVersion(d, s, t, i, app))
    case Generated(Some(WriteVec)) =>
      match copy[i]
      case Items(xs) => VecEncode(s.impls[i].codec, xs, WriteVersion(d, s, t, i, app))
      case _ => Err(Serialize(Backend("not an array")))
  }

  /** The writes of the first `n` fields, in declaration order; the first failure stops the write. */
  function SerializeFields(d: Domain, s: StructDef, t: Translation, copy: seq<Value>, app: u16, version: u16, n: nat)
    : (r: Result<seq<byte>>)
    requires |s.impls| == |s.fields| == |copy| && n <= |s.fields| && app as int <= |d.vm.versions|
    ensures r.Ok? <==> forall j :: 0 <= j < n ==> FieldBytes(d, s, t, copy, j, app, version).Ok?
  {
    if n == 0 then Ok([])
    else
      match SerializeFields(d, s, t, copy, app, version, n - 1)
      case Err(e) => Err(e)
      case Ok(prefix) =>
        match FieldBytes(d, s, t, copy, n - 1, app, version)
        case Err(e) => Err(e)
        case Ok(bytes) => Ok(prefix + bytes)
  }

  /** The struct's `serialize` at application version `app`. */
  function SerializeStruct(d: Domain, s: StructDef, t: Translation, x: seq<Value>, app: u16): (r: Result<seq<byte>>)
    requires CanRun(d, s, app) && Typed(s, x)
    ensures r.Ok? ==> SerHooks(s, LocalVersion(d, s, app), x, |s.fields|).Ok?
  {
    var version := LocalVersion(d, s, app);
    match SerHooks(s, version, x, |s.fields|)
    case Err(e) => Err(e)
    case Ok(copy) => SerializeFields(d, s, t, copy, app, version, |s.fields|)
  }

  // ---------------------------------------------------------------------
  // Deserialization.
  // ---------------------------------------------------------------------

  /** The value an absent field takes: its `default_fn` at the local version, or its default. */
  function Absent(s: StructDef, i: nat, version: u16): Value
    requires i < |s.fields| && |s.impls| == |s.fields|
  {
    if s.fields[i].attrs.defaultFn.Some? then s.impls[i].defaultFn(version) else s.impls[i].defaultValue
  }

  /** Reads field `i` from the front of `b`; the rejection branch cannot be reached for a derived struct. */
  function ReadField(d: Domain, s: StructDef, i: nat, b: seq<byte>, app: u16, version: u16)
    : (r: Result<(Value, seq<byte>)>)
    requires |s.impls| == |s.fields| && i < |s.fields| && app as int <= |d.vm.versions|
    ensures !s.fields[i].ExistsAt(version) ==> r == Ok((Absent(s, i, version), b))
  {
    match GenerateDeserializer(s.fields[i], version)
    case Rejected(reason) => Err(Deserialize(Backend(reason)))
    case Generated(FromDefaultFn(_)) => Ok((s.impls[i].defaultFn(version), b))
    case Generated(FromDefault) => Ok((s.impls[i].defaultValue, b))
    case Generated(ReadArray(len)) =>
      (match VecDecode(s.impls[i].codec, b, app)
       case Err(e) => Err(e)
       case Ok((xs, rest)) =>
         if |xs| == len then Ok((Items(xs), rest))
         else Err(Deserialize(Backend("array length mismatch"))))
    case Generated(ReadPath(tn)) => s.impls[i].codec.dec(b, Translate(d, app, tn))
    case Generated(ReadReference) => s.impls[i].codec.dec(b, app)
  }

  /** The first `n` fields, read in declaration order. */
  function DeserializeFields(d: Domain, s: StructDef, b: seq<byte>, app: u16, version: u16, n: nat)
    : (r: Result<(seq<Value>, seq<byte>)>)
    requires |s.impls| == |s.fields| && n <= |s.fields| && app as int <= |d.vm.versions|
    ensures r.Ok? ==> |r.value.0| == n
  {
    if n == 0 then Ok(([], b))
    else
      match DeserializeFields(d, s, b, app, version, n - 1)
      case Err(e) => Err(e)
      case Ok((values, rest)) =>
        match ReadField(d, s, n - 1, rest, app, version)
        case Err(e) => Err(e)
        case Ok((x, rest2)) => Ok((values + [x], rest2))
  }

  /** The semantic deserializers of the first `n` fields, in order, on the rebuilt object. */
  function DeHooks(s: StructDef, version: u16, x: seq<Value>, n: nat): (r: Result<seq<Value>>)
    requires HooksKeepShape(s) && |x| == |s.fields| && n <= |s.fields|
    ensures r.Ok? ==> |r.value| == |s.fields|
    ensures (forall j :: 0 <= j < n ==> GenerateSemanticDeserializer(s.fields[j], version).None?) ==> r == Ok(x)
  {
    if n == 0 then Ok(x)
    else
      match DeHooks(s, version, x, n - 1)
      case Err(e) => Err(e)
      case Ok(rebuilt) =>
        if GenerateSemanticDeserializer(s.fields[n - 1], version).Some? then s.impls[n - 1].semanticDe(rebuilt, version)
        else Ok(rebuilt)
  }

  /** The struct's `deserialize` at application version `app`. */
  function DeserializeStruct(d: Domain, s: StructDef, b: seq<byte>, app: u16): (r: Result<(seq<Value>, seq<byte>)>)
    requires CanRun(d, s, app)
    ensures r.Ok? ==> |r.value.0| == |s.fields|
  {
    var version := LocalVersion(d, s, app);
    match DeserializeFields(d, s, b, app, version, |s.fields|)
    case Err(e) => Err(e)
    case Ok((values, rest)) =>
      match DeHooks(s, version, values, |s.fields|)
      case Err(e) => Err(e)
      case Ok(rebuilt) => Ok((rebuilt, rest))
  }

  // ---------------------------------------------------------------------
  // Round trip.
  // ---------------------------------------------------------------------

  /** What the reader rebuilds before its hooks run: present fields from the copy, absent ones defaulted. */
  function Restore(s: StructDef, copy: seq<Value>, version: u16): (r: seq<Value>)
    requires |copy| == |s.fields| == |s.impls|
    ensures |r| == |s.fields|
    ensures forall i :: 0 <= i < |r| ==> r[i] == (if s.fields[i].ExistsAt(version) then copy[i] else Absent(s, i, version))
  {
    seq(|s.fields|, i requires 0 <= i < |s.fields| =>
      if s.fields[i].ExistsAt(version) then copy[i] else Absent(s, i, version))
  }

  /** A value its field's rule accepts; an array must have its declared length. */
  ghost predicate FieldValueValid(s: StructDef, i: nat, x: Value)
    requires i < |s.fields| == |s.impls|
  {
    match s.fields[i].ty
    case ArrayType(_, len) =>
      x.Items? && len.IntLit? && |x.items| == len.n && |x.items| < TWO_TO_THE_64 &&
      forall j :: 0 <= j < |x.items| ==> s.impls[i].codec.valid(x.items[j])
    case _ => s.impls[i].codec.valid(x)
  }

  ghost predicate PresentValid(s: StructDef, copy: seq<Value>, version: u16)
    requires |copy| == |s.fields| == |s.impls|
  {
    forall i :: 0 <= i < |copy| && s.fields[i].ExistsAt(version) ==> FieldValueValid(s, i, copy[i])
  }

  ghost predicate CodecsRoundTrip(s: StructDef) {
    forall i :: 0 <= i < |s.impls| ==> RoundTrips(s.impls[i].codec)
  }

  /** Whatever follows field `i`'s bytes, reading them gives `x` and leaves what follows. */
  ghost predicate ReadsBack(d: Domain, s: StructDef, copy: seq<Value>, i: nat, app: u16, version: u16, x: Value)
    requires |s.impls| == |s.fields| == |copy| && i < |s.fields| && app as int <= |d.vm.versions|
  {
    FieldBytes(d, s, ByFieldType, copy, i, app, version).Ok? ==>
      forall rest :: ReadField(d, s, i, FieldBytes(d, s, ByFieldType, copy, i, app, version).value + rest, app, version)
                  == Ok((x, rest))
  }

  /** One field: what the field-type-translating writer writes, the reader reads back. */
  lemma FieldRoundTrip(d: Domain, s: StructDef, copy: seq<Value>, i: nat, app: u16, version: u16)
    requires WellFormed(s) && Typed(s, copy) && i < |s.fields|
    requires app as int <= |d.vm.versions| && 1 <= version <= StructVersion(s)
    requires CodecsRoundTrip(s) && PresentValid(s, copy, version)
    ensures ReadsBack(d, s, copy, i, app, version, Restore(s, copy, version)[i])
  {
    var f := s.fields[i];
    var c := s.impls[i].codec;
    if FieldBytes(d, s, ByFieldType, copy, i, app, version).Ok? {
      var bytes := FieldBytes(d, s, ByFieldType, copy, i, app, version).value;
      forall rest
        ensures ReadField(d, s, i, bytes + rest, app, version) == Ok((Restore(s, copy, version)[i], rest))
      {
        if !f.ExistsAt(version) {
          assert bytes + rest == rest;
        } else {
          PresentFieldReadsBack(d, s, copy, i, app, version, rest);
        }
      }
    }
  }

  /** A field present at the local version reads back as the value written. */
  lemma PresentFieldReadsBack(d: Domain, s: StructDef, copy: seq<Value>, i: nat, app: u16, version: u16, rest: seq<byte>)
    requires WellFormed(s) && Typed(s, copy) && i < |s.fields|
    requires app as int <= |d.vm.versions| && 1 <= version <= StructVersion(s)
    requires CodecsRoundTrip(s) && PresentValid(s, copy, version)
    requires s.fields[i].ExistsAt(version) && FieldBytes(d, s, ByFieldType, copy, i, app, version).Ok?
    ensures ReadField(d, s, i, FieldBytes(d, s, ByFieldType, copy, i, app, version).value + rest, app, version)
         == Ok((copy[i], rest))
  {
    var f := s.fields[i];
    var c := s.impls[i].codec;
    var wv := WriteVersion(d, s, ByFieldType, i, app);
    assert FieldValueValid(s, i, copy[i]);
    assert RoundTrips(c);
    assert GenerateSerializer(f, version).Generated? && GenerateDeserializer(f, version).Generated?;
    if f.ty.ArrayType? {
      forall j, r | 0 <= j < |copy[i].items| ensures RoundTripAt(c, copy[i].items[j], wv, r) {
        assert RoundTripAt(c, copy[i].items[j], wv, r);
      }
      VecRoundTrip(c, copy[i].items, wv, rest);
    } else {
      assert RoundTripAt(c, copy[i], wv, rest);
    }
  }

  /**
   * The first `n` fields: when each field's bytes read back as `restored`,
   * the reader rebuilds the first `n` of `restored` and consumes exactly what
   * the writer wrote.
   */
  lemma {:induction false} FieldsRoundTrip(d: Domain, s: StructDef, copy: seq<Value>, app: u16, version: u16,
                                           restored: seq<Value>, n: nat, rest: seq<byte>)
    requires |s.impls| == |s.fields| == |copy| == |restored| && n <= |s.fields| && app as int <= |d.vm.versions|
    requires forall i :: 0 <= i < n ==> ReadsBack(d, s, copy, i, app, version, restored[i])
    requires SerializeFields(d, s, ByFieldType, copy, app, version, n).Ok?
    ensures DeserializeFields(d, s, SerializeFields(d, s, ByFieldType, copy, app, version, n).value + rest, app, version, n)
         == Ok((restored[..n], rest))
  {
    if n > 0 {
      var prefix := SerializeFields(d, s, ByFieldType, copy, app, version, n - 1).value;
      var bytes := FieldBytes(d, s, ByFieldType, copy, n - 1, app, version).value;
      assert SerializeFields(d, s, ByFieldType, copy, app, version, n).value == prefix + bytes;
      assert prefix + bytes + rest == prefix + (bytes + rest);
      FieldsRoundTrip(d, s, copy, app, version, restored, n - 1, bytes + rest);
      assert ReadsBack(d, s, copy, n - 1, app, version, restored[n - 1]);
      assert ReadField(d, s, n - 1, bytes + rest, app, version) == Ok((restored[n - 1], rest));
      assert restored[..n - 1] + [restored[n - 1]] == restored[..n];
    } else {
      assert [] + rest == rest;
    }
  }

  /**
   * With the serializer translating by field type, deserializing what was
   * serialized gives back, after the reader's hooks, the working copy's
   * present fields and the defaults of the absent ones, and consumes exactly
   * the bytes written.
   */
  lemma StructRoundTrip(d: Domain, s: StructDef, x: seq<Value>, app: u16, copy: seq<Value>, rest: seq<byte>)
    requires CanRun(d, s, app) && Typed(s, x)
    requires SerHooks(s, LocalVersion(d, s, app), x, |s.fields|) == Ok(copy)
    requires CodecsRoundTrip(s) && PresentValid(s, copy, LocalVersion(d, s, app))
    requires SerializeStruct(d, s, ByFieldType, x, app).Ok?
    ensures DeserializeStruct(d, s, SerializeStruct(d, s, ByFieldType, x, app).value + rest, app)
         == (var version := LocalVersion(d, s, app);
             match DeHooks(s, version, Restore(s, copy, version), |s.fields|)
             case Err(e) => Err(e)
             case Ok(rebuilt) => Ok((rebuilt, rest)))
  {
    var version := LocalVersion(d, s, app);
    assert SerializeStruct(d, s, ByFieldType, x, app) == SerializeFields(d, s, ByFieldType, copy, app, version, |s.fields|);
    RestoredFields(d, s, copy, app, version, rest);
  }

  /** All fields together read back as the restored values, consuming exactly their bytes. */
  lemma RestoredFields(d: Domain, s: StructDef, copy: seq<Value>, app: u16, version: u16, rest: seq<byte>)
    requires WellFormed(s) && Typed(s, copy)
    requires app as int <= |d.vm.versions| && 1 <= version <= StructVersion(s)
    requires CodecsRoundTrip(s) && PresentValid(s, copy, version)
    requires SerializeFields(d, s, ByFieldType, copy, app, version, |s.fields|).Ok?
    ensures DeserializeFields(d, s, SerializeFields(d, s, ByFieldType, copy, app, version, |s.fields|).value + rest,
                              app, version, |s.fields|)
         == Ok((Restore(s, copy, version), rest))
  {
    var restored := Restore(s, copy, version);
    forall i | 0 <= i < |s.fields| ensures ReadsBack(d, s, copy, i, app, version, restored[i]) {
      FieldRoundTrip(d, s, copy, i, app, version);
    }
    FieldsRoundTrip(d, s, copy, app, version, restored, |s.fields|, rest);
    assert restored[..|s.fields|] == restored;
  }

  /** When every field exists at the struct's local version, the round trip is exact. */
  lemma AllPresentRoundTrip(d: Domain, s: StructDef, x: seq<Value>, app: u16, rest: seq<byte>)
    requires CanRun(d, s, app) && Typed(s, x)
    requires forall i :: 0 <= i < |s.fields| ==> s.fields[i].ExistsAt(LocalVersion(d, s, app))
    requires CodecsRoundTrip(s) && PresentValid(s, x, LocalVersion(d, s, app))
    requires SerializeStruct(d, s, ByFieldType, x, app).Ok?
    ensures DeserializeStruct(d, s, SerializeStruct(d, s, ByFieldType, x, app).value + rest, app) == Ok((x, rest))
  {
    var version := LocalVersion(d, s, app);
    StructRoundTrip(d, s, x, app, x, rest);
    assert Restore(s, x, version) == x;
  }

  /**
   * Neither the enclosing type nor any path-typed field's type is foreign:
   * the two serializers coincide, so the round trip holds for the code as written.
   */
  lemma TranslationsAgree(d: Domain, s: StructDef, x: seq<Value>, app: u16)
    requires CanRun(d, s, app) && Typed(s, x)
    requires s.name !in d.foreign
    requires forall i :: 0 <= i < |s.fields| && s.fields[i].ty.PathType? ==> s.fields[i].ty.name !in d.foreign
    ensures SerializeStruct(d, s, BySelf, x, app) == SerializeStruct(d, s, ByFieldType, x, app)
  {
    var version := LocalVersion(d, s, app);
    if SerHooks(s, version, x, |s.fields|).Ok? {
      var copy := SerHooks(s, version, x, |s.fields|).value;
      SameFields(d, s, copy, app, version, |s.fields|);
    }
  }

  lemma {:induction false} SameFields(d: Domain, s: StructDef, copy: seq<Value>, app: u16, version: u16, n: nat)
    requires |s.impls| == |s.fields| == |copy| && n <= |s.fields| && app as int <= |d.vm.versions|
    requires s.name !in d.foreign
    requires forall i :: 0 <= i < |s.fields| && s.fields[i].ty.PathType? ==> s.fields[i].ty.name !in d.foreign
    ensures SerializeFields(d, s, BySelf, copy, app, version, n) == SerializeFields(d, s, ByFieldType, copy, app, version, n)
  {
    if n > 0 {
      SameFields(d, s, copy, app, version, n - 1);
      SameFieldBytes(d, s, copy, n - 1, app, version);
    }
  }

  lemma SameFieldBytes(d: Domain, s: StructDef, copy: seq<Value>, i: nat, app: u16, version: u16)
    requires |s.impls| == |s.fields| == |copy| && i < |s.fields| && app as int <= |d.vm.versions|
    requires s.name !in d.foreign
    requires s.fields[i].ty.PathType? ==> s.fields[i].ty.name !in d.foreign
    ensures FieldBytes(d, s, BySelf, copy, i, app, version) == FieldBytes(d, s, ByFieldType, copy, i, app, version)
  {
    assert WriteVersion(d, s, BySelf, i, app) == WriteVersion(d, s, ByFieldType, i, app);
  }
}
