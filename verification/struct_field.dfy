/**
 * A struct field as the derive sees it, and what the derive emits for it at
 * one local version: whether and how the field is written, how it is
 * materialised on read, and which semantic hook runs. The emitted code is
 * represented by what it does (a `Write`, a `Read`, a hook name), not by
 * its tokens; its runtime meaning is in the `StructDesc` module.
 */
module StructField {
  import opened Common
  import opened VersionMap
  import opened Descriptor

  /** The length expression of an array type `[T; len]`. */
  datatype LenExpr =
    | IntLit(n: nat)   // an integer literal
    | OtherLit         // a literal of another kind
    | NotLiteral       // a constant, an arithmetic expression, ...

  /** The syntactic shape of a field's declared type. */
  datatype FieldType =
    | PathType(name: TypeName)            // `u32`, `Vec<T>`, `crate::Foo`, ...
    | ReferenceType(name: TypeName)       // `&'static str`, ...
    | ArrayType(elem: FieldType, len: LenExpr)
    | OtherType                           // tuples, slices, raw pointers, ...

  datatype StructField = StructField(
    ty: FieldType,
    name: string,
    startVersion: u16,
    endVersion: u16,
    attrs: FieldAttrs)
  {
    predicate ExistsAt(v: u16) {
      Descriptor.ExistsAt(startVersion, endVersion, v)
    }
  }

  /**
   * `StructField::new`: the annotated range, with the start defaulting to the
   * enclosing type's base version and the end to 0 (never removed).
   */
  function New(baseVersion: u16, ty: FieldType, name: string, attrs: FieldAttrs): (r: StructField)
    ensures r.ty == ty && r.name == name && r.attrs == attrs
    ensures attrs.start.Some? ==> r.startVersion == attrs.start.value
    ensures attrs.end.Some? ==> r.endVersion == attrs.end.value
    ensures attrs.start.None? && attrs.end.None? ==> forall v: u16 :: r.ExistsAt(v) <==> baseVersion <= v
  {
    StructField(ty, name, attrs.start.GetOr(baseVersion), attrs.end.GetOr(0), attrs)
  }

  /** How a present field is written: its own rule, or as a `Vec` of an array's elements. */
  datatype Write = WriteValue | WriteVec

  /**
   * `generate_serializer`: nothing for an absent field; otherwise a write at
   * the (possibly translated) application version. A present field of an
   * unsupported shape aborts the derive.
   */
  function GenerateSerializer(f: StructField, targetVersion: u16): (r: Derived<Option<Write>>)
    ensures !f.ExistsAt(targetVersion) ==> r == Generated(None)
    ensures f.ExistsAt(targetVersion) ==>
      (r.Rejected? <==> f.ty.OtherType?) &&
      (r.Generated? ==> r.value.Some? && (r.value.value == WriteVec <==> f.ty.ArrayType?))
  {
    if !f.ExistsAt(targetVersion) then Generated(None)
    else
      match f.ty
      case ArrayType(_, _) => Generated(Some(WriteVec))
      case PathType(_) => Generated(Some(WriteValue))
      case ReferenceType(_) => Generated(Some(WriteValue))
      case OtherType => Rejected("Unsupported field type")
  }

  /** How a field is materialised on read. */
  datatype Read =
    | FromDefaultFn(fn: string)       // `Self::default_fn(version)`, no bytes read
    | FromDefault                     // `Default::default()`, no bytes read
    | ReadArray(len: nat)             // a `Vec` of the elements, turned into `[T; len]`
    | ReadPath(typeName: TypeName)    // the type's own rule, version translated if it is foreign
    | ReadReference                   // the type's own rule at the application version

  /** A field type the deserializer can read when the field is present. */
  predicate ReadableShape(ty: FieldType) {
    match ty
    case PathType(_) => true
    case ReferenceType(_) => true
    case ArrayType(elem, len) => elem.PathType? && len.IntLit?
    case OtherType => false
  }

  /**
   * `generate_deserializer`: an absent field takes its `default_fn` or the
   * type's default; a present one is read according to its shape. Arrays
   * need a path element type and an integer-literal length, otherwise the
   * derive aborts, as it does for unsupported shapes.
   */
  function GenerateDeserializer(f: StructField, sourceVersion: u16): (r: Derived<Read>)
    ensures !f.ExistsAt(sourceVersion) ==>
      r == Generated(if f.attrs.defaultFn.Some? then FromDefaultFn(f.attrs.defaultFn.value) else FromDefault)
    ensures f.ExistsAt(sourceVersion) ==> (r.Generated? <==> ReadableShape(f.ty))
    ensures f.ExistsAt(sourceVersion) && r.Generated? ==>
      match f.ty
      case PathType(n) => r.value == ReadPath(n)
      case ReferenceType(_) => r.value == ReadReference
      case ArrayType(_, len) => r.value == ReadArray(len.n)
      case OtherType => false
  {
    if !f.ExistsAt(sourceVersion) then
      if f.attrs.defaultFn.Some? then Generated(FromDefaultFn(f.attrs.defaultFn.value))
      else Generated(FromDefault)
    else
      match f.ty
      case ArrayType(elem, len) =>
        if !elem.PathType? then Rejected("Unsupported array type.")
        else if len.OtherLit? then Rejected("Unsupported array len literal.")
        else if len.NotLiteral? then Rejected("Unsupported array len expression.")
        else Generated(ReadArray(len.n))
      case PathType(n) => Generated(ReadPath(n))
      case ReferenceType(_) => Generated(ReadReference)
      case OtherType => Rejected("Unsupported field type")
  }

  /** `generate_semantic_serializer`: the hook on the working copy, only for an absent field. */
  function GenerateSemanticSerializer(f: StructField, targetVersion: u16): (r: Option<string>)
    ensures r.Some? <==> !f.ExistsAt(targetVersion) && f.attrs.semanticSerFn.Some?
    ensures r.Some? ==> r.value == f.attrs.semanticSerFn.value
  {
    if !f.ExistsAt(targetVersion) then f.attrs.semanticSerFn else None
  }

  /** `generate_semantic_deserializer`: the hook on the rebuilt object, only for an absent field. */
  function GenerateSemanticDeserializer(f: StructField, sourceVersion: u16): (r: Option<string>)
    ensures r.Some? <==> !f.ExistsAt(sourceVersion) && f.attrs.semanticDeFn.Some?
    ensures r.Some? ==> r.value == f.attrs.semanticDeFn.value
  {
    if !f.ExistsAt(sourceVersion) then f.attrs.semanticDeFn else None
  }

  /**
   * A field is never both written and defaulted at one version, and a field
   * is written exactly when the reader reads it: the writer and the reader
   * agree on which fields are on the wire.
   */
  lemma WireAgreement(f: StructField, v: u16)
    requires GenerateSerializer(f, v).Generated? && GenerateDeserializer(f, v).Generated?
    ensures GenerateSerializer(f, v).value.Some? <==>
      !(GenerateDeserializer(f, v).value.FromDefaultFn? || GenerateDeserializer(f, v).value.FromDefault?)
    ensures GenerateSemanticSerializer(f, v).Some? ==> GenerateSerializer(f, v).value.None?
    ensures GenerateSemanticDeserializer(f, v).Some? ==> !GenerateDeserializer(f, v).value.ReadPath?
  {
  }

  /** Derive-time rejection depends on the shape alone, never on the values later written. */
  lemma GenerationIsTotalForReadableShapes(f: StructField, v: u16)
    requires ReadableShape(f.ty)
    ensures GenerateSerializer(f, v).Generated? && GenerateDeserializer(f, v).Generated?
  {
  }

  /** An absent field of any shape never aborts the derive. */
  lemma AbsentFieldsNeverReject(f: StructField, v: u16)
    requires !f.ExistsAt(v)
    ensures GenerateSerializer(f, v) == Generated(None)
    ensures GenerateDeserializer(f, v).Generated?
  {
  }
}
