/**
 * An enum variant as the derive sees it, and what the derive emits for it
 * in the serializer arm of one local version.
 */
module EnumVariant {
  import opened Common
  import opened Descriptor

  /** The `= ...` part of a variant declaration. */
  datatype DiscriminantExpr =
    | NoDiscriminant
    | IntLiteral(value: nat)   // an integer literal, as written
    | OtherLiteral             // a string, float, ... literal
    | OtherExpr                // a constant, an arithmetic expression, ...

  datatype VariantDecl = VariantDecl(ident: string, discriminant: DiscriminantExpr, attrs: FieldAttrs)

  datatype EnumVariant = EnumVariant(
    ident: string,
    discriminant: u16,
    startVersion: u16,
    endVersion: u16,
    attrs: FieldAttrs)
  {
    predicate ExistsAt(v: u16) {
      Descriptor.ExistsAt(startVersion, endVersion, v)
    }
  }

  const DISCRIMINANT_REQUIRED: string := "A u16 discriminant is required for versioning Enums."

  /**
   * `EnumVariant::new`: every variant needs an integer-literal discriminant
   * that fits a `u16`, or the derive aborts; the range defaults to the base
   * version and "never removed".
   */
  function New(baseVersion: u16, decl: VariantDecl): (r: Derived<EnumVariant>)
    ensures r.Generated? <==> decl.discriminant.IntLiteral? && decl.discriminant.value < 0x1_0000
    ensures r.Generated? ==>
      r.value.ident == decl.ident && r.value.discriminant == decl.discriminant.value && r.value.attrs == decl.attrs
    ensures r.Generated? ==> r.value.startVersion == (if decl.attrs.start.Some? then decl.attrs.start.value else baseVersion)
    ensures r.Generated? ==> r.value.endVersion == (if decl.attrs.end.Some? then decl.attrs.end.value else 0)
  {
    match decl.discriminant
    case IntLiteral(value) =>
      if value < 0x1_0000 then
        Generated(EnumVariant(decl.ident, value, decl.attrs.start.GetOr(baseVersion), decl.attrs.end.GetOr(0), decl.attrs))
      else Rejected("number too large to fit in target type")
    case _ => Rejected(DISCRIMINANT_REQUIRED)
  }

  /** The derive's message for a variant that is absent at `version` and has no `default_fn`. */
  function MissingDefault(ident: string, version: u16): string {
    "Variant " + ident + " does not exist in version " + Decimal(version) + MISSING_DEFAULT_TAIL
  }

  const MISSING_DEFAULT_TAIL: string :=
    ", please implement a default_fn function that provides a default value for this variant."

  /** A number formatted with `{}`: its decimal digits, with no leading zero. */
  function Decimal(n: nat): (r: string)
    ensures |r| >= 1 && forall i :: 0 <= i < |r| ==> '0' <= r[i] <= '9'
    ensures (|r| == 1) <==> n < 10
  {
    var digit := (('0' as int) + n % 10) as char;
    if n < 10 then [digit] else Decimal(n / 10) + [digit]
  }

  /** What the serializer arm does for a variant. */
  datatype Arm =
    | WriteSelf               // the value itself
    | WriteDefault(fn: string)  // the value `self.default_fn(version)` returns

  /**
   * `generate_serializer`: a variant present at the target version writes
   * itself; an absent one is replaced by its `default_fn`'s value, and an
   * absent one without `default_fn` aborts the derive.
   */
  function GenerateSerializer(variant: EnumVariant, targetVersion: u16): (r: Derived<Arm>)
    ensures variant.ExistsAt(targetVersion) <==> r == Generated(WriteSelf)
    ensures r.Rejected? <==> !variant.ExistsAt(targetVersion) && variant.attrs.defaultFn.None?
    ensures r.Generated? && r.value.WriteDefault? ==> r.value.fn == variant.attrs.defaultFn.value
  {
    if !variant.ExistsAt(targetVersion) then
      match variant.attrs.defaultFn
      case Some(fn) => Generated(WriteDefault(fn))
      case None => Rejected(MissingDefault(variant.ident, targetVersion))
    else Generated(WriteSelf)
  }
}
