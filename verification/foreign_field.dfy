/**
 * A struct with one field of a foreign type, where the two translations of
 * the application version disagree.
 *
 * `Inner` is foreign and the version map sends application version 1 to its
 * local version 2; `Inner`'s rule writes one byte below version 2 and two
 * bytes from version 2 on. `Outer`, not foreign, holds one `Inner` field.
 * The emitted serializer writes the field at version 1 (it asks whether
 * `Outer` is foreign), the emitted deserializer reads it at version 2 (it
 * asks whether `Inner` is): the one byte written cannot be read back.
 */
module ForeignField {
  import opened Common
  import opened Errors
  import opened VersionMap
  import opened Primitives
  import opened Descriptor
  import opened StructField
  import SF = StructField
  import opened StructDesc

  /** `Inner`'s rule: a byte, followed by a zero padding byte from version 2 on. */
  function InnerWidth(v: u16): nat {
    if v < 2 then 1 else 2
  }

  function InnerEncode(x: Value, v: u16): Result<seq<byte>> {
    var b: byte := if x.Int? && 0 <= x.n < 256 then x.n else 0;
    Ok(if v < 2 then [b] else [b, 0])
  }

  function InnerDecode(b: seq<byte>, v: u16): Result<(Value, seq<byte>)> {
    if |b| < InnerWidth(v) then Err(UNEXPECTED_EOF)
    else Ok((Int(b[0]), b[InnerWidth(v)..]))
  }

  predicate InnerValid(x: Value) {
    x.Int? && 0 <= x.n < 256
  }

  const INNER: Codec<Value> := Codec(InnerValid, InnerEncode, InnerDecode)

  /** `Inner`'s rule is a sound rule on its own: it round-trips at every version. */
  lemma InnerRoundTrips()
    ensures RoundTrips(INNER)
  {
    forall x, v, rest ensures RoundTripAt(INNER, x, v, rest) {
      if INNER.valid(x) {
        var bytes := InnerEncode(x, v).value;
        assert (bytes + rest)[0] == x.n;
        assert (bytes + rest)[InnerWidth(v)..] == rest;
      }
    }
  }

  const DOMAIN: Domain := Domain(VersionMap([map["Inner" := 2]]), ["Inner"])

  function KeepHook(x: seq<Value>, v: u16): Result<seq<Value>> {
    Ok(x)
  }

  const OUTER: StructDef := StructDef(
    "Outer",
    [SF.New(1, PathType("Inner"), "inner", NO_ATTRS)],
    [FieldImpl(INNER, Int(0), _ => Int(0), KeepHook, KeepHook)])

  lemma OuterCanRun()
    ensures CanRun(DOMAIN, OUTER, 1)
    ensures LocalVersion(DOMAIN, OUTER, 1) == 1
    ensures Translate(DOMAIN, 1, "Inner") == 2
    ensures CodecsRoundTrip(OUTER)
  {
    assert "Outer" != "Inner";
    assert DOMAIN.vm.versions[..1] == [map["Inner" := 2]];
    assert IsLatestEntry(DOMAIN.vm.versions[..1], "Inner", 0);
    assert Bounds(OUTER.fields) == [(1, 0)];
    InnerRoundTrips();
  }

  /**
   * The code as written: the serializer writes one byte, and the
   * deserializer, expecting two, runs out of input.
   */
  lemma AsWrittenLosesField()
    ensures CanRun(DOMAIN, OUTER, 1)
    ensures SerializeStruct(DOMAIN, OUTER, BySelf, [Int(7)], 1) == Ok([7])
    ensures DeserializeStruct(DOMAIN, OUTER, [7], 1) == Err(UNEXPECTED_EOF)
  {
    OuterCanRun();
    assert SerializeFields(DOMAIN, OUTER, BySelf, [Int(7)], 1, 1, 0) == Ok([]);
    assert [] + [7] == [7];
    assert DeserializeFields(DOMAIN, OUTER, [7], 1, 1, 0) == Ok(([], [7]));
    assert ReadField(DOMAIN, OUTER, 0, [7], 1, 1) == Err(UNEXPECTED_EOF);
  }

  /** Translating by the field's type, the same value writes two bytes and reads back. */
  lemma CorrectedRoundTrips()
    ensures CanRun(DOMAIN, OUTER, 1)
    ensures SerializeStruct(DOMAIN, OUTER, ByFieldType, [Int(7)], 1) == Ok([7, 0])
    ensures DeserializeStruct(DOMAIN, OUTER, [7, 0], 1) == Ok(([Int(7)], []))
  {
    OuterCanRun();
    assert SerializeFields(DOMAIN, OUTER, ByFieldType, [Int(7)], 1, 1, 0) == Ok([]);
    assert [] + [7, 0] == [7, 0];
    assert DeserializeFields(DOMAIN, OUTER, [7, 0], 1, 1, 0) == Ok(([], [7, 0]));
    assert ReadField(DOMAIN, OUTER, 0, [7, 0], 1, 1) == Ok((Int(7), []));
    assert [] + [Int(7)] == [Int(7)];
    assert DeHooks(OUTER, 1, [Int(7)], 1) == Ok([Int(7)]);
  }
}
