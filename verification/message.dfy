/**
 * The `Message` FAM header of the primitives tests: three `u32` fields, a
 * `u16` `extra_value` added in version 2 whose `default_fn` answers 321, and
 * a zero-sized `entries` marker; the wrapper carries `u32` entries. The
 * crate's version map is fresh (one root version, nothing set), so
 * `Message` is at its local version 1 and `extra_value` is absent there.
 */
module MessageScenario {
  import opened Common
  import opened Errors
  import opened VersionMap
  import VM = VersionMap
  import opened Primitives
  import opened Descriptor
  import opened StructField
  import opened StructDesc

  /** A field value of an integer kind, as the kind's leaf rule writes and reads it. */
  function IntValueEncode(k: IntKind, x: Value): Result<seq<byte>> {
    Ok(EncodeInt(k, if x.Int? then x.n else 0))
  }

  function IntValueDecode(k: IntKind, b: seq<byte>): Result<(Value, seq<byte>)> {
    match DecodeInt(k, b)
    case Err(e) => Err(e)
    case Ok((n, rest)) => Ok((Int(n), rest))
  }

  predicate IntValueValid(k: IntKind, x: Value) {
    x.Int? && InRange(k, x.n)
  }

  function IntValueCodec(k: IntKind): Codec<Value> {
    Codec(x => IntValueValid(k, x), (x, v) => IntValueEncode(k, x), (b, v) => IntValueDecode(k, b))
  }

  lemma IntValueRoundTrips(k: IntKind)
    requires IsIntKind(k)
    ensures RoundTrips(IntValueCodec(k))
  {
    forall x, v, rest ensures RoundTripAt(IntValueCodec(k), x, v, rest) {
      if IntValueValid(k, x) {
        IntRoundTrip(k, x.n, rest);
      }
    }
  }

  /** `__IncompleteArrayField`: writes nothing and reads nothing. */
  const MarkerCodec: Codec<Value> :=
    Codec(x => x == Nothing, (x, v) => Ok([]), (b, v) => Ok((Nothing, b)))

  function DefaultExtraValue(sourceVersion: u16): Value {
    Int(321)
  }

  function NoHook(x: seq<Value>, v: u16): Result<seq<Value>> {
    Ok(x)
  }

  const EXTRA_VALUE_ATTRS: FieldAttrs := FieldAttrs(Some(2), None, Some("default_extra_value"), None, None)

  const MESSAGE: StructDef := StructDef(
    "Message",
    [ StructField(PathType("u32"), "len", 1, 0, NO_ATTRS),
      StructField(PathType("u32"), "padding", 1, 0, NO_ATTRS),
      StructField(PathType("u32"), "value", 1, 0, NO_ATTRS),
      StructField(PathType("u16"), "extra_value", 2, 0, EXTRA_VALUE_ATTRS),
      StructField(PathType("__IncompleteArrayField"), "entries", 1, 0, NO_ATTRS)],
    [ FieldImpl(IntValueCodec(U32), Int(0), _ => Int(0), NoHook, NoHook),
      FieldImpl(IntValueCodec(U32), Int(0), _ => Int(0), NoHook, NoHook),
      FieldImpl(IntValueCodec(U32), Int(0), _ => Int(0), NoHook, NoHook),
      FieldImpl(IntValueCodec(U16), Int(0), DefaultExtraValue, NoHook, NoHook),
      FieldImpl(MarkerCodec, Nothing, _ => Nothing, NoHook, NoHook)])

  /** The crate of the tests: a fresh version map and no foreign types. */
  const CRATE: Domain := Domain(VM.New(), [])

  /** A `Message` value: three `u32`s, a `u16` and the marker. */
  predicate IsMessage(x: seq<Value>) {
    |x| == 5 && IntValueValid(U32, x[0]) && IntValueValid(U32, x[1]) && IntValueValid(U32, x[2]) &&
    IntValueValid(U16, x[3]) && x[4] == Nothing
  }

  lemma MarkerRoundTrips()
    ensures RoundTrips(MarkerCodec)
  {
    forall x, v, rest ensures RoundTripAt(MarkerCodec, x, v, rest) {
      assert [] + rest == rest;
    }
  }

  lemma MessageVersion()
    ensures StructVersion(MESSAGE) == 2
  {
    var bounds := Bounds(MESSAGE.fields);
    assert bounds == [(1, 0), (1, 0), (1, 0), (2, 0), (1, 0)];
    assert bounds[3].0 == 2;
    assert forall i :: 0 <= i < 5 ==> bounds[i].0 <= 2 && bounds[i].1 <= 2;
  }

  lemma MessageCodecsRoundTrip()
    ensures CodecsRoundTrip(MESSAGE)
  {
    IntValueRoundTrips(U32);
    IntValueRoundTrips(U16);
    MarkerRoundTrips();
    forall i | 0 <= i < 5 ensures RoundTrips(MESSAGE.impls[i].codec) {
      if i == 4 {
        assert MESSAGE.impls[i].codec == MarkerCodec;
      } else if i == 3 {
        assert MESSAGE.impls[i].codec == IntValueCodec(U16);
      } else {
        assert MESSAGE.impls[i].codec == IntValueCodec(U32);
      }
    }
  }

  /** The fresh map has one root version: `Message` is at its version 1 for application versions 0 and 1. */
  lemma MessageCanRun(app: u16)
    requires app <= 1
    ensures StructVersion(MESSAGE) == 2
    ensures LocalVersion(CRATE, MESSAGE, app) == 1
    ensures CanRun(CRATE, MESSAGE, app)
    ensures CodecsRoundTrip(MESSAGE)
  {
    MessageRuns(app);
    MessageCodecsRoundTrip();
  }

  lemma MessageRuns(app: u16)
    requires app <= 1
    ensures StructVersion(MESSAGE) == 2
    ensures LocalVersion(CRATE, MESSAGE, app) == 1
    ensures CanRun(CRATE, MESSAGE, app)
  {
    MessageVersion();
    assert forall i :: 0 <= i < 5 ==> ReadableShape(MESSAGE.fields[i].ty);
    DerivableIff(MESSAGE);
  }

  /** No field of `Message` has a semantic serializer: the working copy is the value itself. */
  lemma MessageSerHooks(x: seq<Value>)
    requires IsMessage(x)
    ensures HooksKeepShape(MESSAGE) && Typed(MESSAGE, x)
    ensures SerHooks(MESSAGE, 1, x, 5) == Ok(x)
  {
  }

  /** The header bytes at version 1: `len`, `padding` and `value`, four bytes each. */
  function HeaderBytes(x: seq<Value>): seq<byte>
    requires IsMessage(x)
  {
    EncodeInt(U32, x[0].n) + EncodeInt(U32, x[1].n) + EncodeInt(U32, x[2].n)
  }

  /** What each field contributes at version 1. */
  lemma FieldBytesAtVersionOne(x: seq<Value>, i: nat)
    requires IsMessage(x) && i < 5
    ensures FieldBytes(CRATE, MESSAGE, BySelf, x, i, 1, 1) == Ok(if i < 3 then EncodeInt(U32, x[i].n) else [])
  {
    if i < 3 {
      assert MESSAGE.fields[i].ExistsAt(1);
      assert MESSAGE.impls[i].codec == IntValueCodec(U32);
    } else {
      assert !MESSAGE.fields[i].ExistsAt(1) || i == 4;
    }
  }

  /**
   * At version 1 `extra_value` is not written, whatever it holds: the header
   * is the twelve bytes of the three `u32` fields.
   */
  lemma HeaderFields(x: seq<Value>)
    requires IsMessage(x)
    ensures SerializeFields(CRATE, MESSAGE, BySelf, x, 1, 1, 5) == Ok(HeaderBytes(x))
  {
    var a, b, c := EncodeInt(U32, x[0].n), EncodeInt(U32, x[1].n), EncodeInt(U32, x[2].n);
    FieldBytesAtVersionOne(x, 0);
    FieldBytesAtVersionOne(x, 1);
    FieldBytesAtVersionOne(x, 2);
    FieldBytesAtVersionOne(x, 3);
    FieldBytesAtVersionOne(x, 4);
    assert SerializeFields(CRATE, MESSAGE, BySelf, x, 1, 1, 0) == Ok([]);
    assert [] + a == a;
    assert SerializeFields(CRATE, MESSAGE, BySelf, x, 1, 1, 1) == Ok(a);
    assert SerializeFields(CRATE, MESSAGE, BySelf, x, 1, 1, 2) == Ok(a + b);
    assert SerializeFields(CRATE, MESSAGE, BySelf, x, 1, 1, 3) == Ok(HeaderBytes(x));
    assert HeaderBytes(x) + [] == HeaderBytes(x);
    assert SerializeFields(CRATE, MESSAGE, BySelf, x, 1, 1, 4) == Ok(HeaderBytes(x));
  }

  /**
   * At version 1 `extra_value` is not written, whatever it holds: the header
   * is the twelve bytes of the three `u32` fields.
   */
  lemma HeaderAtVersionOne(x: seq<Value>)
    requires IsMessage(x)
    ensures CanRun(CRATE, MESSAGE, 1) && Typed(MESSAGE, x)
    ensures SerializeStruct(CRATE, MESSAGE, BySelf, x, 1) == Ok(HeaderBytes(x))
    ensures |HeaderBytes(x)| == 12
  {
    MessageRuns(1);
    MessageSerHooks(x);
    HeaderFields(x);
  }

  /**
   * Reading a header written at version 1 restores the three `u32` fields and
   * gives `extra_value` the 321 of its `default_fn`.
   */
  lemma HeaderRoundTrip(x: seq<Value>, rest: seq<byte>)
    requires IsMessage(x)
    ensures CanRun(CRATE, MESSAGE, 1)
    ensures DeserializeStruct(CRATE, MESSAGE, HeaderBytes(x) + rest, 1) == Ok((x[3 := Int(321)], rest))
  {
    MessageCanRun(1);
    HeaderAtVersionOne(x);
    TranslationsAgree(CRATE, MESSAGE, x, 1);
    var bytes := SerializeStruct(CRATE, MESSAGE, ByFieldType, x, 1).value;
    assert bytes == HeaderBytes(x);
    HeaderPresentValid(x);
    MessageSerHooks(x);
    StructRoundTrip(CRATE, MESSAGE, x, 1, x, rest);
    RestoredHeader(x);
  }

  lemma HeaderPresentValid(x: seq<Value>)
    requires IsMessage(x)
    ensures PresentValid(MESSAGE, x, 1)
  {
    forall i | 0 <= i < 5 && MESSAGE.fields[i].ExistsAt(1) ensures FieldValueValid(MESSAGE, i, x[i]) {
      if i == 4 {
        assert MESSAGE.impls[i].codec == MarkerCodec;
      } else {
        assert i < 3;
        assert MESSAGE.impls[i].codec == IntValueCodec(U32);
      }
    }
  }

  lemma RestoredHeader(x: seq<Value>)
    requires IsMessage(x)
    ensures HooksKeepShape(MESSAGE)
    ensures Restore(MESSAGE, x, 1) == x[3 := Int(321)]
    ensures DeHooks(MESSAGE, 1, x[3 := Int(321)], 5) == Ok(x[3 := Int(321)])
  {
    var restored := Restore(MESSAGE, x, 1);
    assert restored[3] == DefaultExtraValue(1);
    assert restored == x[3 := Int(321)];
  }

  // ---------------------------------------------------------------------
  // The FAM wrapper of `Message` with `u32` entries.
  // ---------------------------------------------------------------------

  /**
   * `Message`'s derived rule at an application version. The fresh map has a
   * single root version; a larger application version makes the map lookup
   * panic, which is reported here as an error.
   */
  function MessageEncode(x: seq<Value>, v: u16): Result<seq<byte>> {
    if v <= 1 && Typed(MESSAGE, x) then
      MessageCanRun(v);
      SerializeStruct(CRATE, MESSAGE, BySelf, x, v)
    else Err(Serialize(Backend("no such root version")))
  }

  function MessageDecode(b: seq<byte>, v: u16): Result<(seq<Value>, seq<byte>)> {
    if v <= 1 then
      MessageCanRun(v);
      DeserializeStruct(CRATE, MESSAGE, b, v)
    else Err(Deserialize(Backend("no such root version")))
  }

  const HeaderCodec: Codec<seq<Value>> := Codec(IsMessage, MessageEncode, MessageDecode)

  lemma HeaderCodecAtVersionOne(x: seq<Value>, rest: seq<byte>)
    requires IsMessage(x)
    ensures HeaderCodec.enc(x, 1) == Ok(HeaderBytes(x))
    ensures HeaderCodec.dec(HeaderBytes(x) + rest, 1) == Ok((x[3 := Int(321)], rest))
  {
    HeaderAtVersionOne(x);
    HeaderRoundTrip(x, rest);
  }

  /** `Message::default()`. */
  const DEFAULT_MESSAGE: seq<Value> := [Int(0), Int(0), Int(0), Int(0), Nothing]

  type MessageWrapper = FamWrapper<seq<Value>, int>

  /**
   * What the wrapper lemmas need of the header's rule: at version 1 it writes
   * the twelve header bytes and reads them back with `extra_value` at 321.
   */
  ghost predicate IsHeaderRule(hc: Codec<seq<Value>>) {
    (forall x :: IsMessage(x) ==> hc.valid(x) && hc.enc(x, 1) == Ok(HeaderBytes(x))) &&
    (forall x, r :: IsMessage(x) ==> hc.dec(HeaderBytes(x) + r, 1) == Ok((x[3 := Int(321)], r)))
  }

  /** `Message`'s derived rule is such a rule. */
  lemma HeaderCodecIsHeaderRule()
    ensures IsHeaderRule(HeaderCodec)
  {
    forall x | IsMessage(x) ensures HeaderCodec.enc(x, 1) == Ok(HeaderBytes(x)) {
      HeaderCodecAtVersionOne(x, []);
    }
    forall x, r | IsMessage(x) ensures HeaderCodec.dec(HeaderBytes(x) + r, 1) == Ok((x[3 := Int(321)], r)) {
      HeaderCodecAtVersionOne(x, r);
    }
  }

  lemma HeaderRule(hc: Codec<seq<Value>>, x: seq<Value>)
    requires IsHeaderRule(hc) && IsMessage(x)
    ensures hc.valid(x) && hc.enc(x, 1) == Ok(HeaderBytes(x)) && |HeaderBytes(x)| == 12
    ensures forall r :: hc.dec(hc.enc(x, 1).value + r, 1) == Ok((x[3 := Int(321)], r))
  {
    forall r ensures hc.dec(hc.enc(x, 1).value + r, 1) == Ok((x[3 := Int(321)], r)) {
      assert hc.dec(HeaderBytes(x) + r, 1) == Ok((x[3 := Int(321)], r));
    }
  }

  /** `FamStructWrapper<Message>`'s rule, over the header's rule. */
  function WrapperCodec(hc: Codec<seq<Value>>): Codec<MessageWrapper> {
    FamCodec(hc, IntCodec(U32), DEFAULT_MESSAGE)
  }

  /** A wrapper of `Message` headers and `u32` entries. */
  predicate IsWrapper(w: MessageWrapper) {
    IsMessage(w.header) && |w.entries| < TWO_TO_THE_64 && forall i :: 0 <= i < |w.entries| ==> InRange(U32, w.entries[i])
  }

  /**
   * Whatever a wrapper's `extra_value`, writing it at version 1 and reading
   * it back restores the header's `u32` fields and the entries, and sets
   * `extra_value` to the 321 of its `default_fn`.
   */
  lemma WrapperRoundTrip(hc: Codec<seq<Value>>, w: MessageWrapper, rest: seq<byte>)
    requires IsHeaderRule(hc) && IsWrapper(w)
    ensures WrapperCodec(hc).enc(w, 1).Ok?
    ensures WrapperCodec(hc).dec(WrapperCodec(hc).enc(w, 1).value + rest, 1)
         == Ok((FamWrapper(w.header[3 := Int(321)], w.entries), rest))
  {
    IntRoundTrips(U32);
    forall i, r | 0 <= i < |w.entries| ensures RoundTripAt(IntCodec(U32), w.entries[i], 1, r) {
      assert RoundTripAt(IntCodec(U32), w.entries[i], 1, r);
    }
    HeaderRule(hc, w.header);
    FamRoundTrip(hc, IntCodec(U32), w, DEFAULT_MESSAGE, 1, w.header[3 := Int(321)], rest);
  }

  /** `Message::len()`: its `len` field, which the FAM wrapper takes as its entry count. */
  function MessageLen(x: seq<Value>): nat {
    if |x| > 0 && x[0].Int? && x[0].n >= 0 then x[0].n else 0
  }

  /**
   * A header whose `len` disagrees with the entries that follow it: with `len`
   * 1 before two entries, both entries are read back but the wrapper exposes
   * only the first; with `len` 3 it would read past the two entries.
   */
  lemma MismatchedLen(hc: Codec<seq<Value>>, rest: seq<byte>)
    requires IsHeaderRule(hc)
    ensures var w := FamWrapper([Int(1), Int(0), Int(0), Int(321), Nothing], [10, 20]);
            WrapperCodec(hc).enc(w, 1).Ok?
            && WrapperCodec(hc).dec(WrapperCodec(hc).enc(w, 1).value + rest, 1) == Ok((w, rest))
            && AsSlice(MessageLen, w) == Some([10])
    ensures var w := FamWrapper([Int(3), Int(0), Int(0), Int(321), Nothing], [10, 20]);
            WrapperCodec(hc).enc(w, 1).Ok?
            && WrapperCodec(hc).dec(WrapperCodec(hc).enc(w, 1).value + rest, 1) == Ok((w, rest))
            && AsSlice(MessageLen, w).None?
  {
    var short: MessageWrapper := FamWrapper([Int(1), Int(0), Int(0), Int(321), Nothing], [10, 20]);
    var long: MessageWrapper := FamWrapper([Int(3), Int(0), Int(0), Int(321), Nothing], [10, 20]);
    assert IsWrapper(short) && IsWrapper(long);
    WrapperRoundTrip(hc, short, rest);
    WrapperRoundTrip(hc, long, rest);
    assert short.header[3 := Int(321)] == short.header;
    assert long.header[3 := Int(321)] == long.header;
    assert [10, 20][..1] == [10];
  }

  /** A wrapper takes the 12-byte header, the 8-byte entry count and four bytes per entry. */
  lemma WrapperLength(hc: Codec<seq<Value>>, w: MessageWrapper)
    requires IsHeaderRule(hc) && IsWrapper(w)
    ensures WrapperCodec(hc).enc(w, 1).Ok? && |WrapperCodec(hc).enc(w, 1).value| == 20 + 4 * |w.entries|
  {
    HeaderRule(hc, w.header);
    ElementsLength(IntCodec(U32), w.entries, 1, 4);
    var eb := VecEncode(IntCodec(U32), w.entries, 1).value;
    assert FamEncode(hc, IntCodec(U32), w, 1) == Ok(HeaderBytes(w.header) + eb);
    assert WrapperCodec(hc).enc(w, 1) == FamEncode(hc, IntCodec(U32), w, 1);
  }

  /** Saving a wrapper into a slice with less room than it takes fails rather than truncating. */
  lemma WrapperSave(hc: Codec<seq<Value>>, w: MessageWrapper, capacity: nat)
    requires IsHeaderRule(hc) && IsWrapper(w)
    ensures capacity < 20 + 4 * |w.entries| <==> SerializeInto(WrapperCodec(hc), w, Sink([], Some(capacity)), 1).Err?
    ensures capacity < 20 + 4 * |w.entries| ==>
      SerializeInto(WrapperCodec(hc), w, Sink([], Some(capacity)), 1).error.Serialize?
  {
    WrapperLength(hc, w);
    var bytes := WrapperCodec(hc).enc(w, 1).value;
    assert SerializeInto(WrapperCodec(hc), w, Sink([], Some(capacity)), 1) == WriteAll(Sink([], Some(capacity)), bytes);
  }

  /**
   * A `Vec` holding the same wrapper twice, with `extra_value` already at
   * 321, written at version 1, reads back equal.
   */
  lemma PairRoundTrip(hc: Codec<seq<Value>>, w: MessageWrapper, rest: seq<byte>)
    requires IsHeaderRule(hc) && IsWrapper(w) && w.header[3] == Int(321)
    ensures VecEncode(WrapperCodec(hc), [w, w], 1).Ok?
    ensures VecDecode(WrapperCodec(hc), VecEncode(WrapperCodec(hc), [w, w], 1).value + rest, 1) == Ok(([w, w], rest))
  {
    SettledWrapperRoundTrips(hc, w);
    TwiceRoundTrip(WrapperCodec(hc), w, 1, rest);
  }

  /** With `extra_value` already at 321, a wrapper reads back exactly as written. */
  lemma SettledWrapperRoundTrips(hc: Codec<seq<Value>>, w: MessageWrapper)
    requires IsHeaderRule(hc) && IsWrapper(w) && w.header[3] == Int(321)
    ensures WrapperCodec(hc).valid(w) && WrapperCodec(hc).enc(w, 1).Ok?
    ensures forall r :: RoundTripAt(WrapperCodec(hc), w, 1, r)
  {
    assert w.header[3 := Int(321)] == w.header;
    HeaderRule(hc, w.header);
    forall r ensures RoundTripAt(WrapperCodec(hc), w, 1, r) {
      WrapperRoundTrip(hc, w, r);
    }
  }

  /** A value that reads back exactly also does so twice over in a `Vec`. */
  lemma TwiceRoundTrip<T>(c: Codec<T>, x: T, v: u16, rest: seq<byte>)
    requires c.valid(x) && c.enc(x, v).Ok?
    requires forall r :: RoundTripAt(c, x, v, r)
    ensures VecEncode(c, [x, x], v).Ok?
    ensures VecDecode(c, VecEncode(c, [x, x], v).value + rest, v) == Ok(([x, x], rest))
  {
    var xs := [x, x];
    ElementsLength(c, xs, v, |c.enc(x, v).value|);
    VecRoundTrip(c, xs, v, rest);
  }

  /** The wrapper of the tests: `len` 2, `padding` 123, `extra_value` 321, entries 10 and 20; it takes 28 bytes. */
  const SAMPLE: MessageWrapper := FamWrapper([Int(2), Int(123), Int(0), Int(321), Nothing], [10, 20])

  lemma SampleIsWrapper()
    ensures IsWrapper(SAMPLE) && SAMPLE.header[3] == Int(321)
    ensures 20 + 4 * |SAMPLE.entries| == 28
  {
  }
}
