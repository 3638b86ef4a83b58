/**
 * The built-in Versionize rules: version-blind leaves (integers, bool, char,
 * String), the length-prefixed `Vec<T>` rule and the FAM (flexible array
 * member) wrapper rule, over a byte stream.
 *
 * A type's Versionize implementation is a `Codec`: which values it accepts,
 * how it writes a value at a version, and how it reads one back from the
 * front of a byte stream, returning the bytes it did not consume.
 */
module Primitives {
  import opened Common
  import opened Errors
  import Utf8

  datatype Codec<!T> = Codec(
    valid: T -> bool,
    enc: (T, u16) -> Result<seq<byte>>,
    dec: (seq<byte>, u16) -> Result<(T, seq<byte>)>)

  /** Reading back what was written at version `v`, followed by anything, gives the value and the rest. */
  ghost predicate RoundTripAt<T>(c: Codec<T>, x: T, v: u16, rest: seq<byte>) {
    c.valid(x) && c.enc(x, v).Ok? ==> c.dec(c.enc(x, v).value + rest, v) == Ok((x, rest))
  }

  ghost predicate RoundTrips<T(!new)>(c: Codec<T>) {
    forall x, v, rest :: RoundTripAt(c, x, v, rest)
  }

  /** Writing never fails for an accepted value. */
  ghost predicate Total<T(!new)>(c: Codec<T>) {
    forall x, v :: c.valid(x) ==> c.enc(x, v).Ok?
  }

  /** `version()` of every built-in rule: leaves, `Vec<T>` and FAM wrappers are at version 1. */
  const BUILTIN_VERSION: u16 := 1

  // ---------------------------------------------------------------------
  // Leaves: a fixed, version-independent binary encoding.
  // ---------------------------------------------------------------------

  /** A fixed-width integer type: its width in bytes and whether it is signed. */
  datatype IntKind = IntKind(size: nat, signed: bool)

  const U8: IntKind := IntKind(1, false)
  const U16: IntKind := IntKind(2, false)
  const U32: IntKind := IntKind(4, false)
  const U64: IntKind := IntKind(8, false)
  const I8: IntKind := IntKind(1, true)
  const I16: IntKind := IntKind(2, true)
  const I32: IntKind := IntKind(4, true)
  const I64: IntKind := IntKind(8, true)
  /** `usize` and `isize` on the 64-bit targets the engine runs on. */
  const USIZE: IntKind := IntKind(8, false)
  const ISIZE: IntKind := IntKind(8, true)

  predicate IsIntKind(k: IntKind) {
    k.size in {1, 2, 4, 8}
  }

  function MinOf(k: IntKind): int {
    if k.signed then -(Pow256(k.size) / 2) else 0
  }

  /** `MAX` of the integer type. */
  function MaxOf(k: IntKind): int {
    (if k.signed then Pow256(k.size) / 2 else Pow256(k.size)) - 1
  }

  predicate InRange(k: IntKind, x: int) {
    MinOf(k) <= x <= MaxOf(k)
  }

  /** Little-endian two's complement in exactly `k.size` bytes. */
  function EncodeInt(k: IntKind, x: int): (r: seq<byte>)
    ensures |r| == k.size
  {
    EncodeLE(x % Pow256(k.size), k.size)
  }

  function DecodeInt(k: IntKind, b: seq<byte>): (r: Result<(int, seq<byte>)>)
    ensures r.Ok? <==> |b| >= k.size
    ensures r.Ok? ==> r.value.1 == b[k.size..]
    ensures r.Err? ==> r.error == UNEXPECTED_EOF
  {
    if |b| < k.size then Err(UNEXPECTED_EOF)
    else
      var u := DecodeLE(b[..k.size]);
      var x := if k.signed && u >= Pow256(k.size) / 2 then u - Pow256(k.size) else u;
      Ok((x, b[k.size..]))
  }

  /** Every integer of the type, `MAX` included, reads back as itself. */
  lemma IntRoundTrip(k: IntKind, x: int, rest: seq<byte>)
    requires IsIntKind(k) && InRange(k, x)
    ensures DecodeInt(k, EncodeInt(k, x) + rest) == Ok((x, rest))
  {
    var n := Pow256(k.size);
    var e := EncodeInt(k, x);
    assert (e + rest)[..k.size] == e;
    assert (e + rest)[k.size..] == rest;
    assert n == 256 * Pow256(k.size - 1);
    if x < 0 {
      ModOfNegative(x, n);
    } else {
      ModOfSmall(x, n);
    }
    DecodeEncodeLE(x % n, k.size);
  }

  function EncodeBool(x: bool): (r: seq<byte>)
    ensures |r| == 1
  {
    [if x then 1 else 0]
  }

  function DecodeBool(b: seq<byte>): (r: Result<(bool, seq<byte>)>)
    ensures r.Ok? <==> |b| >= 1 && b[0] in {0, 1}
    ensures r.Ok? ==> r.value == (b[0] == 1, b[1..])
    ensures r.Err? ==> r.error.Deserialize?
  {
    if |b| < 1 then Err(UNEXPECTED_EOF)
    else if b[0] == 0 then Ok((false, b[1..]))
    else if b[0] == 1 then Ok((true, b[1..]))
    else Err(Deserialize(Backend("invalid bool encoding")))
  }

  function DecodeCharLeaf(b: seq<byte>): (r: Result<(char, seq<byte>)>)
    ensures r.Ok? <==> Utf8.DecodeChar(b).Some?
    ensures r.Ok? ==> Utf8.EncodeChar(r.value.0) + r.value.1 == b
    ensures r.Err? ==> r.error.Deserialize?
  {
    if |b| == 0 then Err(UNEXPECTED_EOF)
    else if Utf8.Width(b[0]) != 0 && |b| < Utf8.Width(b[0]) then Err(UNEXPECTED_EOF)
    else
      match Utf8.DecodeChar(b)
      case None => Err(Deserialize(Backend("invalid char encoding")))
      case Some((c, w)) =>
        assert b == b[..w] + b[w..];
        Ok((c, b[w..]))
  }

  /** A string is its UTF-8 byte length as a `u64`, then those bytes. */
  function EncodeStr(s: string): (r: seq<byte>)
    ensures |r| == 8 + |Utf8.EncodeString(s)|
  {
    var bytes := Utf8.EncodeString(s);
    EncodeInt(U64, |bytes|) + bytes
  }

  function DecodeStr(b: seq<byte>): (r: Result<(string, seq<byte>)>)
    ensures r.Ok? ==> b == EncodeStr(r.value.0) + r.value.1
    ensures r.Err? ==> r.error.Deserialize?
  {
    match DecodeInt(U64, b)
    case Err(e) => Err(e)
    case Ok((len, rest)) =>
      if |rest| < len then Err(UNEXPECTED_EOF)
      else
        match Utf8.DecodeString(rest[..len])
        case None => Err(Deserialize(Backend("invalid utf-8 string")))
        case Some(s) =>
          StrPrefixIsEncoding(b, len, s);
          Ok((s, rest[len..]))
  }

  /** The bytes a string decode consumes are exactly that string's encoding. */
  lemma StrPrefixIsEncoding(b: seq<byte>, len: int, s: string)
    requires 8 <= |b| && len == DecodeLE(b[..8]) && 8 + len <= |b|
    requires Utf8.DecodeString(b[8..][..len]) == Some(s)
    ensures b == EncodeStr(s) + b[8..][len..]
  {
    var prefix := b[..8];
    var body := b[8..][..len];
    var rest := b[8..][len..];
    Utf8.DecodedIsCanonical(body);
    CanonicalInt(U64, prefix);
    EncodeStrParts(s, prefix, body);
    SplitThree(b, 8, len);
  }

  lemma EncodeStrParts(s: string, prefix: seq<byte>, body: seq<byte>)
    requires Utf8.EncodeString(s) == body && EncodeInt(U64, |body|) == prefix
    ensures EncodeStr(s) == prefix + body
  {
  }

  lemma SplitThree<T>(b: seq<T>, n: nat, len: nat)
    requires n + len <= |b|
    ensures b == b[..n] + b[n..][..len] + b[n..][len..]
  {
    assert b[n..] == b[n..][..len] + b[n..][len..];
  }

  /** Reading an unsigned integer and writing it back gives the same bytes. */
  lemma CanonicalInt(k: IntKind, b: seq<byte>)
    requires !k.signed && |b| == k.size
    ensures EncodeInt(k, DecodeLE(b)) == b
  {
    EncodeDecodeLE(b);
    ModOfSmall(DecodeLE(b), Pow256(k.size));
  }

  const BoolCodec: Codec<bool> :=
    Codec(x => true, (x, v) => Ok(EncodeBool(x)), (b, v) => DecodeBool(b))

  function IntCodec(k: IntKind): Codec<int> {
    Codec(x => InRange(k, x), (x, v) => Ok(EncodeInt(k, x)), (b, v) => DecodeInt(k, b))
  }

  const CharCodec: Codec<char> :=
    Codec(x => true, (x, v) => Ok(Utf8.EncodeChar(x)), (b, v) => DecodeCharLeaf(b))

  /** A string whose UTF-8 length fits the `u64` prefix. */
  const StringCodec: Codec<string> :=
    Codec(s => |Utf8.EncodeString(s)| < TWO_TO_THE_64, (s, v) => Ok(EncodeStr(s)), (b, v) => DecodeStr(b))

  /** Leaves are encoded and decoded alike at every version. */
  lemma LeavesIgnoreVersion(k: IntKind, v1: u16, v2: u16, b: seq<byte>)
    ensures forall x :: BoolCodec.enc(x, v1) == BoolCodec.enc(x, v2)
    ensures BoolCodec.dec(b, v1) == BoolCodec.dec(b, v2)
    ensures forall x :: IntCodec(k).enc(x, v1) == IntCodec(k).enc(x, v2)
    ensures IntCodec(k).dec(b, v1) == IntCodec(k).dec(b, v2)
    ensures forall x :: CharCodec.enc(x, v1) == CharCodec.enc(x, v2)
    ensures CharCodec.dec(b, v1) == CharCodec.dec(b, v2)
    ensures forall x :: StringCodec.enc(x, v1) == StringCodec.enc(x, v2)
    ensures StringCodec.dec(b, v1) == StringCodec.dec(b, v2)
  {
  }

  lemma BoolRoundTrips()
    ensures RoundTrips(BoolCodec) && Total(BoolCodec)
  {
    forall x, v, rest ensures RoundTripAt(BoolCodec, x, v, rest) {
      assert (EncodeBool(x) + rest)[1..] == rest;
    }
  }

  lemma IntRoundTrips(k: IntKind)
    requires IsIntKind(k)
    ensures RoundTrips(IntCodec(k)) && Total(IntCodec(k))
  {
    forall x, v, rest ensures RoundTripAt(IntCodec(k), x, v, rest) {
      if InRange(k, x) {
        IntRoundTrip(k, x, rest);
      }
    }
  }

  lemma CharRoundTrips()
    ensures RoundTrips(CharCodec) && Total(CharCodec)
  {
    forall x, v, rest ensures RoundTripAt(CharCodec, x, v, rest) {
      Utf8.DecodeEncodeChar(x, rest);
      Utf8.EncodeCharShape(x);
      var e := Utf8.EncodeChar(x);
      assert (e + rest)[|e|..] == rest;
    }
  }

  lemma StringRoundTrip(s: string, rest: seq<byte>)
    requires |Utf8.EncodeString(s)| < TWO_TO_THE_64
    ensures DecodeStr(EncodeStr(s) + rest) == Ok((s, rest))
  {
    var bytes := Utf8.EncodeString(s);
    var prefix := EncodeInt(U64, |bytes|);
    IntRoundTrip(U64, |bytes|, bytes + rest);
    assert EncodeStr(s) + rest == prefix + (bytes + rest);
    assert (bytes + rest)[..|bytes|] == bytes;
    assert (bytes + rest)[|bytes|..] == rest;
    Utf8.DecodeEncodeString(s);
  }

  lemma StringRoundTrips()
    ensures RoundTrips(StringCodec) && Total(StringCodec)
  {
    forall x, v, rest ensures RoundTripAt(StringCodec, x, v, rest) {
      if StringCodec.valid(x) {
        StringRoundTrip(x, rest);
      }
    }
  }

  // ---------------------------------------------------------------------
  // Vec<T>: the element count, then each element at the same version.
  // ---------------------------------------------------------------------

  function EncodeElements<T>(c: Codec<T>, xs: seq<T>, v: u16): (r: Result<seq<byte>>)
    ensures r.Ok? <==> forall i :: 0 <= i < |xs| ==> c.enc(xs[i], v).Ok?
    ensures r.Err? ==> exists i :: 0 <= i < |xs| && c.enc(xs[i], v).Err?
                                  && r.error == Serialize(Inner(c.enc(xs[i], v).error))
  {
    if |xs| == 0 then Ok([])
    else
      match c.enc(xs[0], v)
      case Err(e) => Err(Serialize(Inner(e)))
      case Ok(head) =>
        match EncodeElements(c, xs[1..], v)
        case Err(e) =>
          assert forall i :: 1 <= i < |xs| ==> xs[i] == xs[1..][i - 1];
          Err(e)
        case Ok(tail) =>
          assert forall i :: 1 <= i < |xs| ==> xs[i] == xs[1..][i - 1];
          Ok(head + tail)
  }

  /**
   * `Vec<T>::serialize`: the length as a `usize`, then the elements in order.
   * An element's failure is reported as a Serialize error wrapping it.
   */
  function VecEncode<T>(c: Codec<T>, xs: seq<T>, v: u16): (r: Result<seq<byte>>)
    ensures r.Ok? <==> forall i :: 0 <= i < |xs| ==> c.enc(xs[i], v).Ok?
    ensures r.Ok? ==> |r.value| >= 8 && r.value[..8] == EncodeInt(USIZE, |xs|)
    ensures r.Err? ==> exists i :: 0 <= i < |xs| && c.enc(xs[i], v).Err?
                                  && r.error == Serialize(Inner(c.enc(xs[i], v).error))
  {
    match EncodeElements(c, xs, v)
    case Err(e) => Err(e)
    case Ok(body) => Ok(EncodeInt(USIZE, |xs|) + body)
  }

  /** Elements that each take `w` bytes take `w` bytes apiece in a `Vec`, after the 8-byte count. */
  lemma ElementsLength<T>(c: Codec<T>, xs: seq<T>, v: u16, w: nat)
    requires forall i :: 0 <= i < |xs| ==> c.enc(xs[i], v).Ok? && |c.enc(xs[i], v).value| == w
    ensures EncodeElements(c, xs, v).Ok? && |EncodeElements(c, xs, v).value| == w * |xs|
    ensures VecEncode(c, xs, v).Ok? && |VecEncode(c, xs, v).value| == 8 + w * |xs|
  {
    ElementsWidth(c, xs, v, w);
  }

  lemma {:induction false} ElementsWidth<T>(c: Codec<T>, xs: seq<T>, v: u16, w: nat)
    requires forall i :: 0 <= i < |xs| ==> c.enc(xs[i], v).Ok? && |c.enc(xs[i], v).value| == w
    ensures EncodeElements(c, xs, v).Ok? && |EncodeElements(c, xs, v).value| == w * |xs|
  {
    if |xs| > 0 {
      var tail := xs[1..];
      forall i | 0 <= i < |tail|
        ensures c.enc(tail[i], v).Ok? && |c.enc(tail[i], v).value| == w
      {
        assert tail[i] == xs[i + 1];
      }
      ElementsWidth(c, tail, v, w);
      assert EncodeElements(c, xs, v) == Ok(c.enc(xs[0], v).value + EncodeElements(c, tail, v).value);
      MulSucc(w, |tail|);
    }
  }

  lemma MulSucc(w: nat, n: nat)
    ensures w * (n + 1) == w * n + w
  {
  }

  function DecodeElements<T>(c: Codec<T>, n: nat, b: seq<byte>, v: u16): (r: Result<(seq<T>, seq<byte>)>)
    ensures r.Ok? ==> |r.value.0| == n
    ensures r.Err? ==> r.error.Deserialize?
    decreases n
  {
    if n == 0 then Ok(([], b))
    else
      match c.dec(b, v)
      case Err(e) => Err(Deserialize(Inner(e)))
      case Ok((x, rest)) =>
        match DecodeElements(c, n - 1, rest, v)
        case Err(e) => Err(e)
        case Ok((xs, rest2)) => Ok(([x] + xs, rest2))
  }

  /**
   * `Vec<T>::deserialize`: reads a `u64` count, then exactly that many
   * elements; every failure is a Deserialize error.
   */
  function VecDecode<T>(c: Codec<T>, b: seq<byte>, v: u16): (r: Result<(seq<T>, seq<byte>)>)
    ensures r.Ok? ==> |b| >= 8 && |r.value.0| == DecodeLE(b[..8])
    ensures r.Err? ==> r.error.Deserialize?
  {
    match DecodeInt(U64, b)
    case Err(e) => Err(e)
    case Ok((len, rest)) => DecodeElements(c, len, rest, v)
  }

  lemma {:induction false} ElementsRoundTrip<T>(c: Codec<T>, xs: seq<T>, v: u16, rest: seq<byte>)
    requires forall i :: 0 <= i < |xs| ==> c.valid(xs[i])
    requires forall i, r :: 0 <= i < |xs| ==> RoundTripAt(c, xs[i], v, r)
    requires EncodeElements(c, xs, v).Ok?
    ensures DecodeElements(c, |xs|, EncodeElements(c, xs, v).value + rest, v) == Ok((xs, rest))
  {
    if |xs| > 0 {
      var head := c.enc(xs[0], v).value;
      var tail := EncodeElements(c, xs[1..], v).value;
      assert RoundTripAt(c, xs[0], v, tail + rest);
      assert head + tail + rest == head + (tail + rest);
      forall i, r | 0 <= i < |xs[1..]| ensures RoundTripAt(c, xs[1..][i], v, r) {
        assert RoundTripAt(c, xs[i + 1], v, r);
      }
      ElementsRoundTrip(c, xs[1..], v, rest);
      assert EncodeElements(c, xs, v).value == head + tail;
      assert c.dec(head + (tail + rest), v) == Ok((xs[0], tail + rest));
      assert DecodeElements(c, |xs| - 1, tail + rest, v) == Ok((xs[1..], rest));
      assert DecodeElements(c, |xs|, head + (tail + rest), v) == Ok(([xs[0]] + xs[1..], rest));
      assert [xs[0]] + xs[1..] == xs;
    } else {
      assert [] + rest == rest;
    }
  }

  /** A vector of values that each read back reads back as the same vector. */
  lemma VecRoundTrip<T>(c: Codec<T>, xs: seq<T>, v: u16, rest: seq<byte>)
    requires |xs| < TWO_TO_THE_64
    requires forall i :: 0 <= i < |xs| ==> c.valid(xs[i])
    requires forall i, r :: 0 <= i < |xs| ==> RoundTripAt(c, xs[i], v, r)
    requires VecEncode(c, xs, v).Ok?
    ensures VecDecode(c, VecEncode(c, xs, v).value + rest, v) == Ok((xs, rest))
  {
    var body := EncodeElements(c, xs, v).value;
    IntRoundTrip(USIZE, |xs|, body + rest);
    assert VecEncode(c, xs, v).value + rest == EncodeInt(U64, |xs|) + (body + rest);
    ElementsRoundTrip(c, xs, v, rest);
  }

  /** The `Vec<T>` rule as a codec of its own, so vectors nest. */
  function VecCodec<T>(c: Codec<T>): Codec<seq<T>> {
    Codec(
      xs => |xs| < TWO_TO_THE_64 && forall i :: 0 <= i < |xs| ==> c.valid(xs[i]),
      (xs, v) => VecEncode(c, xs, v),
      (b, v) => VecDecode(c, b, v))
  }

  lemma VecCodecRoundTrips<T(!new)>(c: Codec<T>)
    requires RoundTrips(c)
    ensures RoundTrips(VecCodec(c))
    ensures Total(c) ==> Total(VecCodec(c))
  {
    forall xs, v, rest ensures RoundTripAt(VecCodec(c), xs, v, rest) {
      if VecCodec(c).valid(xs) && VecEncode(c, xs, v).Ok? {
        VecRoundTrip(c, xs, v, rest);
      }
    }
  }

  // ---------------------------------------------------------------------
  // FAM wrappers: a fixed header and a trailing array of entries.
  // ---------------------------------------------------------------------

  datatype FamWrapper<H, E> = FamWrapper(header: H, entries: seq<E>)

  /** The header at the version, then the entries as a `Vec`. */
  function FamEncode<H, E>(hc: Codec<H>, ec: Codec<E>, w: FamWrapper<H, E>, v: u16): (r: Result<seq<byte>>)
    ensures r.Ok? <==> hc.enc(w.header, v).Ok? && VecEncode(ec, w.entries, v).Ok?
    ensures r.Err? && hc.enc(w.header, v).Err? ==> r.error == hc.enc(w.header, v).error
  {
    match hc.enc(w.header, v)
    case Err(e) => Err(e)
    case Ok(hb) =>
      match VecEncode(ec, w.entries, v)
      case Err(e) => Err(e)
      case Ok(eb) => Ok(hb + eb)
  }

  /** `FamStructWrapper::from_entries`: the entries under the default header. */
  function FromEntries<H, E>(entries: seq<E>, defaultHeader: H): FamWrapper<H, E> {
    FamWrapper(defaultHeader, entries)
  }

  /**
   * Reads the header, then the entries as a `Vec`, rebuilds a wrapper from the
   * entries and replaces its header with the one read. The wrapper keeps the
   * entries read as its backing array; which of them it exposes is decided by
   * the header's own length field (see `AsSlice`).
   */
  function FamDecode<H, E>(hc: Codec<H>, ec: Codec<E>, defaultHeader: H, b: seq<byte>, v: u16)
    : (r: Result<(FamWrapper<H, E>, seq<byte>)>)
    ensures r.Ok? <==> hc.dec(b, v).Ok? && VecDecode(ec, hc.dec(b, v).value.1, v).Ok?
    ensures r.Ok? ==> r.value.0.header == hc.dec(b, v).value.0
    ensures r.Ok? ==> r.value.0.entries == VecDecode(ec, hc.dec(b, v).value.1, v).value.0
    ensures r.Err? ==> r.error.Deserialize?
  {
    match hc.dec(b, v)
    case Err(e) => Err(Deserialize(Inner(e)))
    case Ok((header, rest)) =>
      match VecDecode(ec, rest, v)
      case Err(e) => Err(Deserialize(Inner(e)))
      case Ok((entries, rest2)) =>
        var rebuilt := FromEntries(entries, defaultHeader);
        Ok((rebuilt.(header := header), rest2))
  }

  /**
   * `as_slice()`: a wrapper exposes the first `len` entries of its backing
   * array, where `len` is the header's length field, as `lenOf` reads it. A
   * `len` beyond the array would read past the allocation, which is `None` here.
   */
  function AsSlice<H, E>(lenOf: H -> nat, w: FamWrapper<H, E>): Option<seq<E>> {
    if lenOf(w.header) <= |w.entries| then Some(w.entries[..lenOf(w.header)]) else None
  }

  /**
   * After a FAM read, the wrapper exposes exactly the entries on the wire when,
   * and only when, the header read says there are that many.
   */
  lemma DecodedSliceIff<H, E>(hc: Codec<H>, ec: Codec<E>, lenOf: H -> nat, defaultHeader: H, b: seq<byte>, v: u16)
    requires FamDecode(hc, ec, defaultHeader, b, v).Ok?
    ensures var header := hc.dec(b, v).value.0;
            var entries := VecDecode(ec, hc.dec(b, v).value.1, v).value.0;
            (AsSlice(lenOf, FamDecode(hc, ec, defaultHeader, b, v).value.0) == Some(entries) <==> lenOf(header) == |entries|)
  {
    var w := FamDecode(hc, ec, defaultHeader, b, v).value.0;
    var n := lenOf(w.header);
    if n == |w.entries| {
      assert w.entries[..n] == w.entries;
    }
    if AsSlice(lenOf, w) == Some(w.entries) {
      assert |w.entries[..n]| == n;
    }
  }

  /**
   * A FAM wrapper reads back with its entries intact and with whatever header
   * the header's own rule reads back; the default header never survives.
   */
  lemma FamRoundTrip<H, E>(hc: Codec<H>, ec: Codec<E>, w: FamWrapper<H, E>, defaultHeader: H,
                           v: u16, restoredHeader: H, rest: seq<byte>)
    requires FamEncode(hc, ec, w, v).Ok?
    requires forall r :: hc.dec(hc.enc(w.header, v).value + r, v) == Ok((restoredHeader, r))
    requires |w.entries| < TWO_TO_THE_64
    requires forall i :: 0 <= i < |w.entries| ==> ec.valid(w.entries[i])
    requires forall i, r :: 0 <= i < |w.entries| ==> RoundTripAt(ec, w.entries[i], v, r)
    ensures FamDecode(hc, ec, defaultHeader, FamEncode(hc, ec, w, v).value + rest, v)
         == Ok((FamWrapper(restoredHeader, w.entries), rest))
  {
    var hb := hc.enc(w.header, v).value;
    var eb := VecEncode(ec, w.entries, v).value;
    assert FamEncode(hc, ec, w, v).value + rest == hb + (eb + rest);
    assert hc.dec(hb + (eb + rest), v) == Ok((restoredHeader, eb + rest));
    VecRoundTrip(ec, w.entries, v, rest);
  }

  /** The FAM rule as a codec, for vectors of wrappers. */
  function FamCodec<H, E>(hc: Codec<H>, ec: Codec<E>, defaultHeader: H): Codec<FamWrapper<H, E>> {
    Codec(
      (w: FamWrapper<H, E>) => hc.valid(w.header) && VecCodec(ec).valid(w.entries),
      (w, v) => FamEncode(hc, ec, w, v),
      (b, v) => FamDecode(hc, ec, defaultHeader, b, v))
  }

  /** When header and entries read back exactly, so does the wrapper. */
  lemma FamCodecRoundTrips<H(!new), E(!new)>(hc: Codec<H>, ec: Codec<E>, defaultHeader: H)
    requires RoundTrips(hc) && RoundTrips(ec)
    ensures RoundTrips(FamCodec(hc, ec, defaultHeader))
  {
    forall w, v, rest ensures RoundTripAt(FamCodec(hc, ec, defaultHeader), w, v, rest) {
      if FamCodec(hc, ec, defaultHeader).valid(w) && FamEncode(hc, ec, w, v).Ok? {
        forall r ensures hc.dec(hc.enc(w.header, v).value + r, v) == Ok((w.header, r)) {
          assert RoundTripAt(hc, w.header, v, r);
        }
        FamRoundTrip(hc, ec, w, defaultHeader, v, w.header, rest);
      }
    }
  }

  // ---------------------------------------------------------------------
  // Writers.
  // ---------------------------------------------------------------------

  /** A writer: a growable buffer (no capacity) or a fixed slice (capacity). */
  datatype Sink = Sink(data: seq<byte>, capacity: Option<nat>)

  /**
   * Streams bytes into a writer; a fixed slice that runs out of room reports
   * a Serialize error rather than truncating silently.
   */
  function WriteAll(s: Sink, bytes: seq<byte>): (r: Result<Sink>)
    ensures r.Ok? <==> s.capacity.None? || |s.data| + |bytes| <= s.capacity.value
    ensures r.Ok? ==> r.value.data == s.data + bytes && r.value.capacity == s.capacity
    ensures r.Err? ==> r.error.Serialize?
  {
    if s.capacity.Some? && |s.data| + |bytes| > s.capacity.value then
      Err(Serialize(Backend("failed to write whole buffer")))
    else Ok(Sink(s.data + bytes, s.capacity))
  }

  /** `value.serialize(writer, version)`: the value's encoding, streamed into the writer. */
  function SerializeInto<T>(c: Codec<T>, x: T, s: Sink, v: u16): (r: Result<Sink>)
    ensures c.enc(x, v).Err? ==> r == Err(c.enc(x, v).error)
    ensures c.enc(x, v).Ok? ==> r == WriteAll(s, c.enc(x, v).value)
  {
    match c.enc(x, v)
    case Err(e) => Err(e)
    case Ok(bytes) => WriteAll(s, bytes)
  }
}
