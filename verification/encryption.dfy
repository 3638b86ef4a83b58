/**
 * The disk-encryption helpers: the hex codec of the key in an
 * `EncryptionDescription`, and the per-sector arithmetic of `encrypt` and
 * `decrypt` (how many sectors, which IV each gets, which guest address each
 * is read from or written to).
 *
 * A Rust `&str` is handled as its UTF-8 bytes: `len()` counts bytes and
 * `s[i..i + 2]` slices bytes, panicking when an index falls inside a
 * character.
 */
module Encryption {
  import opened Common

  // ---------------------------------------------------------------------
  // Hex codec.
  // ---------------------------------------------------------------------

  const PLUS: byte := 0x2B
  const DIGIT_ZERO: byte := 0x30
  const LOWER_A: byte := 0x61
  const UPPER_A: byte := 0x41

  /** The value of a base-16 digit, either case. */
  function HexValue(c: byte): Option<nat> {
    if DIGIT_ZERO <= c < DIGIT_ZERO + 10 then Some(c - DIGIT_ZERO)
    else if LOWER_A <= c < LOWER_A + 6 then Some(c - LOWER_A + 10)
    else if UPPER_A <= c < UPPER_A + 6 then Some(c - UPPER_A + 10)
    else None
  }

  predicate IsHexDigit(c: byte) {
    HexValue(c).Some?
  }

  /**
   * `u8::from_str_radix(chunk, 16)` on a two-byte chunk. A leading `+` is
   * accepted and dropped, leaving a single digit; otherwise both bytes must
   * be digits (a leading `-` is never accepted for an unsigned type). Two
   * digits never exceed 255.
   */
  function RadixByte(c0: byte, c1: byte): (r: Option<byte>)
    ensures r.Some? <==> IsHexDigit(c1) && (c0 == PLUS || IsHexDigit(c0))
  {
    if c0 == PLUS then
      match HexValue(c1)
      case None => None
      case Some(d) => Some(d)
    else
      match (HexValue(c0), HexValue(c1))
      case (Some(h), Some(l)) => Some(16 * h + l)
      case _ => None
  }

  /** What `parse_str` does: the bytes, `Err(s)`, or a panic from slicing inside a character. */
  datatype Parse = Parsed(bytes: seq<byte>) | Invalid | SlicePanic

  /** `str::is_char_boundary` on a string's UTF-8 bytes. */
  predicate IsCharBoundary(s: seq<byte>, j: nat) {
    j == 0 || j == |s| || (j < |s| && !(0x80 <= s[j] < 0xC0))
  }

  /** The `i`-th two-byte chunk of `s`, read as a base-16 `u8`. */
  function ChunkAt(s: seq<byte>, i: nat): Option<byte>
    requires 2 * i + 1 < |s|
  {
    RadixByte(s[2 * i], s[2 * i + 1])
  }

  /** Dropping the first chunk shifts the others down by one. */
  lemma ChunkShift(s: seq<byte>, i: nat)
    requires 2 * i + 3 < |s|
    ensures ChunkAt(s, i + 1) == ChunkAt(s[2..], i)
  {
    assert s[2 * (i + 1)] == s[2..][2 * i];
    assert s[2 * (i + 1) + 1] == s[2..][2 * i + 1];
  }

  /** The loop of `parse_str` over the two-byte chunks of an even-length string, in order. */
  function Chunks(s: seq<byte>): (r: Parse)
    requires |s| % 2 == 0
    ensures r.Parsed? ==> |r.bytes| == |s| / 2
    decreases |s|
  {
    if |s| == 0 then Parsed([])
    else if !IsCharBoundary(s, 2) then SlicePanic
    else
      match ChunkAt(s, 0)
      case None => Invalid
      case Some(b) =>
        match Chunks(s[2..])
        case Parsed(rest) => Parsed([b] + rest)
        case other => other
  }

  /** A successful parse has one byte per chunk, each the chunk's value. */
  lemma {:induction false} ChunksParsed(s: seq<byte>)
    requires |s| % 2 == 0 && Chunks(s).Parsed?
    ensures |Chunks(s).bytes| == |s| / 2
    ensures forall i: nat :: i < |s| / 2 ==> ChunkAt(s, i) == Some(Chunks(s).bytes[i])
    decreases |s|
  {
    if |s| > 0 {
      ChunksParsed(s[2..]);
      forall i: nat | 1 <= i < |s| / 2 ensures ChunkAt(s, i) == Some(Chunks(s).bytes[i]) {
        ChunkShift(s, i - 1);
      }
    }
  }

  /** `parse_str`. */
  function ParseStr(s: seq<byte>): (r: Parse)
    ensures |s| % 2 == 1 ==> r == Invalid
    ensures r.Parsed? ==> |r.bytes| == |s| / 2
  {
    if |s| % 2 == 1 then Invalid else Chunks(s)
  }

  /** A successful `parse_str` gives half as many bytes as the string has, each one chunk's value. */
  lemma ParseStrParsed(s: seq<byte>)
    requires ParseStr(s).Parsed?
    ensures |ParseStr(s).bytes| == |s| / 2
    ensures forall i: nat :: i < |s| / 2 ==> ChunkAt(s, i) == Some(ParseStr(s).bytes[i])
  {
    ChunksParsed(s);
  }

  /** An ASCII string never makes the slicing panic: each chunk either parses or is rejected. */
  predicate IsAscii(s: seq<byte>) {
    forall i :: 0 <= i < |s| ==> s[i] < 0x80
  }

  /**
   * On an even-length ASCII string, `parse_str` succeeds exactly when every
   * chunk is a base-16 `u8`, and is rejected otherwise.
   */
  lemma {:induction false} ChunksOfAscii(s: seq<byte>)
    requires |s| % 2 == 0 && IsAscii(s)
    ensures Chunks(s) != SlicePanic
    ensures Chunks(s).Parsed? <==> forall i: nat :: i < |s| / 2 ==> ChunkAt(s, i).Some?
    decreases |s|
  {
    if |s| > 0 {
      var t := s[2..];
      assert IsAscii(t);
      ChunksOfAscii(t);
      if Chunks(s).Parsed? {
        ChunksParsed(s);
      } else if ChunkAt(s, 0).Some? {
        var j: nat :| j < |t| / 2 && ChunkAt(t, j).None?;
        ChunkShift(s, j);
      }
    }
  }

  /** A chunk that is not a base-16 `u8` rejects the whole string, wherever it sits (`"x1..."`). */
  lemma BadChunkRejects(s: seq<byte>, i: nat)
    requires |s| % 2 == 0 && IsAscii(s) && 2 * i + 1 < |s|
    requires ChunkAt(s, i).None?
    ensures ParseStr(s) == Invalid
  {
    ChunksOfAscii(s);
  }

  /** The lowercase digit of a value below 16, as `{:02x}` writes it. */
  function LowerDigit(d: nat): (c: byte)
    requires d < 16
    ensures HexValue(c) == Some(d)
    ensures c < 0x80 && c != PLUS && !(UPPER_A <= c < UPPER_A + 6)
  {
    if d < 10 then DIGIT_ZERO + d else LOWER_A + (d - 10)
  }

  /** `format!("{:02x}", b)`: two lowercase digits, zero-padded. */
  function HexPair(b: byte): seq<byte> {
    [LowerDigit(b / 16), LowerDigit(b % 16)]
  }

  /** The two digits of a byte read back as that byte. */
  lemma HexPairReads(b: byte)
    ensures RadixByte(HexPair(b)[0], HexPair(b)[1]) == Some(b)
  {
  }

  /** `to_string`: the bytes as lowercase, zero-padded hex pairs. */
  function ToString(b: seq<byte>): (r: seq<byte>)
    ensures |r| == 2 * |b|
  {
    if |b| == 0 then [] else HexPair(b[0]) + ToString(b[1..])
  }

  /** Byte `i` of the input is written at positions `2i` and `2i + 1`. */
  lemma {:induction false} ToStringAt(b: seq<byte>, i: nat)
    requires i < |b|
    ensures ToString(b)[2 * i] == LowerDigit(b[i] / 16)
    ensures ToString(b)[2 * i + 1] == LowerDigit(b[i] % 16)
    decreases i
  {
    if i > 0 {
      ToStringAt(b[1..], i - 1);
    }
  }

  /** `to_string` writes only lowercase hex digits, and only ASCII. */
  lemma ToStringDigits(b: seq<byte>)
    ensures IsAscii(ToString(b))
    ensures forall j :: 0 <= j < |ToString(b)| ==>
      IsHexDigit(ToString(b)[j]) && ToString(b)[j] != PLUS && !(UPPER_A <= ToString(b)[j] < UPPER_A + 6)
  {
    var r := ToString(b);
    forall j | 0 <= j < |r| ensures r[j] < 0x80 && IsHexDigit(r[j]) && r[j] != PLUS && !(UPPER_A <= r[j] < UPPER_A + 6) {
      ToStringAt(b, j / 2);
      assert j == 2 * (j / 2) || j == 2 * (j / 2) + 1;
    }
  }

  /** `parse_str(to_string(b)) == b` for every byte string. */
  lemma {:induction false} ParseToString(b: seq<byte>)
    ensures ParseStr(ToString(b)) == Parsed(b)
  {
    if |b| > 0 {
      var s, t := ToString(b), ToString(b[1..]);
      assert s == HexPair(b[0]) + t;
      assert s[2..] == t;
      if |t| > 0 {
        ToStringAt(b[1..], 0);
      }
      HexPairReads(b[0]);
      assert ChunkAt(s, 0) == Some(b[0]);
      ParseToString(b[1..]);
      assert [b[0]] + b[1..] == b;
    }
  }

  /** ASCII lowercasing. */
  function Lower(c: byte): byte {
    if UPPER_A <= c < UPPER_A + 26 then c + 0x20 else c
  }

  function LowerAll(s: seq<byte>): (r: seq<byte>)
    ensures |r| == |s| && forall i :: 0 <= i < |s| ==> r[i] == Lower(s[i])
  {
    seq(|s|, i requires 0 <= i < |s| => Lower(s[i]))
  }

  /** The lowercase digit of a digit's value is the digit, lowercased. */
  lemma DigitLowered(c: byte)
    requires IsHexDigit(c)
    ensures LowerDigit(HexValue(c).value) == Lower(c)
  {
  }

  /** A pair of digits: the byte they read as is written back as the pair lowercased. */
  lemma PairLowered(c0: byte, c1: byte)
    requires IsHexDigit(c0) && IsHexDigit(c1)
    ensures RadixByte(c0, c1).Some?
    ensures HexPair(RadixByte(c0, c1).value) == [Lower(c0), Lower(c1)]
  {
    var h, l := HexValue(c0).value, HexValue(c1).value;
    assert RadixByte(c0, c1) == Some(16 * h + l);
    assert (16 * h + l) / 16 == h && (16 * h + l) % 16 == l;
    DigitLowered(c0);
    DigitLowered(c1);
  }

  predicate AllHexDigits(s: seq<byte>) {
    forall i :: 0 <= i < |s| ==> IsHexDigit(s[i])
  }

  /**
   * For an even-length string of hex digits, `to_string(parse_str(s))` is
   * `s` with its letters lowercased.
   */
  lemma ToStringOfParsed(s: seq<byte>)
    requires |s| % 2 == 0 && AllHexDigits(s)
    ensures ParseStr(s).Parsed? && ToString(ParseStr(s).bytes) == LowerAll(s)
  {
    HexDigitsParse(s);
    ParseStrParsed(s);
    var t := ToString(ParseStr(s).bytes);
    forall j | 0 <= j < |s| ensures t[j] == Lower(s[j]) {
      ParsedDigitLowered(s, j / 2);
      assert j == 2 * (j / 2) || j == 2 * (j / 2) + 1;
    }
  }

  /** An even-length string of hex digits parses. */
  lemma HexDigitsParse(s: seq<byte>)
    requires |s| % 2 == 0 && AllHexDigits(s)
    ensures ParseStr(s).Parsed?
  {
    assert IsAscii(s);
    ChunksOfAscii(s);
    forall i: nat | i < |s| / 2 ensures ChunkAt(s, i).Some? {
      PairLowered(s[2 * i], s[2 * i + 1]);
    }
  }

  /** The two digits written for parsed byte `i` are chunk `i` lowercased. */
  lemma ParsedDigitLowered(s: seq<byte>, i: nat)
    requires ParseStr(s).Parsed? && AllHexDigits(s) && 2 * i + 1 < |s|
    ensures ToString(ParseStr(s).bytes)[2 * i] == Lower(s[2 * i])
    ensures ToString(ParseStr(s).bytes)[2 * i + 1] == Lower(s[2 * i + 1])
  {
    ParseStrParsed(s);
    PairLowered(s[2 * i], s[2 * i + 1]);
    ToStringAt(ParseStr(s).bytes, i);
  }

  /**
   * The `+` quirk: `"+f"` parses to `[15]`, which `to_string` writes back as
   * `"0f"`, not as the input lowercased.
   */
  lemma PlusQuirk()
    ensures ParseStr([PLUS, LOWER_A + 5]) == Parsed([15])
    ensures ToString([15]) == [DIGIT_ZERO, LOWER_A + 5] != LowerAll([PLUS, LOWER_A + 5])
  {
    assert ChunkAt([PLUS, LOWER_A + 5], 0) == Some(15);
    assert Chunks([PLUS, LOWER_A + 5][2..]) == Parsed([]);
    assert LowerAll([PLUS, LOWER_A + 5])[0] == PLUS;
  }

  /** The strict parser the key format intends: every byte two hex digits, nothing else. */
  function ParseHex(s: seq<byte>): (r: Parse)
    ensures r != SlicePanic
    ensures r.Parsed? <==> |s| % 2 == 0 && AllHexDigits(s)
    ensures r.Parsed? ==> |r.bytes| == |s| / 2
  {
    if |s| % 2 == 1 || !AllHexDigits(s) then Invalid
    else Parsed(seq(|s| / 2, i requires 0 <= i < |s| / 2 => 16 * HexValue(s[2 * i]).value + HexValue(s[2 * i + 1]).value))
  }

  /** Each parsed byte of the strict parser is the value of its two digits. */
  lemma ParseHexBytes(s: seq<byte>, i: nat)
    requires ParseHex(s).Parsed? && i < |s| / 2
    ensures ParseHex(s).bytes[i] == 16 * HexValue(s[2 * i]).value + HexValue(s[2 * i + 1]).value
  {
  }

  /** On a string without `+` the strict parser agrees with `parse_str`, whenever `parse_str` does not panic. */
  lemma ParseStrAgrees(s: seq<byte>)
    requires IsAscii(s) && forall i :: 0 <= i < |s| ==> s[i] != PLUS
    ensures ParseStr(s) == ParseHex(s)
  {
    if |s| % 2 == 0 {
      ChunksOfAscii(s);
      if AllHexDigits(s) {
        forall i: nat | i < |s| / 2 ensures ChunkAt(s, i).Some? {
          PairLowered(s[2 * i], s[2 * i + 1]);
        }
      }
      if ParseStr(s).Parsed? {
        ParseStrParsed(s);
        forall j | 0 <= j < |s| ensures IsHexDigit(s[j]) {
          var i: nat := j / 2;
          assert ChunkAt(s, i).Some?;
          assert j == 2 * i || j == 2 * i + 1;
        }
        var b, c := ParseStr(s).bytes, ParseHex(s).bytes;
        forall i: nat | i < |s| / 2 ensures b[i] == c[i] {
          ParseHexBytes(s, i);
          assert ChunkAt(s, i) == Some(b[i]);
        }
      }
    }
  }

  /** The strict parser always re-encodes to the input lowercased, and re-parses to the same bytes. */
  lemma ParseHexCanonical(s: seq<byte>)
    requires ParseHex(s).Parsed?
    ensures ToString(ParseHex(s).bytes) == LowerAll(s)
    ensures ParseHex(ToString(ParseHex(s).bytes)) == ParseHex(s)
  {
    assert IsAscii(s) && forall i :: 0 <= i < |s| ==> s[i] != PLUS;
    ParseStrAgrees(s);
    ToStringOfParsed(s);
    var b := ParseHex(s).bytes;
    ToStringDigits(b);
    ParseToString(b);
    ParseStrAgrees(ToString(b));
  }

  /** The ASCII digits `0` to `9`, as a key string spells them. */
  const DIGITS: seq<byte> := [0x30, 0x31, 0x32, 0x33, 0x34, 0x35, 0x36, 0x37, 0x38, 0x39]

  /** The crate's test keys: an odd length is rejected, and so is a non-digit (`x`) in the first chunk. */
  lemma MalformedKeysRejected()
    ensures ParseStr(DIGITS + DIGITS[..7]) == Invalid
    ensures ParseStr([0x78] + DIGITS[1..] + DIGITS[..6]) == Invalid
  {
    var bad := [0x78] + DIGITS[1..] + DIGITS[..6];
    assert bad[0] == 0x78 && bad[1] == 0x31;
    assert ChunkAt(bad, 0).None?;
    BadChunkRejects(bad, 0);
  }

  /** `to_string` of a concatenation is the concatenation of the `to_string`s. */
  lemma {:induction false} ToStringAppend(a: seq<byte>, b: seq<byte>)
    ensures ToString(a + b) == ToString(a) + ToString(b)
  {
    if |a| > 0 {
      assert (a + b)[1..] == a[1..] + b;
      ToStringAppend(a[1..], b);
      assert (a + b)[0] == a[0];
    } else {
      assert a + b == b;
    }
  }

  /** The crate's test key `"0123456789012345"` parses pairwise. */
  lemma DigitKeyParses()
    ensures ParseStr(DIGITS + DIGITS[..6]) == Parsed([0x01, 0x23, 0x45, 0x67, 0x89, 0x01, 0x23, 0x45])
  {
    var half := [0x01, 0x23, 0x45, 0x67, 0x89];
    DigitsFormat();
    DigitsPrefixFormat();
    ToStringAppend(half, [0x01, 0x23, 0x45]);
    assert half + [0x01, 0x23, 0x45] == [0x01, 0x23, 0x45, 0x67, 0x89, 0x01, 0x23, 0x45];
    ParseToString([0x01, 0x23, 0x45, 0x67, 0x89, 0x01, 0x23, 0x45]);
  }

  /** The five bytes whose hex form is the ten decimal digits. */
  lemma DigitsFormat()
    ensures ToString([0x01, 0x23, 0x45, 0x67, 0x89]) == DIGITS
  {
    DigitsPrefixFormat();
    OneByteFormat(0x67);
    OneByteFormat(0x89);
    ToStringAppend([0x01, 0x23, 0x45], [0x67, 0x89]);
    ToStringAppend([0x67], [0x89]);
    assert [0x01, 0x23, 0x45] + [0x67, 0x89] == [0x01, 0x23, 0x45, 0x67, 0x89];
    assert [0x67] + [0x89] == [0x67, 0x89];
  }

  lemma DigitsPrefixFormat()
    ensures ToString([0x01, 0x23, 0x45]) == DIGITS[..6]
  {
    OneByteFormat(0x01);
    OneByteFormat(0x23);
    OneByteFormat(0x45);
    ToStringAppend([0x01], [0x23, 0x45]);
    ToStringAppend([0x23], [0x45]);
    assert [0x23] + [0x45] == [0x23, 0x45];
    assert [0x01] + [0x23, 0x45] == [0x01, 0x23, 0x45];
  }

  /** A single byte is written as its two lower-case hex digits. */
  lemma OneByteFormat(x: byte)
    ensures ToString([x]) == HexPair(x)
  {
    assert [x][1..] == [];
  }

  // ---------------------------------------------------------------------
  // Sector arithmetic of `encrypt` and `decrypt`.
  // ---------------------------------------------------------------------

  const SECTOR_SIZE: nat := 512

  /** The whole sectors in `data_len` bytes; a partial tail is not processed. */
  function NumSectors(dataLen: u64): (r: nat)
    ensures r * SECTOR_SIZE <= dataLen < (r + 1) * SECTOR_SIZE
  {
    dataLen / SECTOR_SIZE
  }

  /**
   * The IV of the `k`-th sector: `(no_sector + k) as u128` in 16
   * little-endian bytes. The `u64` addition wraps, as a release build does.
   */
  function SectorIv(noSector: u64, k: nat): (r: seq<byte>)
    ensures |r| == 16
    ensures DecodeLE(r) == (noSector + k) % TWO_TO_THE_64
  {
    Pow256Values();
    var n := (noSector + k) % TWO_TO_THE_64;
    DecodeEncodeLE(n, 16);
    EncodeLE(n, 16)
  }

  lemma Pow256Values()
    ensures Pow256(8) == TWO_TO_THE_64
    ensures Pow256(16) == TWO_TO_THE_64 * TWO_TO_THE_64
  {
    Pow256Add(8, 8);
  }

  /** A value below 2^64 leaves the upper eight bytes of its IV zero. */
  lemma IvHighBytesZero(noSector: u64, k: nat)
    ensures SectorIv(noSector, k)[8..] == [0, 0, 0, 0, 0, 0, 0, 0]
    ensures SectorIv(noSector, k)[..8] == EncodeLE((noSector + k) % TWO_TO_THE_64, 8)
  {
    Pow256Values();
    var n := (noSector + k) % TWO_TO_THE_64;
    EncodeLESplit(n, 8, 8);
  }

  lemma {:induction false} EncodeLESplit(x: nat, n: nat, m: nat)
    requires x < Pow256(n)
    ensures x < Pow256(n + m)
    ensures EncodeLE(x, n + m) == EncodeLE(x, n) + seq(m, _ => 0)
    decreases n + m
  {
    Pow256Add(n, m);
    if n > 0 {
      EncodeLESplit(x / 256, n - 1, m);
    } else if m > 0 {
      assert x == 0;
      EncodeLESplit(0, 0, m - 1);
      assert seq(m, _ => 0) == [0] + seq(m - 1, _ => 0);
    }
  }

  /** One sector of the loop: its IV and the guest address it uses. */
  datatype Sector = Sector(iv: seq<byte>, addr: nat)

  /** The address of the `k`-th sector. */
  function SectorAddr(dataAddr: nat, k: nat): nat {
    dataAddr + k * SECTOR_SIZE
  }

  /** `sectors` are the loop's first sectors, each with its IV and address. */
  predicate IsPlan(sectors: seq<Sector>, dataAddr: u64, noSector: u64) {
    forall k :: 0 <= k < |sectors| ==>
      sectors[k] == Sector(SectorIv(noSector, k), SectorAddr(dataAddr, k)) && sectors[k].addr < TWO_TO_THE_64
  }

  lemma PlanExtend(sectors: seq<Sector>, dataAddr: u64, noSector: u64, addr: u64)
    requires IsPlan(sectors, dataAddr, noSector) && |sectors| < TWO_TO_THE_64
    requires addr == SectorAddr(dataAddr, |sectors|)
    ensures IsPlan(sectors + [Sector(SectorIv(noSector, |sectors|), addr)], dataAddr, noSector)
  {
  }

  /**
   * The loop's sectors. After each sector the address advances by 512 with
   * `checked_add(..).unwrap()`: when that overflows, the loop panics after
   * the sector it just processed. Returns the sectors processed and whether
   * the loop panicked.
   */
  method SectorPlan(dataAddr: u64, dataLen: u64, noSector: u64) returns (sectors: seq<Sector>, panicked: bool)
    ensures !panicked <==> NumSectors(dataLen) == 0 || SectorAddr(dataAddr, NumSectors(dataLen)) < TWO_TO_THE_64
    ensures !panicked ==> |sectors| == NumSectors(dataLen)
    ensures panicked ==> 0 < |sectors| <= NumSectors(dataLen)
    ensures panicked ==> SectorAddr(dataAddr, |sectors| - 1) < TWO_TO_THE_64 <= SectorAddr(dataAddr, |sectors|)
    ensures IsPlan(sectors, dataAddr, noSector)
  {
    var n := NumSectors(dataLen);
    var addr: u64 := dataAddr;
    sectors := [];
    panicked := false;
    var k: u64 := 0;
    while k < n
      invariant k <= n
      invariant |sectors| == k && addr == SectorAddr(dataAddr, k)
      invariant IsPlan(sectors, dataAddr, noSector)
    {
      PlanExtend(sectors, dataAddr, noSector, addr);
      sectors := sectors + [Sector(SectorIv(noSector, k), addr)];
      if addr + SECTOR_SIZE >= TWO_TO_THE_64 {
        panicked := true;
        return;
      }
      addr := addr + SECTOR_SIZE;
      k := k + 1;
    }
  }
}
