/**
 * UTF-8, the encoding the serialization backend uses for `char` and `String`
 * leaves. A byte sequence is accepted as one character exactly when it is the
 * canonical encoding of a Unicode scalar value.
 */
module Utf8 {
  import opened Common

  /** A code point that is not a surrogate and not beyond U+10FFFF. */
  predicate IsScalar(cp: int) {
    (0 <= cp < 0xD800) || (0xE000 <= cp < 0x11_0000)
  }

  /** The one to four bytes encoding a character. */
  function EncodeChar(c: char): (r: seq<byte>)
    ensures 1 <= |r| <= 4
  {
    var cp := c as int;
    if cp < 0x80 then [cp]
    else if cp < 0x800 then [0xC0 + cp / 64, 0x80 + cp % 64]
    else if cp < 0x1_0000 then [0xE0 + cp / 4096, 0x80 + (cp / 64) % 64, 0x80 + cp % 64]
    else [0xF0 + cp / 262144, 0x80 + (cp / 4096) % 64, 0x80 + (cp / 64) % 64, 0x80 + cp % 64]
  }

  /** The width a leading byte announces, 0 for a byte that cannot lead. */
  function Width(lead: byte): nat {
    if lead < 0x80 then 1
    else if 0xC2 <= lead < 0xE0 then 2
    else if 0xE0 <= lead < 0xF0 then 3
    else if 0xF0 <= lead < 0xF5 then 4
    else 0
  }

  /** The code point whose bits a sequence of the announced width carries. */
  function Bits(b: seq<byte>): int
    requires 1 <= |b| <= 4
  {
    if |b| == 1 then b[0] as int
    else if |b| == 2 then (b[0] as int - 0xC0) * 64 + (b[1] as int - 0x80)
    else if |b| == 3 then (b[0] as int - 0xE0) * 4096 + (b[1] as int - 0x80) * 64 + (b[2] as int - 0x80)
    else (b[0] as int - 0xF0) * 262144 + (b[1] as int - 0x80) * 4096 + (b[2] as int - 0x80) * 64 + (b[3] as int - 0x80)
  }

  /**
   * Decodes the character at the front of `b`, returning it with the number of
   * bytes it occupies; `None` when the front is not a well-formed character.
   */
  function DecodeChar(b: seq<byte>): (r: Option<(char, nat)>)
    ensures r.Some? ==> 1 <= r.value.1 <= |b| && EncodeChar(r.value.0) == b[..r.value.1]
  {
    if |b| == 0 then None
    else
      var w := Width(b[0]);
      if w == 0 || |b| < w then None
      else
        var cp := Bits(b[..w]);
        if IsScalar(cp) && EncodeChar(cp as char) == b[..w] then Some((cp as char, w))
        else None
  }

  lemma CharIsScalar(c: char)
    ensures IsScalar(c as int)
  {
  }

  /** The leading byte of an encoding announces the encoding's width, and its bits are the character. */
  lemma EncodeCharShape(c: char)
    ensures Width(EncodeChar(c)[0]) == |EncodeChar(c)|
    ensures Bits(EncodeChar(c)) == c as int
  {
    var cp := c as int;
    CharIsScalar(c);
    if cp < 0x80 {
    } else if cp < 0x800 {
      assert 2 <= cp / 64 < 32;
    } else if cp < 0x1_0000 {
      assert 0 <= cp / 4096 < 16;
      assert cp / 64 == (cp / 4096) * 64 + (cp / 64) % 64;
    } else {
      assert 0 <= cp / 262144 < 5;
      assert cp / 4096 == (cp / 262144) * 64 + (cp / 4096) % 64;
      assert cp / 64 == (cp / 4096) * 64 + (cp / 64) % 64;
    }
  }

  /** A character decodes from the front of its own encoding, whatever follows it. */
  lemma DecodeEncodeChar(c: char, rest: seq<byte>)
    ensures DecodeChar(EncodeChar(c) + rest) == Some((c, |EncodeChar(c)|))
  {
    var e := EncodeChar(c);
    EncodeCharShape(c);
    CharIsScalar(c);
    assert (e + rest)[..|e|] == e;
  }

  /** A string's encoding: the encodings of its characters, in order. */
  function EncodeString(s: string): (r: seq<byte>)
    ensures |r| >= |s|
  {
    if |s| == 0 then [] else EncodeChar(s[0]) + EncodeString(s[1..])
  }

  /** Decodes a whole byte sequence as characters; `None` if any part is ill-formed. */
  function DecodeString(b: seq<byte>): (r: Option<string>)
    decreases |b|
  {
    if |b| == 0 then Some("")
    else
      match DecodeChar(b)
      case None => None
      case Some((c, w)) =>
        match DecodeString(b[w..])
        case None => None
        case Some(s) => Some([c] + s)
  }

  /** Decoding a string's encoding gives the string back. */
  lemma {:induction false} DecodeEncodeString(s: string)
    ensures DecodeString(EncodeString(s)) == Some(s)
  {
    if |s| > 0 {
      var e := EncodeString(s);
      var head := EncodeChar(s[0]);
      var tail := EncodeString(s[1..]);
      DecodeEncodeChar(s[0], tail);
      assert e[|head|..] == tail;
      DecodeEncodeString(s[1..]);
      assert [s[0]] + s[1..] == s;
    }
  }

  /** Whatever decodes as a string is that string's encoding: decoding accepts only canonical input. */
  lemma {:induction false} DecodedIsCanonical(b: seq<byte>)
    requires DecodeString(b).Some?
    ensures EncodeString(DecodeString(b).value) == b
    decreases |b|
  {
    if |b| > 0 {
      var c, w, t := DecodeFront(b);
      DecodedIsCanonical(b[w..]);
      EncodeStringCons(c, t);
      assert b == b[..w] + b[w..];
    }
  }

  /** The first step of a successful string decode: one character, then the decode of the rest. */
  lemma DecodeFront(b: seq<byte>) returns (c: char, w: nat, t: string)
    requires |b| > 0 && DecodeString(b).Some?
    ensures 1 <= w <= |b| && EncodeChar(c) == b[..w]
    ensures DecodeString(b[w..]) == Some(t) && DecodeString(b).value == [c] + t
  {
    c, w := DecodeChar(b).value.0, DecodeChar(b).value.1;
    t := DecodeString(b[w..]).value;
  }

  /** A string's encoding starts with its first character's encoding. */
  lemma EncodeStringCons(c: char, t: string)
    ensures EncodeString([c] + t) == EncodeChar(c) + EncodeString(t)
  {
    assert ([c] + t)[0] == c && ([c] + t)[1..] == t;
  }
}
