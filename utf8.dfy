/**
 * UTF-8, the encoding `str.encode()` and `bytes.decode()` use by default.
 * A `char` is a Unicode scalar value (a code point that is not a
 * surrogate), so every string can be encoded; decoding is strict, as
 * Python's default error handler is: overlong forms, encoded surrogates,
 * code points above U+10FFFF, stray continuation bytes and truncated
 * sequences are rejected.
 */
module Utf8 {
  import opened Wrappers

  /** A continuation byte `10xxxxxx`. */
  predicate IsCont(b: byte) {
    0x80 <= b < 0xC0
  }

  /** The one to four bytes of a code point: a lead byte carrying the high bits, then six bits per continuation byte. */
  function EncodeChar(c: char): (r: seq<byte>)
    ensures 1 <= |r| <= 4
    ensures |r| == 1 <==> (c as int) < 0x80
    ensures forall i :: 1 <= i < |r| ==> IsCont(r[i])
  {
    var n := c as int;
    if n < 0x80 then [n]
    else if n < 0x800 then [0xC0 + n / 64, 0x80 + n % 64]
    else if n < 0x1_0000 then [0xE0 + n / 64 / 64, 0x80 + n / 64 % 64, 0x80 + n % 64]
    else [0xF0 + n / 64 / 64 / 64, 0x80 + n / 64 / 64 % 64, 0x80 + n / 64 % 64, 0x80 + n % 64]
  }

  /** `s.encode()`: the encodings of the characters, in order. */
  function Encode(s: string): (r: seq<byte>)
    ensures |s| <= |r| <= 4 * |s|
  {
    if s == [] then [] else EncodeChar(s[0]) + Encode(s[1..])
  }

  /** Whether `n` is the code point of a `char`. */
  predicate IsScalar(n: int) {
    0 <= n < 0xD800 || 0xE000 <= n < 0x11_0000
  }

  /** The code point a two-byte sequence carries: five bits from the lead byte, six from the continuation. */
  function Value2(b0: int, b1: int): int {
    (b0 - 0xC0) * 64 + (b1 - 0x80)
  }

  /** The code point a three-byte sequence carries: four bits from the lead byte, six from each continuation. */
  function Value3(b0: int, b1: int, b2: int): int {
    (b0 - 0xE0) * 4096 + (b1 - 0x80) * 64 + (b2 - 0x80)
  }

  /** The code point a four-byte sequence carries: three bits from the lead byte, six from each continuation. */
  function Value4(b0: int, b1: int, b2: int, b3: int): int {
    (b0 - 0xF0) * 0x4_0000 + (b1 - 0x80) * 4096 + (b2 - 0x80) * 64 + (b3 - 0x80)
  }

  /**
   * The first character of `bs` and the number of bytes it takes, or `None`
   * when `bs` does not start with a well-formed sequence.
   */
  function DecodeChar(bs: seq<byte>): (r: Option<(char, nat)>)
    requires bs != []
    ensures r.Some? ==> 1 <= r.value.1 <= |bs| && r.value.1 <= 4
  {
    var b0 := bs[0];
    if b0 < 0x80 then Some((b0 as char, 1))
    else if 0xC0 <= b0 < 0xE0 && |bs| >= 2 && IsCont(bs[1]) then
      var n := Value2(b0, bs[1]);
      if 0x80 <= n then Some((n as char, 2)) else None
    else if 0xE0 <= b0 < 0xF0 && |bs| >= 3 && IsCont(bs[1]) && IsCont(bs[2]) then
      var n := Value3(b0, bs[1], bs[2]);
      if 0x800 <= n && IsScalar(n) then Some((n as char, 3)) else None
    else if 0xF0 <= b0 < 0xF8 && |bs| >= 4 && IsCont(bs[1]) && IsCont(bs[2]) && IsCont(bs[3]) then
      var n := Value4(b0, bs[1], bs[2], bs[3]);
      if 0x1_0000 <= n && IsScalar(n) then Some((n as char, 4)) else None
    else None
  }

  /**
   * `bs.decode()`: one character per well-formed sequence, failing on the
   * first ill-formed one. Each character takes one to four bytes.
   */
  function Decode(bs: seq<byte>): (r: Option<string>)
    ensures r.Some? ==> |r.value| <= |bs| <= 4 * |r.value|
    decreases |bs|
  {
    if bs == [] then Some([])
    else
      match DecodeChar(bs)
      case None => None
      case Some((c, k)) =>
        match Decode(bs[k..])
        case None => None
        case Some(rest) => Some([c] + rest)
  }

  /** `(h * 64 + l) / 64 == h` and `(h * 64 + l) % 64 == l` for a six-bit `l`. */
  lemma Split64(h: int, l: int)
    requires 0 <= h && 0 <= l < 64
    ensures (h * 64 + l) / 64 == h && (h * 64 + l) % 64 == l
  {
  }

  /** The two bytes `EncodeChar` writes for `n` carry `n`. */
  lemma Value2Of(n: int)
    requires 0x80 <= n < 0x800
    ensures 0xC0 <= 0xC0 + n / 64 < 0xE0
    ensures Value2(0xC0 + n / 64, 0x80 + n % 64) == n
  {
  }

  /** The three bytes `EncodeChar` writes for `n` carry `n`. */
  lemma Value3Of(n: int)
    requires 0x800 <= n < 0x1_0000
    ensures 0xE0 <= 0xE0 + n / 64 / 64 < 0xF0
    ensures Value3(0xE0 + n / 64 / 64, 0x80 + n / 64 % 64, 0x80 + n % 64) == n
  {
    var q1 := n / 64;
    var q2 := q1 / 64;
    assert n == q1 * 64 + n % 64;
    assert q1 == q2 * 64 + q1 % 64;
  }

  /** The four bytes `EncodeChar` writes for `n` carry `n`. */
  lemma Value4Of(n: int)
    requires 0x1_0000 <= n < 0x11_0000
    ensures 0xF0 <= 0xF0 + n / 64 / 64 / 64 < 0xF8
    ensures Value4(0xF0 + n / 64 / 64 / 64, 0x80 + n / 64 / 64 % 64, 0x80 + n / 64 % 64, 0x80 + n % 64) == n
  {
    var q1 := n / 64;
    var q2 := q1 / 64;
    var q3 := q2 / 64;
    assert n == q1 * 64 + n % 64;
    assert q1 == q2 * 64 + q1 % 64;
    assert q2 == q3 * 64 + q2 % 64;
  }

  /** Each character's bytes decode to that character, whatever follows them. */
  lemma DecodeCharOfEncode(c: char, rest: seq<byte>)
    ensures DecodeChar(EncodeChar(c) + rest) == Some((c, |EncodeChar(c)|))
  {
    var n := c as int;
    var e := EncodeChar(c);
    var bs := e + rest;
    assert bs[..|e|] == e;
    if 0x80 <= n < 0x800 {
      Value2Of(n);
    } else if 0x800 <= n < 0x1_0000 {
      Value3Of(n);
    } else if 0x1_0000 <= n {
      Value4Of(n);
    }
  }

  /** Decoding inverts encoding: every string survives `s.encode().decode()`. */
  lemma {:induction false} DecodeEncode(s: string)
    ensures Decode(Encode(s)) == Some(s)
  {
    if s != [] {
      var e := EncodeChar(s[0]);
      DecodeCharOfEncode(s[0], Encode(s[1..]));
      assert (e + Encode(s[1..]))[|e|..] == Encode(s[1..]);
      DecodeEncode(s[1..]);
      assert s == [s[0]] + s[1..];
    }
  }

  /** A two-byte sequence is the encoding of the code point it carries. */
  lemma BytesOf2(b0: int, b1: int)
    requires 0xC0 <= b0 < 0xE0 && 0x80 <= b1 < 0xC0
    ensures var n := Value2(b0, b1); n < 0x800 && 0xC0 + n / 64 == b0 && 0x80 + n % 64 == b1
  {
    Split64(b0 - 0xC0, b1 - 0x80);
  }

  /** A three-byte sequence is the encoding of the code point it carries. */
  lemma BytesOf3(b0: int, b1: int, b2: int)
    requires 0xE0 <= b0 < 0xF0 && 0x80 <= b1 < 0xC0 && 0x80 <= b2 < 0xC0
    ensures var n := Value3(b0, b1, b2);
            n < 0x1_0000 && 0xE0 + n / 64 / 64 == b0 && 0x80 + n / 64 % 64 == b1 && 0x80 + n % 64 == b2
  {
    var h := (b0 - 0xE0) * 64 + (b1 - 0x80);
    assert Value3(b0, b1, b2) == h * 64 + (b2 - 0x80);
    Split64(h, b2 - 0x80);
    Split64(b0 - 0xE0, b1 - 0x80);
  }

  /** A four-byte sequence is the encoding of the code point it carries. */
  lemma BytesOf4(b0: int, b1: int, b2: int, b3: int)
    requires 0xF0 <= b0 < 0xF8 && 0x80 <= b1 < 0xC0 && 0x80 <= b2 < 0xC0 && 0x80 <= b3 < 0xC0
    ensures var n := Value4(b0, b1, b2, b3);
            0xF0 + n / 64 / 64 / 64 == b0 && 0x80 + n / 64 / 64 % 64 == b1 && 0x80 + n / 64 % 64 == b2 && 0x80 + n % 64 == b3
  {
    var h := (b0 - 0xF0) * 64 + (b1 - 0x80);
    var m := h * 64 + (b2 - 0x80);
    assert Value4(b0, b1, b2, b3) == m * 64 + (b3 - 0x80);
    Split64(m, b3 - 0x80);
    Split64(h, b2 - 0x80);
    Split64(b0 - 0xF0, b1 - 0x80);
  }

  /** The bytes of a decoded character are exactly that character's encoding: decoding accepts only the shortest form. */
  lemma EncodeOfDecodeChar(bs: seq<byte>)
    requires bs != [] && DecodeChar(bs).Some?
    ensures var (c, k) := DecodeChar(bs).value; EncodeChar(c) == bs[..k]
  {
    var b0 := bs[0];
    if 0xC0 <= b0 < 0xE0 {
      BytesOf2(b0, bs[1]);
    } else if 0xE0 <= b0 < 0xF0 {
      BytesOf3(b0, bs[1], bs[2]);
    } else if 0xF0 <= b0 {
      BytesOf4(b0, bs[1], bs[2], bs[3]);
    }
  }

  /** Encoding inverts decoding: the bytes that decode are exactly the encoding of what they decode to. */
  lemma {:induction false} EncodeDecode(bs: seq<byte>)
    requires Decode(bs).Some?
    ensures Encode(Decode(bs).value) == bs
    decreases |bs|
  {
    if bs != [] {
      var k, rest := EncodeFirst(bs);
      EncodeDecode(bs[k..]);
      Reassemble(bs, k);
    }
  }

  /** Encoding what non-empty bytes decode to writes back the first character's bytes, then encodes the rest. */
  lemma EncodeFirst(bs: seq<byte>) returns (k: nat, rest: string)
    requires bs != [] && Decode(bs).Some?
    ensures 1 <= k <= |bs| && Decode(bs[k..]) == Some(rest)
    ensures Encode(Decode(bs).value) == bs[..k] + Encode(rest)
  {
    var c: char;
    c, k := DecodeChar(bs).value.0, DecodeChar(bs).value.1;
    rest := Decode(bs[k..]).value;
    EncodeOfDecodeChar(bs);
    EncodeCons(c, rest);
  }

  /** The encoding of a string is the encoding of its first character followed by that of the rest. */
  lemma EncodeCons(c: char, rest: string)
    ensures Encode([c] + rest) == EncodeChar(c) + Encode(rest)
  {
    assert ([c] + rest)[1..] == rest;
  }

  /** Cutting a sequence in two and gluing the parts gives it back. */
  lemma Reassemble<T>(xs: seq<T>, k: nat)
    requires k <= |xs|
    ensures xs[..k] + xs[k..] == xs
  {
  }

  /**
   * What the strict decoder refuses: a continuation byte with no lead, an
   * overlong two-byte form of U+0000, an encoded surrogate, a code point
   * above U+10FFFF, and a sequence cut short.
   */
  lemma RejectsIllFormed()
    ensures Decode([0x80]) == None
    ensures Decode([0xC0, 0x80]) == None
    ensures Decode([0xED, 0xA0, 0x80]) == None
    ensures Decode([0xF4, 0x90, 0x80, 0x80]) == None
    ensures Decode([0xE2, 0x82]) == None
  {
  }

  /** ASCII text is its own encoding, one byte per character. */
  lemma {:induction false} EncodeAscii(s: string)
    requires forall i :: 0 <= i < |s| ==> (s[i] as int) < 0x80
    ensures |Encode(s)| == |s|
    ensures forall i :: 0 <= i < |s| ==> Encode(s)[i] == s[i] as int
  {
    if s != [] {
      EncodeAscii(s[1..]);
    }
  }

  /** Known encodings: U+00E9 in two bytes, U+20AC in three and U+1F600 in four. */
  lemma KnownAnswers()
    ensures EncodeChar('\U{E9}') == [0xC3, 0xA9]
    ensures EncodeChar('\U{20AC}') == [0xE2, 0x82, 0xAC]
    ensures EncodeChar('\U{1F600}') == [0xF0, 0x9F, 0x98, 0x80]
  {
  }
}
