/**
 * `base64.urlsafe_b64encode` and `base64.urlsafe_b64decode`: the base 64
 * encoding with the URL and filename safe alphabet of section 5 of RFC 4648
 * (`-` and `_` in place of `+` and `/`), padded with `=` to a multiple of
 * four symbols.
 */
module Base64Url {
  import opened Wrappers

  /** A 6-bit group: the value one symbol carries. */
  type Sextet = v: int | 0 <= v < 64

  /** The URL-safe alphabet: `A-Z a-z 0-9 - _`. */
  predicate IsUrlSafe(c: char) {
    'A' <= c <= 'Z' || 'a' <= c <= 'z' || '0' <= c <= '9' || c == '-' || c == '_'
  }

  /** The symbol for a sextet: `A`..`Z` for 0..25, `a`..`z` for 26..51, `0`..`9` for 52..61, then `-` and `_`. */
  function Symbol(v: Sextet): (c: char)
    ensures IsUrlSafe(c)
  {
    if v < 26 then ('A' as int + v) as char
    else if v < 52 then ('a' as int + (v - 26)) as char
    else if v < 62 then ('0' as int + (v - 52)) as char
    else if v == 62 then '-'
    else '_'
  }

  /**
   * The sextet a symbol stands for when decoding. The decoder first maps
   * `-` to `+` and `_` to `/` and then reads the standard alphabet, so both
   * spellings of the last two symbols are read.
   */
  function SymbolValue(c: char): (r: Option<Sextet>)
    ensures r.Some? <==> IsUrlSafe(c) || c == '+' || c == '/'
  {
    if 'A' <= c <= 'Z' then Some(c as int - 'A' as int)
    else if 'a' <= c <= 'z' then Some(c as int - 'a' as int + 26)
    else if '0' <= c <= '9' then Some(c as int - '0' as int + 52)
    else if c == '-' || c == '+' then Some(62)
    else if c == '_' || c == '/' then Some(63)
    else None
  }

  /** The symbols of some sextets, in order. */
  function Symbols(v: seq<Sextet>): (r: string)
    ensures |r| == |v|
    ensures forall i :: 0 <= i < |r| ==> IsUrlSafe(r[i])
  {
    seq(|v|, i requires 0 <= i < |v| => Symbol(v[i]))
  }

  /** The number of `=` that pad the encoding of `n` bytes to a multiple of four symbols. */
  function Padding(n: nat): nat {
    if n % 3 == 0 then 0 else 3 - n % 3
  }

  /**
   * The bytes as sextets, most significant bits first: three bytes give four
   * sextets, and a last one or two bytes give two or three, filled with zero
   * bits.
   */
  function ToSextets(bs: seq<byte>): (v: seq<Sextet>)
    ensures |v| == (4 * |bs| + 2) / 3
  {
    if |bs| == 0 then []
    else
      var a := bs[0];
      if |bs| == 1 then [a / 4, a % 4 * 16]
      else
        var b := bs[1];
        if |bs| == 2 then [a / 4, a % 4 * 16 + b / 16, b % 16 * 4]
        else
          GroupSextets(a, b, bs[2]) + ToSextets(bs[3..])
  }

  /** Three bytes as four sextets: the 24 bits cut into four, most significant first. */
  function GroupSextets(a: byte, b: byte, c: byte): seq<Sextet> {
    [a / 4, a % 4 * 16 + b / 16, b % 16 * 4 + c / 64, c % 64]
  }

  /**
   * `urlsafe_b64encode`: the symbols of the sextets, then `=` up to a
   * multiple of four. The output is `4 * ceil(n / 3)` characters long; `=`
   * stands exactly in the trailing padding and every other character is a
   * symbol of the URL-safe alphabet.
   */
  function Encode(bs: seq<byte>): (r: string)
    ensures |r| == 4 * ((|bs| + 2) / 3) && |r| % 4 == 0
    ensures forall i :: 0 <= i < |r| ==> (r[i] == '=' <==> |r| - Padding(|bs|) <= i)
    ensures forall i :: 0 <= i < |r| - Padding(|bs|) ==> IsUrlSafe(r[i])
  {
    var body, pad := Symbols(ToSextets(bs)), Pad(Padding(|bs|));
    EncodedLength(|bs|);
    var groups := (|bs| + 2) / 3;
    assert (4 * groups) % 4 == 0;
    assert forall i :: 0 <= i < |body| ==> (body + pad)[i] == body[i];
    assert forall i :: |body| <= i < |body + pad| ==> (body + pad)[i] == '=';
    body + pad
  }

  /** Sextets and padding together fill whole groups of four. */
  lemma EncodedLength(n: nat)
    ensures (4 * n + 2) / 3 + Padding(n) == 4 * ((n + 2) / 3)
  {
    var k, r := n / 3, n % 3;
    assert n == 3 * k + r;
    assert (4 * n + 2) / 3 == 4 * k + (4 * r + 2) / 3;
    assert (n + 2) / 3 == k + (r + 2) / 3;
  }

  /** `k` padding characters. */
  function Pad(k: nat): (r: string)
    ensures |r| == k && forall i :: 0 <= i < k ==> r[i] == '='
  {
    seq(k, _ => '=')
  }

  /** Why a token does not decode. */
  datatype DecodeError =
    | IncorrectPadding          // the length is not a multiple of four
    | InvalidSymbol(c: char)    // a character outside the alphabet, or `=` before the padding

  /** The sextets of some symbols, or the first character that is not one. */
  function Sextets(cs: seq<char>): (r: Result<seq<Sextet>, DecodeError>)
    ensures r.Success? ==> |r.value| == |cs|
    ensures r.Success? <==> forall i :: 0 <= i < |cs| ==> SymbolValue(cs[i]).Some?
    ensures r.Success? ==> forall i :: 0 <= i < |cs| ==> r.value[i] == SymbolValue(cs[i]).value
  {
    if cs == [] then Success([])
    else
      match SymbolValue(cs[0])
      case None => Failure(InvalidSymbol(cs[0]))
      case Some(v) =>
        var vs :- Sextets(cs[1..]);
        assert forall i :: 1 <= i < |cs| ==> cs[i] == cs[1..][i - 1];
        Success([v] + vs)
  }

  /** The first byte of a group: all six bits of the first sextet and the top two of the second. */
  function Byte0(s0: Sextet, s1: Sextet): byte {
    s0 * 4 + s1 / 16
  }

  /** The second byte: the low four bits of the second sextet and the top four of the third. */
  function Byte1(s1: Sextet, s2: Sextet): byte {
    s1 % 16 * 16 + s2 / 4
  }

  /** The third byte: the low two bits of the third sextet and all six of the fourth. */
  function Byte2(s2: Sextet, s3: Sextet): byte {
    s2 % 4 * 64 + s3
  }

  /**
   * The bytes the sextets carry: four sextets give three bytes, and a last
   * two or three give one or two; bits left over below the last byte are
   * dropped unread.
   */
  function FromSextets(v: seq<Sextet>): (r: seq<byte>)
    requires |v| % 4 != 1
    ensures |r| == 3 * (|v| / 4) + (if |v| % 4 == 0 then 0 else |v| % 4 - 1)
  {
    if |v| == 0 then []
    else if |v| == 2 then [Byte0(v[0], v[1])]
    else if |v| == 3 then [Byte0(v[0], v[1]), Byte1(v[1], v[2])]
    else [Byte0(v[0], v[1]), Byte1(v[1], v[2]), Byte2(v[2], v[3])] + FromSextets(v[4..])
  }

  /** The number of `=` ending the text, counting at most two. */
  function TrailingPad(s: string): (p: nat)
    ensures p <= 2 && p <= |s|
    ensures forall k :: |s| - p <= k < |s| ==> s[k] == '='
    ensures p < 2 ==> p == |s| || s[|s| - p - 1] != '='
  {
    if |s| >= 2 && s[|s| - 2] == '=' && s[|s| - 1] == '=' then 2
    else if |s| >= 1 && s[|s| - 1] == '=' then 1
    else 0
  }

  /**
   * `urlsafe_b64decode`: a text whose length is not a multiple of four has
   * incorrect padding; otherwise up to two trailing `=` are dropped and the
   * remaining symbols are read as sextets. It succeeds exactly on whole
   * groups of four whose characters before the padding are symbols, and
   * gives three bytes per group less one per `=`.
   */
  function Decode(s: string): (r: Result<seq<byte>, DecodeError>)
    ensures r.Success? <==> |s| % 4 == 0 && forall i :: 0 <= i < |s| - TrailingPad(s) ==> SymbolValue(s[i]).Some?
    ensures r.Success? ==> |r.value| == 3 * (|s| / 4) - TrailingPad(s)
  {
    if |s| % 4 != 0 then Failure(IncorrectPadding)
    else
      var v :- Sextets(s[..|s| - TrailingPad(s)]);
      Success(FromSextets(v))
  }

  /** Every symbol reads back as the sextet it was written for. */
  lemma SymbolValueOfSymbol(v: Sextet)
    ensures SymbolValue(Symbol(v)) == Some(v)
  {
  }

  /** The symbols of some sextets read back as those sextets. */
  lemma {:induction false} SymbolsOf(v: seq<Sextet>)
    ensures Sextets(Symbols(v)) == Success(v)
  {
    if v != [] {
      SymbolValueOfSymbol(v[0]);
      SymbolsOf(v[1..]);
      assert Symbols(v)[1..] == Symbols(v[1..]);
      assert v == [v[0]] + v[1..];
    }
  }

  /** A value cut at bit 4: the high part and the low part come back. */
  lemma Split16(h: nat, l: nat)
    requires l < 16
    ensures (h * 16 + l) / 16 == h && (h * 16 + l) % 16 == l
  {
  }

  /** A value cut at bit 2: the high part and the low part come back. */
  lemma Split4(h: nat, l: nat)
    requires l < 4
    ensures (h * 4 + l) / 4 == h && (h * 4 + l) % 4 == l
  {
  }

  /** Three bytes cut into four sextets and joined again. */
  lemma GroupRoundTrip(a: byte, b: byte, c: byte)
    ensures var g := GroupSextets(a, b, c);
            Byte0(g[0], g[1]) == a && Byte1(g[1], g[2]) == b && Byte2(g[2], g[3]) == c
  {
    Split16(a % 4, b / 16);
    Split4(b % 16, c / 64);
  }

  /** A full group in front decodes in front. */
  lemma FromSextetsGroup(g: seq<Sextet>, rest: seq<Sextet>)
    requires |g| == 4 && |rest| % 4 != 1
    ensures FromSextets(g + rest) == [Byte0(g[0], g[1]), Byte1(g[1], g[2]), Byte2(g[2], g[3])] + FromSextets(rest)
  {
    assert (g + rest)[4..] == rest;
  }

  /** Joining the sextets of some bytes gives the bytes back. */
  lemma {:induction false} FromToSextets(bs: seq<byte>)
    ensures |ToSextets(bs)| % 4 != 1
    ensures FromSextets(ToSextets(bs)) == bs
  {
    SextetCount(|bs|);
    if |bs| == 1 || |bs| == 2 {
      FromToLast(bs);
    } else if |bs| >= 3 {
      var g, rest := GroupSextets(bs[0], bs[1], bs[2]), ToSextets(bs[3..]);
      assert ToSextets(bs) == g + rest;
      FromToSextets(bs[3..]);
      GroupRoundTrip(bs[0], bs[1], bs[2]);
      FromSextetsGroup(g, rest);
      assert bs == [bs[0], bs[1], bs[2]] + bs[3..];
    }
  }

  /** The sextets of `n` bytes never leave a lone sextet in the last group. */
  lemma SextetCount(n: nat)
    ensures (4 * n + 2) / 3 % 4 != 1
  {
    var k, r := n / 3, n % 3;
    assert n == 3 * k + r;
    assert (4 * n + 2) / 3 == 4 * k + (4 * r + 2) / 3;
  }

  /** A last group of one or two bytes comes back from its two or three sextets. */
  lemma FromToLast(bs: seq<byte>)
    requires |bs| == 1 || |bs| == 2
    ensures FromSextets(ToSextets(bs)) == bs
  {
    if |bs| == 1 {
      assert bs == [bs[0]];
      FromToOne(bs[0]);
    } else {
      assert bs == [bs[0], bs[1]];
      FromToTwo(bs[0], bs[1]);
    }
  }

  lemma FromToOne(a: byte)
    ensures FromSextets(ToSextets([a])) == [a]
  {
    assert ToSextets([a]) == [a / 4, a % 4 * 16];
    Split16(a % 4, 0);
  }

  lemma FromToTwo(a: byte, b: byte)
    ensures FromSextets(ToSextets([a, b])) == [a, b]
  {
    assert ToSextets([a, b]) == [a / 4, a % 4 * 16 + b / 16, b % 16 * 4];
    Split16(a % 4, b / 16);
    Split4(b % 16, 0);
  }

  /** The padding of an encoding is recognised as such, and what precedes it is the symbols. */
  lemma EncodeParts(bs: seq<byte>)
    ensures var s := Encode(bs);
            TrailingPad(s) == Padding(|bs|) && s[..|s| - TrailingPad(s)] == Symbols(ToSextets(bs))
  {
    var s, p := Encode(bs), Padding(|bs|);
    assert s[..|s| - p] == Symbols(ToSextets(bs));
  }

  /** `urlsafe_b64decode(urlsafe_b64encode(bs)) == bs`. */
  lemma DecodeEncode(bs: seq<byte>)
    ensures Decode(Encode(bs)) == Success(bs)
  {
    var s, v := Encode(bs), ToSextets(bs);
    EncodeParts(bs);
    SymbolsOf(v);
    assert Sextets(s[..|s| - TrailingPad(s)]) == Success(v);
    FromToSextets(bs);
    DecodeOf(s, v);
  }

  /** A text of whole groups whose symbols before the padding read as `v` decodes to the bytes of `v`. */
  lemma DecodeOf(s: string, v: seq<Sextet>)
    requires |s| % 4 == 0 && |v| % 4 != 1
    requires Sextets(s[..|s| - TrailingPad(s)]) == Success(v)
    ensures Decode(s) == Success(FromSextets(v))
  {
  }

  /** The test vectors of section 10 of RFC 4648 for one, two and three bytes: `f`, `fo` and `foo`. */
  lemma KnownAnswers()
    ensures Encode([0x66]) == "Zg=="
    ensures Encode([0x66, 0x6f]) == "Zm8="
    ensures Encode([0x66, 0x6f, 0x6f]) == "Zm9v"
  {
    assert ToSextets([0x66]) == [25, 32];
    assert ToSextets([0x66, 0x6f]) == [25, 38, 60];
    assert ToSextets([0x66, 0x6f, 0x6f]) == [25, 38, 61, 47];
  }

  /** The two symbols that differ from the standard alphabet: the bytes `fb ff` encode as `-_8=`. */
  lemma UrlSafeAnswer()
    ensures Encode([0xfb, 0xff]) == "-_8="
  {
    assert ToSextets([0xfb, 0xff]) == [62, 63, 60];
  }
}
