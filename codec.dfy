/**
 * `encode_data` and `decode_data`: a record is serialised to JSON text,
 * the text to UTF-8 bytes, and the bytes to a URL-safe Base64 token; the
 * token is read back through the same three layers in reverse. The JSON
 * layer is a pair of functions given by the caller: `dumps` writes a value
 * as text and `loads` reads text back, failing on text that is not JSON.
 */
module Codec {
  import opened Wrappers
  import Utf8
  import Base64Url

  /** The characters a token may hold: the URL-safe alphabet and the `=` of the padding. */
  predicate IsTokenChar(c: char) {
    Base64Url.IsUrlSafe(c) || c == '='
  }

  /**
   * `encode_data(d)`: Base64url of the UTF-8 bytes of the JSON text. The
   * token is `4 * ceil(n / 3)` characters for `n` bytes of text, holds only
   * token characters, and `=` only in its last two places.
   */
  function EncodeData<T>(dumps: T -> string, d: T): (token: string)
    ensures |token| == 4 * ((|Utf8.Encode(dumps(d))| + 2) / 3)
    ensures forall i :: 0 <= i < |token| ==> IsTokenChar(token[i])
    ensures forall i :: 0 <= i < |token| && token[i] == '=' ==> |token| - 2 <= i
  {
    Base64Url.Encode(Utf8.Encode(dumps(d)))
  }

  /** The layer at which `decode_data` raises. */
  datatype CodecError =
    | BadBase64(reason: Base64Url.DecodeError)   // `binascii.Error`
    | BadUtf8                                    // `UnicodeDecodeError`
    | BadJson                                    // `json.JSONDecodeError`

  /**
   * `decode_data(token)`: Base64url-decode, UTF-8-decode, then read the
   * JSON, failing at the first layer that fails. A token that decodes is
   * made of whole groups of four symbols, with `=` only in its last two
   * places.
   */
  function DecodeData<T>(loads: string -> Option<T>, token: string): (r: Result<T, CodecError>)
    ensures r.Success? ==> |token| % 4 == 0
    ensures r.Success? ==> forall i :: 0 <= i < |token| ==>
              if |token| - 2 <= i then Base64Url.SymbolValue(token[i]).Some? || token[i] == '='
              else Base64Url.SymbolValue(token[i]).Some?
  {
    match Base64Url.Decode(token)
    case Failure(e) => Failure(BadBase64(e))
    case Success(bytes) =>
      match Utf8.Decode(bytes)
      case None => Failure(BadUtf8)
      case Some(text) =>
        match loads(text)
        case None => Failure(BadJson)
        case Some(d) => Success(d)
  }

  /** `decode_data(encode_data(d)) == d` whenever `loads` reads back what `dumps` wrote for `d`. */
  lemma DecodeEncodeData<T>(dumps: T -> string, loads: string -> Option<T>, d: T)
    requires loads(dumps(d)) == Some(d)
    ensures DecodeData(loads, EncodeData(dumps, d)) == Success(d)
  {
    var bytes := Utf8.Encode(dumps(d));
    Base64Url.DecodeEncode(bytes);
    Utf8.DecodeEncode(dumps(d));
  }

  /** Two records that `loads` reads back from what `dumps` wrote for them never share a token unless they are equal. */
  lemma EncodeDataInjective<T>(dumps: T -> string, loads: string -> Option<T>, d1: T, d2: T)
    requires loads(dumps(d1)) == Some(d1) && loads(dumps(d2)) == Some(d2)
    requires EncodeData(dumps, d1) == EncodeData(dumps, d2)
    ensures d1 == d2
  {
    DecodeEncodeData(dumps, loads, d1);
    DecodeEncodeData(dumps, loads, d2);
  }

  /**
   * A token needs no escaping in a URL query: it holds none of the
   * characters that end, separate or escape a query value.
   */
  lemma TokenIsQuerySafe(token: string)
    requires forall i :: 0 <= i < |token| ==> IsTokenChar(token[i])
    ensures '&' !in token && '#' !in token && '%' !in token && '+' !in token && ' ' !in token
  {
  }
}
