# UPI menu QR: a Dafny model of the helper layer

The app turns a shop owner's free-text menu into a link. A QR code carries
the link. Scanning it shows the menu and a UPI payment QR code for the total.
This project models the logic under those pages, in `app.py`:

- **`parse_menu`** (`menu.dfy`, module `Menu`). The text is stripped and split
  into lines. Each line is split on `,` and its fields are stripped. Exactly
  three fields must result: the quantity goes through `int` and the price
  through `float`. One item per line is appended and its amount is added to a
  running total. The Python loop is the method `Menu.ParseMenuLoop`, proved
  equal to the function `Menu.ParseMenuSpec`; the lemmas about the function
  state what `parse_menu` promises. The loop takes the line conversion as a
  parameter `parseLine` and is specified by `Menu.Tabulate`, the same
  conversion written as a function; `Menu.ParseMenu` passes it
  `Menu.ParseLine`. Keeping the conversion abstract keeps the number readers
  out of the loop's proof. `str.strip`, `str.split` and the two
  number conversions are in `text.dfy` (module `Text`) and `numbers.dfy`
  (module `Numbers`).
- **`encode_data` / `decode_data`** (`codec.dfy`, module `Codec`). JSON text,
  then its UTF-8 bytes (`utf8.dfy`, module `Utf8`), then URL-safe Base64 with
  `=` padding as in section 5 of RFC 4648 (`base64url.dfy`, module
  `Base64Url`), and back. UTF-8 and Base64 are modelled byte by byte. The JSON
  writer and reader are parameters `dumps` and `loads`.
- **The two links** (`links.dfy`, module `Links`): the menu link
  `APP_BASE_URL + "/?menu=" + token` and the payment URI
  `upi://pay?pa=<id>&am=<amount>`. A small query reader (`Links.QueryValue`)
  is the partner of both builders: it says what a scanner reads back from
  each link.
- **The pages' data flow** (`app.dfy`, module `App`): the `menu_data` record,
  the generator action from menu text to menu link, and the scan page from
  link back to record and payment URI.

`wrappers.dfy` holds `Option`, `Result` and the `byte` type.

The model follows the code, including the checks it does not make:

- The code accepts a negative quantity (`int("-1")`) and a negative price.
  `Menu.NegativeQuantityAccepted` shows that such a line parses.
- The code keeps Base64 `=` padding in the token.
- The code does not check the shape of the decoded record.
- Neither link escapes the values put into it. `Links.PaymentUriQuery` shows
  that a payee address holding `&` does not come back from the payment URI.

## Model

| member | source | states |
|---|---|---|
| Menu.ParseMenu | app.py:95-118 | `parse_menu(text)` returns exactly `ParseMenuSpec(text)`: the items and total of all lines, or the error of the first failing line |
| Menu.ParseMenuLoop | app.py:100-116 | the loop that appends an item per line and adds its amount to `total` from 0 ends with the items of all lines and the sum of their amounts, or stops at the first failing line with its error |
| Menu.ParseMenuSucceedsIff | app.py:103-118 | parsing succeeds iff every line of `text.strip().split("\n")` parses; then there is one item per line, in line order, each made from its own line, and the total is the in-order sum of the amounts |
| Menu.ParseMenuFailsAtFirstBadLine | app.py:103-106 | a failing parse reports the error of some line all of whose predecessors parse; there is no partial result |
| Menu.ParseEachSuccess | app.py:103-114 | a line-by-line conversion succeeds iff each line converts, and then yields one result per line in order |
| Menu.ParseEachFailure | app.py:103-106 | a failing line-by-line conversion fails with the error of its first failing line |
| Menu.FieldsOfLine | app.py:104 | a line gives one more field than it has commas, each the stripped piece between commas |
| Menu.ParseFieldsSuccess | app.py:104-106 | a line converts iff it has exactly three fields, the second reads as an `int` and the third as a `float`; the name is the first stripped field and qty and price are the values read from the second and third |
| Menu.ParseFieldsFailure | app.py:104-106 | fewer than three fields fail with the count, more than three fail as too many values, then a bad quantity fails before a bad price |
| Menu.BlankMenuFails | app.py:103-104 | empty or whitespace-only text fails: it strips to `""`, one line with one field |
| Menu.ItemOf | app.py:107-114 | no contract; the body copies the row's name, qty and price into the item, and `Menu.ItemsConsistent` states that its amount is `qty * price` |
| Menu.SumAmounts | app.py:101-116 | no contract; specified by `Menu.SumAmountsSnoc` and `Menu.SumOfConsistent`: the total starts at 0 and each item adds its amount |
| Menu.SumAmountsSnoc | app.py:116 | one more item adds its amount to the total: `total += amount` |
| Menu.ParsedMenuConsistent | app.py:107-116 | in a parsed menu every amount is `qty * price` and the total is the sum of those products |
| Menu.ItemsConsistent | app.py:107-113 | each item made from a row stores `qty * price` as its amount |
| Menu.SumOfConsistent | app.py:116 | when each amount is its product, the running total of the amounts equals the sum of the products |
| Menu.ParseMenuSpec | app.py:95-118 | no contract; specified by `Menu.ParseMenuSucceedsIff`, `Menu.ParseMenuFailsAtFirstBadLine` and `Menu.ParsedMenuConsistent` |
| Menu.Lines | app.py:103 | `text.strip().split("\n")` gives at least one line, no line holds a newline, and the lines joined by newlines give back the stripped text |
| Menu.Fields | app.py:104 | every field of a line is already stripped: stripping it again changes nothing |
| Menu.ParseLine | app.py:104-106 | a line that converts has exactly two commas |
| Menu.ParseFields | app.py:104-106 | no contract; specified by `Menu.ParseFieldsSuccess` and `Menu.ParseFieldsFailure` |
| Menu.LineFields | app.py:104 | a line written `a, b, c` has the fields `a`, `b` and `c` when none of them holds a comma or starts or ends with whitespace |
| Menu.SampleRow | app.py:214 | the placeholder line `Tea, 2, 10` parses to the item Tea, 2 at 10.0, with amount 20.0 |
| Menu.NegativeQuantityAccepted | app.py:105-107 | the line `Tea, -1, 10` parses, with a quantity of -1 and a negative amount: no sign check is made |
| Text.Strip | app.py:103 | `strip()` removes only whitespace, from both ends, and leaves text that neither starts nor ends with whitespace |
| Text.StripIdempotent | app.py:104 | stripping twice is the same as stripping once |
| Text.StripEmptyIff | app.py:103 | text strips to `""` iff it is all whitespace |
| Text.Split | app.py:103 | `split(sep)` always gives at least one piece, even for empty text |
| Text.SplitCount | app.py:104 | `split(sep)` gives one more piece than there are separators |
| Text.SplitPiecesFree | app.py:104 | no piece of `split(sep)` holds the separator |
| Text.JoinSplit | app.py:103-104 | joining the pieces of a split with the separator gives back the text: nothing is lost or reordered |
| Text.SplitJoin | app.py:103-104 | splitting joined separator-free pieces gives back exactly those pieces |
| Text.SplitLast | app.py:145 | text that ends in a separator followed by a separator-free piece splits into at least two pieces, the last being that piece |
| Numbers.ParseInt | app.py:105 | `int` accepts only non-empty text, and its value is negative only when the text starts with `-` |
| Numbers.ParseDecimal | app.py:106 | `float` accepts only non-empty text, and its value is negative only when the text starts with `-` |
| Numbers.DigitsValue | app.py:105 | a run of `k` decimal digits denotes a number below `10^k` |
| Numbers.ParseIntOfText | app.py:105 | `int` reads back the decimal text of every integer, negative ones included |
| Numbers.NatToText | app.py:105 | the decimal text of a natural number is non-empty digits without a leading zero that denote it |
| Numbers.ShiftIsQuotient | app.py:106 | the value of a decimal with `k` fraction digits is its digits read as an integer, divided by `10^k` exactly |
| Numbers.ParseDecimalOfInt | app.py:106 | every text `int` accepts, `float` accepts with the same value |
| Numbers.ParseDecimalOfNotation | app.py:106 | `float` reads a signed `whole.frac` notation as `±whole.frac` |
| Utf8.EncodeChar | app.py:123 | a character takes one to four bytes; one exactly when it is ASCII; all but the first are continuation bytes |
| Utf8.Encode | app.py:123 | the encoding of `n` characters takes between `n` and `4n` bytes |
| Utf8.DecodeChar | app.py:128 | a decoded character consumes one to four bytes, and no more than are there |
| Utf8.Decode | app.py:128 | bytes that decode to `n` characters number between `n` and `4n` |
| Utf8.DecodeCharOfEncode | app.py:121-128 | a character's bytes decode to that character, whatever follows them |
| Utf8.DecodeEncode | app.py:121-128 | `s.encode().decode() == s` for every string |
| Utf8.EncodeOfDecodeChar | app.py:128 | the bytes a decoded character consumed are exactly its encoding: only shortest forms are accepted |
| Utf8.EncodeDecode | app.py:128 | bytes that decode are exactly the encoding of the text they decode to |
| Utf8.RejectsIllFormed | app.py:128 | a stray continuation byte, an overlong form, an encoded surrogate, a code point above U+10FFFF and a truncated sequence all fail to decode |
| Utf8.EncodeAscii | app.py:123 | ASCII text encodes to one byte per character, its code |
| Utf8.KnownAnswers | app.py:123 | U+00E9, U+20AC and U+1F600 encode to `c3 a9`, `e2 82 ac` and `f0 9f 98 80` |
| Base64Url.Symbol | app.py:123 | every sextet is written as a character of `A-Z a-z 0-9 - _` |
| Base64Url.Symbols | app.py:123 | one symbol per sextet, all from the URL-safe alphabet |
| Base64Url.ToSextets | app.py:123 | `n` bytes give `ceil(4n/3)` sextets |
| Base64Url.Encode | app.py:123 | the token of `n` bytes is `4 * ceil(n/3)` characters long, whole groups of four; `=` stands exactly in the trailing padding and every other character is from `A-Z a-z 0-9 - _` |
| Base64Url.EncodedLength | app.py:123 | the sextets and the padding fill whole groups of four |
| Base64Url.Sextets | app.py:128 | reading symbols succeeds iff every character is a symbol, and then gives one sextet per character, the value of that character (`-` and `+` both 62, `_` and `/` both 63) |
| Base64Url.SymbolValue | app.py:128 | a character reads as a sextet iff it is in `A-Z a-z 0-9 - _` or is `+` or `/`, the two spellings the decoder's translation of `-` and `_` lets through |
| Base64Url.FromSextets | app.py:128 | the bytes of some sextets: three per whole group of four, and one less than the sextets of a last group of two or three |
| Base64Url.TrailingPad | app.py:128 | the padding counted is the `=` that end the text, at most two: every counted character is `=`, and fewer than two are counted only when the character before them is not `=` |
| Base64Url.Decode | app.py:128 | `urlsafe_b64decode` succeeds iff the length is a multiple of four and every character before up to two trailing `=` is a symbol; it then gives three bytes per group of four, less one per `=` |
| Base64Url.SymbolValueOfSymbol | app.py:121-128 | every symbol reads back as the sextet it was written for |
| Base64Url.SymbolsOf | app.py:121-128 | the symbols of some sextets read back as those sextets |
| Base64Url.GroupRoundTrip | app.py:121-128 | three bytes cut into four sextets join back into the same three bytes |
| Base64Url.FromToSextets | app.py:121-128 | joining the sextets of some bytes gives those bytes back |
| Base64Url.DecodeEncode | app.py:121-128 | `urlsafe_b64decode(urlsafe_b64encode(bs)) == bs` for all bytes |
| Base64Url.KnownAnswers | app.py:123 | the test vectors of section 10 of RFC 4648: `f`, `fo` and `foo` encode to `Zg==`, `Zm8=` and `Zm9v` |
| Base64Url.UrlSafeAnswer | app.py:123 | the bytes `fb ff` encode to `-_8=`, with the two URL-safe symbols |
| Codec.EncodeData | app.py:121-123 | the token of a record is `4 * ceil(n/3)` characters for `n` bytes of JSON text, holds only `A-Z a-z 0-9 - _ =`, and `=` only in its last two places |
| Codec.DecodeData | app.py:126-128 | a token that `decode_data` reads is made of whole groups of four symbols, with `=` only in its last two places |
| Codec.DecodeEncodeData | app.py:121-128 | `decode_data(encode_data(d)) == d` whenever the JSON reader reads back what the writer wrote |
| Codec.EncodeDataInjective | app.py:121-123 | two records that the JSON reader reads back from what the writer wrote for them get the same token only when they are equal |
| Codec.TokenIsQuerySafe | app.py:239 | a token holds no `&`, `#`, `%`, `+` or space, so it needs no escaping in a query |
| Links.NoMarkInBase | app.py:6 | the app's base URL holds no `?`, so the menu link's query starts at `/?` |
| Links.MenuUrlQuery | app.py:239 | the menu link carries its token as the `menu` parameter whenever the token holds no `&` |
| Links.PaymentPairs | app.py:145 | the query of the payment URI is the pair `pa=<id>` followed by the pair `am=<amount>` when neither value holds `&` |
| Links.PaymentAmount | app.py:145 | the amount is the last piece of the payment query, so it reads back as `am` whatever the payee holds |
| Links.PaymentUriQuery | app.py:145 | when the amount holds no `&`, the payment URI carries it as `am`, and carries the payee as `pa` iff the payee holds no `&` |
| Links.MenuUrl | app.py:239 | no contract; specified by `Links.MenuUrlQuery` |
| Links.PaymentUri | app.py:145 | no contract; specified by `Links.PaymentUriQuery` and `Links.PaymentPairs` |
| Links.QueryValue | app.py:152-155 | no contract; specified by `Links.QueryValueHasNoAmp`, `Links.MenuUrlQuery` and `Links.PaymentUriQuery` |
| Links.LastValue | app.py:152-155 | a value is found iff some pair has the key, and it is that of the last such pair |
| Links.QueryValueHasNoAmp | app.py:155 | a value read from a query parameter never holds `&` |
| App.RecordOf | app.py:227-233 | no contract; specified by `App.RecordOfParsedMenu` |
| App.RecordOfParsedMenu | app.py:227-233 | the `menu_data` record built for menu text that parses is consistent: every amount is `qty * price`, the total is the sum of those products, and there is one item per line |
| App.GenerateMenuLink | app.py:223-239 | the generator fails with the parse error when the menu does not parse, and otherwise gives the menu link of the encoded record of the parsed menu |
| App.ScannedMenu | app.py:154-155 | the scan page finds no menu exactly when the link has no `menu` parameter |
| App.BareMenuParameter | app.py:154-155 | a link ending `/?menu` has a `menu` parameter with the empty value, so the scan page decodes it and fails at the JSON layer |
| App.ScanGeneratedLink | app.py:236-239 | scanning a generated menu link gives back the record it was made from |
| App.PaymentLink | app.py:197 | no contract; specified by `App.MenuToPayment` |
| App.MenuToPayment | app.py:197 | for text that parses, whose record the JSON reader reads back from what the writer wrote, the scanned record is consistent and has the parsed items and total; when the rendered total holds no `&`, its payment URI carries that total, and carries the shop's payee iff the payee holds no `&` |

## Left out

- The Streamlit pages are left out: page setup, styling, widgets, HTML rendering, `st.stop`, `st.error` and the download button. `App` keeps only the data flow between them.
- QR generation with `segno` and its PNG buffer (`generate_qr`) is left out: the image of the link is not modelled.
- App.GenerateMenuLink: `segno.make` raises `DataOverflowError` when the menu link is too long for the largest QR code (version 40, about 2953 bytes), which a menu of some thirty items can reach; the page then shows the error and no link. The model's generator fails only on parse errors and returns the link however long it is.
- `TEST_MODE` is left out. `App.MenuToPayment` describes the real payment URI. With `TEST_MODE` on, the app shows a fixed test QR code instead.
- The date widget and `date.today()` are left out; the date is the parameter `date`, standing for `str(menu_date)`.
- The JSON library is left out. `dumps` and `loads` are parameters. The round trip needs only that `loads` reads back what `dumps` wrote for the record at hand.
- App.ScannedMenu: `loads` yields a whole record or fails. The code does not check the decoded record's shape; a missing field raises only when the page reads it.
- Float arithmetic is left out: prices, amounts and totals are exact `real` numbers, so rounding in `qty * price` and in `total += amount` is not modelled.
- Menu.ParseMenuSpec: a quantity too large to convert to a float makes `qty * price` raise `OverflowError` in Python; the model multiplies exactly and the line parses.
- `str(float)` is left out. The payment amount text is the parameter `render`, which stands for `str(total)`.
- Numbers.ParseDecimal accepts only plain decimal notation with an optional sign and ASCII digits; exponents, `inf`, `nan`, underscores and non-ASCII decimal digits, all of which `float` accepts, are left out.
- Numbers.ParseDecimal gives the exact value of a long digit string; `float` gives `inf` for a value beyond the float range.
- Numbers.ParseInt accepts only an optional sign and ASCII digits; underscores and non-ASCII decimal digits, which `int` accepts, are left out.
- Numbers.ParseInt accepts digit strings of any length; from Python 3.11 on, `int` raises `ValueError` for more than 4300 digits.
- Base64Url.Decode is stricter than `urlsafe_b64decode`: it fails on characters outside the alphabet, which Python discards, and on `=` before the last two places. Python skips such an `=` when fewer than two symbols of its group have been read; when it completes a group, decoding stops there and the rest is dropped (`QQ==QUJD` gives the single byte `A`). Decoding is proved only on tokens the encoder writes.
- Base64Url.Decode reports every length that is not a multiple of four as incorrect padding. Python counts only alphabet characters and gives a separate message when the count leaves one symbol over.
- Links.QueryValue does not decode percent escapes or `+`. Tokens hold neither (`Codec.TokenIsQuerySafe`), so this does not affect menu links.
- Links.QueryValue is a reader of this model, not Streamlit's: it takes the last pair with the key, splits only at `&`, and ignores fragments. A bare key without `=` reads as the empty value, as Python's `parse_qs` with blank values kept reads it.
- Strings are sequences of Unicode scalar values. Lone surrogates in text, which Python's `str` allows and `encode()` rejects, cannot be expressed.
