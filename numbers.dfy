/**
 * The two number conversions `parse_menu` applies to its fields: `int(qty)`
 * and `float(price)`. Prices are exact rationals (`real`), so binary
 * floating-point rounding is not part of the model.
 */
module Numbers {
  import opened Wrappers

  predicate IsDigit(c: char) {
    '0' <= c <= '9'
  }

  predicate AllDigits(s: string) {
    forall i :: 0 <= i < |s| ==> IsDigit(s[i])
  }

  function Pow10(k: nat): (p: nat)
    ensures p >= 1
  {
    if k == 0 then 1 else 10 * Pow10(k - 1)
  }

  /** The value of a run of decimal digits, most significant first; it has at most `|ds|` digits. */
  function DigitsValue(ds: string): (n: nat)
    requires AllDigits(ds)
    ensures n < Pow10(|ds|)
  {
    if ds == [] then 0
    else
      var init := ds[..|ds| - 1];
      var m := DigitsValue(init);
      assert m <= Pow10(|init|) - 1;
      m * 10 + (ds[|ds| - 1] as int - '0' as int)
  }

  /** Splits off one leading `-` or `+`; `true` means negative. */
  function SplitSign(s: string): (bool, string) {
    if s != [] && s[0] == '-' then (true, s[1..])
    else if s != [] && s[0] == '+' then (false, s[1..])
    else (false, s)
  }

  /**
   * `int(s)` on a stripped field: an optional sign followed by at least one
   * ASCII digit. Only a leading `-` makes the value negative.
   */
  function ParseInt(s: string): (r: Option<int>)
    ensures r.Some? ==> s != [] && (r.value < 0 ==> s[0] == '-')
  {
    var (negative, ds) := SplitSign(s);
    if ds != [] && AllDigits(ds) then
      var v: int := DigitsValue(ds);
      Some(if negative then -v else v)
    else None
  }

  /** The length of the longest all-digit prefix of `s`. */
  function DigitRun(s: string): (k: nat)
    ensures k <= |s| && AllDigits(s[..k])
    ensures k == |s| || !IsDigit(s[k])
  {
    if s != [] && IsDigit(s[0]) then
      var k := 1 + DigitRun(s[1..]);
      assert s[..k] == [s[0]] + s[1..][..k - 1];
      k
    else 0
  }

  /**
   * `float(s)` on a stripped field, for plain decimal notation: an optional
   * sign, then digits with an optional `.` and fraction digits, at least one
   * digit in all (`10`, `2.50`, `3.`, `.5`, `-1.25`). Only a leading `-`
   * makes the value negative.
   */
  function ParseDecimal(s: string): (r: Option<real>)
    ensures r.Some? ==> s != [] && (r.value < 0.0 ==> s[0] == '-')
  {
    var (negative, body) := SplitSign(s);
    match ParseUnsignedDecimal(body)
    case None => None
    case Some(m) => Some(if negative then -m else m)
  }

  /** The unsigned part of `float`'s plain decimal notation. */
  function ParseUnsignedDecimal(body: string): (r: Option<real>)
    ensures r.Some? ==> body != [] && r.value >= 0.0
  {
    var k := DigitRun(body);
    var whole, rest := body[..k], body[k..];
    if rest == [] && whole != [] then
      Some(DecimalValue(whole, ""))
    else if rest != [] && rest[0] == '.' && AllDigits(rest[1..]) && (whole != [] || |rest| > 1) then
      Some(DecimalValue(whole, rest[1..]))
    else None
  }

  /** The value of the decimal notation `whole.frac`: all its digits read as an integer, scaled down by the fraction's length. */
  function DecimalValue(whole: string, frac: string): real
    requires AllDigits(whole) && AllDigits(frac)
  {
    Shift(DigitsValue(whole + frac), |frac|)
  }

  /** `z / 10^k`, one decimal place at a time. */
  function Shift(z: int, k: nat): (r: real)
    ensures z >= 0 ==> r >= 0.0
  {
    if k == 0 then z as real else Shift(z, k - 1) / 10.0
  }

  /** `Shift(z, k)` is the exact quotient `z / 10^k`. */
  lemma {:induction false} ShiftIsQuotient(z: int, k: nat)
    ensures Shift(z, k) * Pow10(k) as real == z as real
  {
    if k > 0 {
      ShiftIsQuotient(z, k - 1);
      var q := Shift(z, k);
      assert q * 10.0 == Shift(z, k - 1);
      assert Pow10(k) as real == 10.0 * Pow10(k - 1) as real;
      assert q * Pow10(k) as real == (q * 10.0) * Pow10(k - 1) as real;
    }
  }


  /** The decimal digits of `n`, without leading zeros; they denote `n`. */
  function NatToText(n: nat): (r: string)
    ensures r != [] && AllDigits(r)
    ensures DigitsValue(r) == n
    ensures |r| > 1 ==> r[0] != '0'
  {
    var last := ['0' + (n % 10) as char];
    if n < 10 then last
    else
      var init := NatToText(n / 10);
      var r := init + last;
      assert r[..|r| - 1] == init;
      r
  }

  /** `str(z)` for an integer. */
  function IntToText(z: int): string {
    if z < 0 then "-" + NatToText(-z) else NatToText(z)
  }

  /** `int` reads back every integer `str` writes. */
  lemma ParseIntOfText(z: int)
    ensures ParseInt(IntToText(z)) == Some(z)
  {
    if z < 0 {
      assert SplitSign(IntToText(z)) == (true, NatToText(-z));
    } else {
      assert SplitSign(IntToText(z)) == (false, NatToText(z));
    }
  }

  /** Every text `int` accepts, `float` accepts with the same value (the price column accepts integer prices). */
  lemma ParseDecimalOfInt(s: string)
    requires ParseInt(s).Some?
    ensures ParseDecimal(s) == Some(ParseInt(s).value as real)
  {
    var (negative, body) := SplitSign(s);
    DigitRunAll(body);
    assert body[..|body|] == body && body + "" == body;
  }

  lemma {:induction false} DigitRunAll(s: string)
    requires AllDigits(s)
    ensures DigitRun(s) == |s|
  {
    if s != [] {
      DigitRunAll(s[1..]);
    }
  }

  /** A sign, the whole digits, and a `.` with the fraction digits when there are any. */
  function DecimalNotation(negative: bool, whole: string, frac: string): string {
    (if negative then "-" else "") + UnsignedNotation(whole, frac)
  }

  function UnsignedNotation(whole: string, frac: string): string {
    whole + (if frac == [] then "" else "." + frac)
  }

  /**
   * `float` reads back every plain decimal notation: a sign, a non-empty
   * whole part and a possibly empty fraction part denote `±whole.frac`.
   */
  lemma ParseDecimalOfNotation(negative: bool, whole: string, frac: string)
    requires whole != [] && AllDigits(whole) && AllDigits(frac)
    ensures
      var m := DecimalValue(whole, frac);
      ParseDecimal(DecimalNotation(negative, whole, frac)) == Some(if negative then -m else m)
  {
    var body := UnsignedNotation(whole, frac);
    var text := DecimalNotation(negative, whole, frac);
    assert SplitSign(text) == (negative, body) by {
      assert body[0] == whole[0];
      if negative {
        assert text[1..] == body;
      } else {
        assert text == body;
      }
    }
    ParseUnsignedParts(whole, frac);
    assert ParseUnsignedDecimal(body) == Some(DecimalValue(whole, frac));
  }

  lemma ParseUnsignedParts(whole: string, frac: string)
    requires whole != [] && AllDigits(whole) && AllDigits(frac)
    ensures ParseUnsignedDecimal(UnsignedNotation(whole, frac)) == Some(DecimalValue(whole, frac))
  {
    var body := UnsignedNotation(whole, frac);
    DigitRunPrefix(whole, if frac == [] then "" else "." + frac);
    var k := DigitRun(body);
    assert k == |whole| && body[..k] == whole;
    var rest := body[k..];
    if frac == [] {
      assert rest == [];
    } else {
      assert rest == "." + frac;
      assert rest[0] == '.' && rest[1..] == frac && |rest| > 1;
    }
  }

  /** The digit run of `ds + t` is `ds` when `t` does not start with a digit. */
  lemma {:induction false} DigitRunPrefix(ds: string, t: string)
    requires AllDigits(ds)
    requires t == [] || !IsDigit(t[0])
    ensures DigitRun(ds + t) == |ds|
  {
    if ds != [] {
      assert (ds + t)[1..] == ds[1..] + t;
      DigitRunPrefix(ds[1..], t);
    } else {
      assert ds + t == t;
    }
  }
}
