/**
 * The two URLs the app builds by string formatting: the menu link
 * `APP_BASE_URL + "/?menu=" + token` that the menu QR code carries, and the
 * payment URI `upi://pay?pa=<id>&am=<amount>` of the payment QR code.
 * Neither value is escaped; a query reader gets each value back exactly
 * when the value holds no `&`.
 */
module Links {
  import opened Wrappers
  import opened Text

  /** The name of the deployed app. */
  const AppName: string := "upi-menu-qr-trn2jqq8bhc79ktxox4g5e"

  /** Where the app is deployed; the menu link points back at it. */
  const AppBaseUrl: string := "http://" + AppName + ".streamlit.app"

  /** The menu link for a token. */
  function MenuUrl(token: string): string {
    AppBaseUrl + "/?menu=" + token
  }

  /** The payment URI for a payee address `pa` and the amount as text `am`. */
  function PaymentUri(pa: string, am: string): string {
    "upi://pay?pa=" + pa + "&am=" + am
  }

  /** The query of a URL: what follows its first `?`. */
  function Query(url: string): Option<string> {
    if '?' in url then Some(url[IndexOf(url, '?') + 1..]) else None
  }

  /** The value of a `key=value` pair, if the pair has that key; a bare `key` has the empty value. */
  function PairValue(pair: string, key: string): Option<string> {
    if pair == key then Some("")
    else if |key| < |pair| && pair[..|key| + 1] == key + "=" then Some(pair[|key| + 1..])
    else None
  }

  /** The value of the last pair with the given key. */
  function LastValue(pairs: seq<string>, key: string): (r: Option<string>)
    ensures r.Some? ==> exists i :: 0 <= i < |pairs| && PairValue(pairs[i], key) == r
                                && forall j :: i < j < |pairs| ==> PairValue(pairs[j], key).None?
    ensures r.None? <==> forall i :: 0 <= i < |pairs| ==> PairValue(pairs[i], key).None?
  {
    if pairs == [] then None
    else
      var last := pairs[|pairs| - 1];
      var init := pairs[..|pairs| - 1];
      match PairValue(last, key)
      case Some(v) => Some(v)
      case None =>
        assert forall j :: 0 <= j < |init| ==> init[j] == pairs[j];
        LastValue(init, key)
  }

  /**
   * How a query parameter is read from a URL: the query is cut at every
   * `&`, and the last `key=value` piece with the key gives the value.
   * Percent-escapes are not decoded.
   */
  function QueryValue(url: string, key: string): Option<string> {
    match Query(url)
    case None => None
    case Some(q) => LastValue(Split(q, '&'), key)
  }

  /** A value read from a query never holds `&`. */
  lemma QueryValueHasNoAmp(url: string, key: string)
    requires QueryValue(url, key).Some?
    ensures '&' !in QueryValue(url, key).value
  {
    var pairs := Split(Query(url).value, '&');
    SplitPiecesFree(Query(url).value, '&');
    var i :| 0 <= i < |pairs| && PairValue(pairs[i], key) == QueryValue(url, key);
    if pairs[i] != key {
      assert pairs[i] == pairs[i][..|key| + 1] + QueryValue(url, key).value;
    }
  }

  /** The first `?` of a URL whose prefix holds none is the one after the prefix. */
  lemma QueryAfter(prefix: string, rest: string)
    requires '?' !in prefix
    ensures Query(prefix + "?" + rest) == Some(rest)
  {
    var url := prefix + "?" + rest;
    assert url[|prefix|] == '?';
    assert url[..|prefix|] == prefix;
    assert url[|prefix| + 1..] == rest;
  }

  /** A pair written as `key=value` gives its value for its key. */
  lemma PairValueOf(key: string, v: string)
    ensures PairValue(key + "=" + v, key) == Some(v)
  {
    var pair := key + "=" + v;
    assert pair[..|key| + 1] == key + "=";
    assert pair[|key| + 1..] == v;
  }

  /** A pair written with another key of the same length gives nothing for the key. */
  lemma PairValueOther(key: string, other: string, v: string)
    requires |key| == |other| && key != other
    ensures PairValue(other + "=" + v, key) == None
  {
    var pair := other + "=" + v;
    assert pair[..|key|] == other;
  }

  /** The link prefix has no `?` of its own. */
  lemma NoMarkInBase()
    ensures '?' !in AppBaseUrl + "/"
  {
    assert '?' !in AppName;
    NotInAppend("http://", AppName, '?');
    NotInAppend("http://" + AppName, ".streamlit.app", '?');
    NotInAppend(AppBaseUrl, "/", '?');
  }

  /** The menu link carries its token as the `menu` parameter, whenever the token holds no `&`. */
  lemma MenuUrlQuery(token: string)
    requires '&' !in token
    ensures QueryValue(MenuUrl(token), "menu") == Some(token)
  {
    var q := "menu" + "=" + token;
    NoMarkInBase();
    assert MenuUrl(token) == (AppBaseUrl + "/") + "?" + q;
    QueryAfter(AppBaseUrl + "/", q);
    NotInAppend("menu=", token, '&');
    assert q == "menu=" + token;
    SplitWithoutSep(q, '&');
    PairValueOf("menu", token);
  }

  /** The two pieces of a payment query, when neither value holds `&`. */
  lemma PaymentPairs(pa: string, am: string)
    requires '&' !in pa && '&' !in am
    ensures QueryValue(PaymentUri(pa, am), "pa") == LastValue(["pa=" + pa, "am=" + am], "pa")
    ensures QueryValue(PaymentUri(pa, am), "am") == LastValue(["pa=" + pa, "am=" + am], "am")
  {
    var p1, p2 := "pa=" + pa, "am=" + am;
    var q := p1 + "&" + p2;
    assert PaymentUri(pa, am) == "upi://pay" + "?" + q;
    QueryAfter("upi://pay", q);
    NotInAppend("pa=", pa, '&');
    NotInAppend("am=", am, '&');
    var parts := [p1, p2];
    assert Join(parts, '&') == q by {
      assert parts[1..] == [p2];
    }
    SplitJoin(parts, '&');
  }

  /** The amount is the last piece of the payment query, so it reads back whatever the payee holds. */
  lemma PaymentAmount(pa: string, am: string)
    requires '&' !in am
    ensures QueryValue(PaymentUri(pa, am), "am") == Some(am)
  {
    var p1, p2 := "pa=" + pa, "am=" + am;
    var q := p1 + "&" + p2;
    assert PaymentUri(pa, am) == "upi://pay" + "?" + q;
    QueryAfter("upi://pay", q);
    NotInAppend("am=", am, '&');
    SplitLast(p1, p2, '&');
    PairValueOf("am", am);
  }

  /**
   * The payment URI carries the amount as `am` whenever the amount holds
   * no `&`; it carries the payee as `pa` exactly when the payee holds no
   * `&` either.
   */
  lemma PaymentUriQuery(pa: string, am: string)
    requires '&' !in am
    ensures QueryValue(PaymentUri(pa, am), "am") == Some(am)
    ensures QueryValue(PaymentUri(pa, am), "pa") == Some(pa) <==> '&' !in pa
  {
    PaymentAmount(pa, am);
    if '&' !in pa {
      PaymentPairs(pa, am);
      var p1, p2 := "pa=" + pa, "am=" + am;
      PairValueOf("am", am);
      PairValueOf("pa", pa);
      PairValueOther("pa", "am", am);
      assert [p1, p2][..1] == [p1];
    } else if QueryValue(PaymentUri(pa, am), "pa").Some? {
      QueryValueHasNoAmp(PaymentUri(pa, am), "pa");
    }
  }
}
