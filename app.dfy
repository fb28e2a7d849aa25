/**
 * The two pages of the app, without their widgets: the generator turns a
 * shop's menu text into the menu link its QR code carries, and the scan
 * page reads the record back from the link and builds the payment URI
 * from it.
 */
module App {
  import opened Wrappers
  import Menu
  import Codec
  import Links
  import Text
  import Base64Url

  /** The record the menu link carries: the shop, the date as text, the payee address, the items and their total. */
  datatype MenuData = MenuData(shop: string, date: string, upi: string, items: seq<Menu.Item>, total: real)

  /** The record for a parsed menu. */
  function RecordOf(shop: string, date: string, upi: string, m: Menu.ParsedMenu): MenuData {
    MenuData(shop, date, upi, m.items, m.total)
  }

  /** A record whose every amount is `qty * price` and whose total is the sum of those products. */
  ghost predicate Consistent(d: MenuData) {
    Menu.AmountsConsistent(d.items) && d.total == Menu.SumProducts(d.items)
  }

  /**
   * The record built for menu text that parses is consistent, and it holds
   * one item per line of the text.
   */
  lemma RecordOfParsedMenu(shop: string, date: string, upi: string, menuText: string)
    ensures Menu.ParseMenuSpec(menuText).Success? ==>
              var d := RecordOf(shop, date, upi, Menu.ParseMenuSpec(menuText).value);
              Consistent(d) && |d.items| == |Menu.Lines(menuText)|
  {
    if Menu.ParseMenuSpec(menuText).Success? {
      Menu.ParsedMenuConsistent(menuText);
      Menu.ParseMenuSucceedsIff(menuText);
    }
  }

  /**
   * The "Generate Menu QR" action: parse the menu text, then encode the
   * record and put the token into the menu link. A menu that does not parse
   * gives its parse error and no link. `dumps` is the JSON writer and
   * `date` is the chosen date as text.
   */
  method GenerateMenuLink(dumps: MenuData -> string, shop: string, date: string, upi: string, menuText: string)
    returns (r: Result<string, Menu.ParseError>)
    ensures r.Failure? <==> Menu.ParseMenuSpec(menuText).Failure?
    ensures r.Failure? ==> r.error == Menu.ParseMenuSpec(menuText).error
    ensures r.Success? ==>
              r.value == Links.MenuUrl(Codec.EncodeData(dumps, RecordOf(shop, date, upi, Menu.ParseMenuSpec(menuText).value)))
  {
    var parsed := Menu.ParseMenu(menuText);
    match parsed
    case Failure(e) =>
      r := Failure(e);
    case Success(m) =>
      var encoded := Codec.EncodeData(dumps, RecordOf(shop, date, upi, m));
      r := Success(Links.MenuUrl(encoded));
  }

  /** Why the scan page shows no menu. */
  datatype ScanError =
    | NoMenu                               // the link has no `menu` parameter
    | Undecodable(reason: Codec.CodecError)

  /** The scan page: the record in the `menu` parameter of the link, read back with the JSON reader `loads`. */
  function ScannedMenu(loads: string -> Option<MenuData>, url: string): (r: Result<MenuData, ScanError>)
    ensures r.Failure? && r.error == NoMenu <==> Links.QueryValue(url, "menu").None?
  {
    match Links.QueryValue(url, "menu")
    case None => Failure(NoMenu)
    case Some(token) =>
      match Codec.DecodeData(loads, token)
      case Failure(e) => Failure(Undecodable(e))
      case Success(d) => Success(d)
  }

  /** The payment URI of the scan page, for the record's payee and total; `render` writes the total as `str` does. */
  function PaymentLink(d: MenuData, render: real -> string): string {
    Links.PaymentUri(d.upi, render(d.total))
  }

  /**
   * A link whose query is the bare key `menu` has a `menu` parameter with the
   * empty value, so the scan page tries to decode it; the empty token decodes
   * to the empty text, which the JSON reader rejects.
   */
  lemma BareMenuParameter(loads: string -> Option<MenuData>)
    requires loads("").None?
    ensures Links.QueryValue(Links.AppBaseUrl + "/?menu", "menu") == Some("")
    ensures ScannedMenu(loads, Links.AppBaseUrl + "/?menu") == Failure(Undecodable(Codec.BadJson))
  {
    Links.NoMarkInBase();
    assert Links.AppBaseUrl + "/?menu" == (Links.AppBaseUrl + "/") + "?" + "menu";
    Links.QueryAfter(Links.AppBaseUrl + "/", "menu");
    Text.SplitWithoutSep("menu", '&');
    assert Base64Url.Decode("") == Success([]);
  }

  /** Scanning a generated menu link gives back the record it was made from, whenever `loads` reads back what `dumps` wrote. */
  lemma ScanGeneratedLink(dumps: MenuData -> string, loads: string -> Option<MenuData>, d: MenuData)
    requires loads(dumps(d)) == Some(d)
    ensures ScannedMenu(loads, Links.MenuUrl(Codec.EncodeData(dumps, d))) == Success(d)
  {
    var token := Codec.EncodeData(dumps, d);
    Codec.TokenIsQuerySafe(token);
    Links.MenuUrlQuery(token);
    Codec.DecodeEncodeData(dumps, loads, d);
  }

  /**
   * From menu text to payment: when the menu parses and `loads` reads back
   * what `dumps` wrote for its record, the link generated for it scans back
   * to a consistent record whose items and total are the parsed ones; and
   * when the rendered total holds no `&`, the payment URI built from it
   * carries that total, and carries the payee address exactly when the
   * address holds no `&` either.
   */
  lemma MenuToPayment(dumps: MenuData -> string, loads: string -> Option<MenuData>, render: real -> string,
                      shop: string, date: string, upi: string, menuText: string)
    requires Menu.ParseMenuSpec(menuText).Success?
    requires var d := RecordOf(shop, date, upi, Menu.ParseMenuSpec(menuText).value); loads(dumps(d)) == Some(d)
    ensures var m := Menu.ParseMenuSpec(menuText).value;
            var url := Links.MenuUrl(Codec.EncodeData(dumps, RecordOf(shop, date, upi, m)));
            var scanned := ScannedMenu(loads, url);
            && scanned.Success? && scanned.value.items == m.items && scanned.value.total == m.total
            && Consistent(scanned.value)
            && ('&' !in render(m.total) ==>
                  && Links.QueryValue(PaymentLink(scanned.value, render), "am") == Some(render(m.total))
                  && (Links.QueryValue(PaymentLink(scanned.value, render), "pa") == Some(upi) <==> '&' !in upi))
  {
    var m := Menu.ParseMenuSpec(menuText).value;
    var d := RecordOf(shop, date, upi, m);
    ScanGeneratedLink(dumps, loads, d);
    RecordOfParsedMenu(shop, date, upi, menuText);
    if '&' !in render(m.total) {
      Links.PaymentUriQuery(upi, render(m.total));
    }
  }
}
