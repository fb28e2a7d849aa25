/**
 * `parse_menu`: the owner's free-text menu, one `name, qty, price` line per
 * item, turned into the list of item records and their running total. Any
 * failing line aborts the whole parse; there is no partial result.
 */
module Menu {
  import opened Wrappers
  import opened Text
  import opened Numbers

  /** One item record: `{"name", "qty", "price", "amount"}`. */
  datatype Item = Item(name: string, qty: int, price: real, amount: real)

  /** A line's three fields after unpacking and conversion: `name`, `int(qty)`, `float(price)`. */
  datatype Row = Row(name: string, qty: int, price: real)

  /** What `parse_menu` returns: `(items, total)`. */
  datatype ParsedMenu = ParsedMenu(items: seq<Item>, total: real)

  /** The exceptions a line can raise, in the order the line's steps run. */
  datatype ParseError =
    | NotEnoughValues(got: nat)    // unpacking fewer than three fields
    | TooManyValues                // unpacking more than three fields
    | InvalidInt(field: string)    // `int(qty)` rejects the second field
    | InvalidFloat(field: string)  // `float(price)` rejects the third field

  /**
   * `text.strip().split("\n")`: at least one line, none holding a newline,
   * and joined by newlines they give back the stripped text.
   */
  function Lines(text: string): (r: seq<string>)
    ensures |r| >= 1
    ensures forall i :: 0 <= i < |r| ==> '\n' !in r[i]
    ensures Join(r, '\n') == Strip(text)
  {
    SplitPiecesFree(Strip(text), '\n');
    JoinSplit(Strip(text), '\n');
    Split(Strip(text), '\n')
  }

  /** `[x.strip() for x in line.split(",")]`: every field is already stripped. */
  function Fields(line: string): (r: seq<string>)
    ensures forall i :: 0 <= i < |r| ==> Strip(r[i]) == r[i]
  {
    var parts := Split(line, ',');
    forall i | 0 <= i < |parts| {
      StripIdempotent(parts[i]);
    }
    seq(|parts|, i requires 0 <= i < |parts| => Strip(parts[i]))
  }

  /** The part of the loop body that can raise: split and strip the fields, then convert them. A line that converts has exactly two commas. */
  function ParseLine(line: string): (r: Result<Row, ParseError>)
    ensures r.Success? ==> Count(line, ',') == 2
  {
    FieldsOfLine(line);
    ParseFields(Fields(line))
  }

  /** Unpack three fields, then `int`, then `float`. */
  function ParseFields(fields: seq<string>): Result<Row, ParseError> {
    if |fields| < 3 then Failure(NotEnoughValues(|fields|))
    else if |fields| > 3 then Failure(TooManyValues)
    else
      match ParseInt(fields[1])
      case None => Failure(InvalidInt(fields[1]))
      case Some(qty) =>
        match ParseDecimal(fields[2])
        case None => Failure(InvalidFloat(fields[2]))
        case Some(price) => Success(Row(fields[0], qty, price))
  }

  /** The item the loop appends for a row: its amount is `qty * price`. */
  function ItemOf(row: Row): Item {
    Item(row.name, row.qty, row.price, row.qty as real * row.price)
  }

  /** The items of the rows, in order. */
  function Items(rows: seq<Row>): seq<Item> {
    seq(|rows|, i requires 0 <= i < |rows| => ItemOf(rows[i]))
  }

  /** The lines parsed in order by `ParseLine`, stopping at the first that fails. */
  function ParseLines(lines: seq<string>): Result<seq<Row>, ParseError> {
    ParseEach(ParseLine, lines)
  }

  /** `parse` applied to each element in order, stopping at the first failure. */
  function ParseEach<T, U, E>(parse: T -> Result<U, E>, xs: seq<T>): Result<seq<U>, E> {
    if xs == [] then Success([])
    else
      var y :- parse(xs[0]);
      var ys :- ParseEach(parse, xs[1..]);
      Success([y] + ys)
  }

  /** The batch succeeds exactly when every element parses, and then gives one result per element, in order. */
  lemma {:induction false} ParseEachSuccess<T, U, E>(parse: T -> Result<U, E>, xs: seq<T>)
    ensures ParseEach(parse, xs).Success? <==> forall i :: 0 <= i < |xs| ==> parse(xs[i]).Success?
    ensures ParseEach(parse, xs).Success? ==>
              |ParseEach(parse, xs).value| == |xs|
              && forall i :: 0 <= i < |xs| ==> parse(xs[i]) == Success(ParseEach(parse, xs).value[i])
  {
    if xs != [] {
      ParseEachSuccess(parse, xs[1..]);
      assert forall i :: 1 <= i < |xs| ==> xs[i] == xs[1..][i - 1];
    }
  }

  /** A failing batch reports the error of the first element that fails. */
  lemma {:induction false} ParseEachFailure<T, U, E>(parse: T -> Result<U, E>, xs: seq<T>)
    requires ParseEach(parse, xs).Failure?
    ensures exists k :: 0 <= k < |xs| && parse(xs[k]) == Failure(ParseEach(parse, xs).error)
                        && forall j :: 0 <= j < k ==> parse(xs[j]).Success?
  {
    if parse(xs[0]).Failure? {
      assert parse(xs[0]) == Failure(ParseEach(parse, xs).error);
    } else {
      ParseEachFailure(parse, xs[1..]);
      var k :| 0 <= k < |xs[1..]| && parse(xs[1..][k]) == Failure(ParseEach(parse, xs[1..]).error)
               && forall j :: 0 <= j < k ==> parse(xs[1..][j]).Success?;
      assert parse(xs[k + 1]) == Failure(ParseEach(parse, xs).error);
      assert forall j :: 1 <= j < k + 1 ==> xs[j] == xs[1..][j - 1];
    }
  }

  /** Parsing one more element extends a successful batch, or fails with that element's error. */
  lemma {:induction false} ParseEachSnoc<T, U, E>(parse: T -> Result<U, E>, xs: seq<T>, x: T)
    requires ParseEach(parse, xs).Success?
    ensures ParseEach(parse, xs + [x]) ==
              match parse(x)
              case Failure(e) => Failure(e)
              case Success(y) => Success(ParseEach(parse, xs).value + [y])
  {
    if xs == [] {
      assert xs + [x] == [x];
      assert ParseEach(parse, [x][1..]) == Success([]);
      if parse(x).Success? {
        var y := parse(x).value;
        assert ParseEach(parse, xs).value + [y] == [y] == [y] + [];
      }
    } else {
      assert (xs + [x])[1..] == xs[1..] + [x];
      ParseEachSnoc(parse, xs[1..], x);
      var y0 := parse(xs[0]).value;
      if parse(x).Success? {
        assert [y0] + (ParseEach(parse, xs[1..]).value + [parse(x).value])
            == ([y0] + ParseEach(parse, xs[1..]).value) + [parse(x).value];
      }
    }
  }

  /** Once a prefix parses and the next element fails, the whole batch fails with that element's error. */
  lemma {:induction false} ParseEachStopsAt<T, U, E>(parse: T -> Result<U, E>, xs: seq<T>, i: nat)
    requires i < |xs| && ParseEach(parse, xs[..i]).Success? && parse(xs[i]).Failure?
    ensures ParseEach(parse, xs) == Failure(parse(xs[i]).error)
  {
    if i > 0 {
      assert xs[..i][1..] == xs[1..][..i - 1];
      ParseEachStopsAt(parse, xs[1..], i - 1);
    }
  }

  /** One turn of a loop that parses `xs` in order: it either extends the prefix's results or ends the batch. */
  lemma LoopStep<T, U, E>(parse: T -> Result<U, E>, xs: seq<T>, i: nat)
    requires i < |xs| && ParseEach(parse, xs[..i]).Success?
    ensures parse(xs[i]).Failure? ==> ParseEach(parse, xs) == Failure(parse(xs[i]).error)
    ensures parse(xs[i]).Success? ==>
              ParseEach(parse, xs[..i + 1]) == Success(ParseEach(parse, xs[..i]).value + [parse(xs[i]).value])
  {
    ParseEachSnoc(parse, xs[..i], xs[i]);
    assert xs[..i] + [xs[i]] == xs[..i + 1];
    if parse(xs[i]).Failure? {
      ParseEachStopsAt(parse, xs, i);
    }
  }

  /** The running total: `total += amount` from `0`, in list order. */
  function SumAmounts(items: seq<Item>): real {
    if items == [] then 0.0 else SumAmounts(items[..|items| - 1]) + items[|items| - 1].amount
  }

  /** One more row gives one more item, at the end. */
  lemma ItemsSnoc(rows: seq<Row>, row: Row)
    ensures Items(rows + [row]) == Items(rows) + [ItemOf(row)]
  {
  }

  /** One more item adds its amount to the total. */
  lemma SumAmountsSnoc(items: seq<Item>, item: Item)
    ensures SumAmounts(items + [item]) == SumAmounts(items) + item.amount
  {
    assert (items + [item])[..|items|] == items;
  }

  /** `parse_menu(text)` as a value: the items of all lines and their total, or the first error. */
  function ParseMenuSpec(text: string): Result<ParsedMenu, ParseError> {
    Tabulate(ParseLine, Lines(text))
  }

  /** The lines converted in order by `parseLine`, as items with their total, or the first error. */
  function Tabulate(parseLine: string -> Result<Row, ParseError>, lines: seq<string>): Result<ParsedMenu, ParseError> {
    var rows :- ParseEach(parseLine, lines);
    var items := Items(rows);
    Success(ParsedMenu(items, SumAmounts(items)))
  }

  /** `parse_menu`: split the text into lines and run the loop over them. */
  method ParseMenu(text: string) returns (result: Result<ParsedMenu, ParseError>)
    ensures result == ParseMenuSpec(text)
  {
    var lines := Lines(text);
    result := ParseMenuLoop(ParseLine, lines);
  }

  /**
   * The loop of `parse_menu`, for the line conversion `parseLine`: each line
   * is converted, its item appended and its amount added to the total; the
   * first line that fails ends the loop with its error.
   */
  method ParseMenuLoop(parseLine: string -> Result<Row, ParseError>, lines: seq<string>)
    returns (result: Result<ParsedMenu, ParseError>)
    ensures result == Tabulate(parseLine, lines)
  {
    var items: seq<Item> := [];
    var total := 0.0;
    ghost var rows: seq<Row> := [];
    for i := 0 to |lines|
      invariant ParseEach(parseLine, lines[..i]) == Success(rows)
      invariant items == Items(rows)
      invariant total == SumAmounts(items)
    {
      var parsed := parseLine(lines[i]);
      LoopStep(parseLine, lines, i);
      match parsed
      case Failure(e) =>
        return Failure(e);
      case Success(row) =>
        var amount := row.qty as real * row.price;
        var item := Item(row.name, row.qty, row.price, amount);
        assert item == ItemOf(row);
        ItemsSnoc(rows, row);
        SumAmountsSnoc(items, item);
        rows := rows + [row];
        items := items + [item];
        total := total + amount;
    }
    assert lines[..|lines|] == lines;
    result := Success(ParsedMenu(items, total));
  }

  /**
   * `parse_menu` succeeds exactly when every line of the stripped text
   * parses; it then returns one item per line, in line order, and the total
   * of their amounts.
   */
  lemma ParseMenuSucceedsIff(text: string)
    ensures ParseMenuSpec(text).Success? <==> forall i :: 0 <= i < |Lines(text)| ==> ParseLine(Lines(text)[i]).Success?
    ensures ParseMenuSpec(text).Success? ==>
              var m := ParseMenuSpec(text).value;
              && |m.items| == |Lines(text)|
              && (forall i :: 0 <= i < |m.items| ==> m.items[i] == ItemOf(ParseLine(Lines(text)[i]).value))
              && m.total == SumAmounts(m.items)
  {
    ParseEachSuccess(ParseLine, Lines(text));
  }

  /** A failing `parse_menu` reports the error of the first line that fails; every line before it parses. */
  lemma ParseMenuFailsAtFirstBadLine(text: string)
    requires ParseMenuSpec(text).Failure?
    ensures exists k :: 0 <= k < |Lines(text)| && ParseLine(Lines(text)[k]) == Failure(ParseMenuSpec(text).error)
                        && forall j :: 0 <= j < k ==> ParseLine(Lines(text)[j]).Success?
  {
    ParseEachFailure(ParseLine, Lines(text));
  }

  /** A line has one more field than it has commas; each field is the stripped piece between them. */
  lemma FieldsOfLine(line: string)
    ensures |Fields(line)| == Count(line, ',') + 1
    ensures forall i :: 0 <= i < |Fields(line)| ==> Fields(line)[i] == Strip(Split(line, ',')[i])
  {
    SplitCount(line, ',');
  }

  /**
   * The fields convert only when there are exactly three of them, the
   * second an integer and the third a decimal; the row then holds the first
   * field as name and those two numbers as quantity and price. No sign check
   * is made on either number.
   */
  lemma ParseFieldsSuccess(fields: seq<string>)
    ensures ParseFields(fields).Success? <==>
              |fields| == 3 && ParseInt(fields[1]).Some? && ParseDecimal(fields[2]).Some?
    ensures ParseFields(fields).Success? ==>
              var row := ParseFields(fields).value;
              && row.name == fields[0]
              && Some(row.qty) == ParseInt(fields[1])
              && Some(row.price) == ParseDecimal(fields[2])
  {
  }

  /** Fewer than three fields fails with the field count, more than three as too many values; three fields fail only on a bad number. */
  lemma ParseFieldsFailure(fields: seq<string>)
    ensures |fields| < 3 ==> ParseFields(fields) == Failure(NotEnoughValues(|fields|))
    ensures |fields| > 3 ==> ParseFields(fields) == Failure(TooManyValues)
    ensures |fields| == 3 && ParseInt(fields[1]).None? ==> ParseFields(fields) == Failure(InvalidInt(fields[1]))
    ensures |fields| == 3 && ParseInt(fields[1]).Some? && ParseDecimal(fields[2]).None? ==>
              ParseFields(fields) == Failure(InvalidFloat(fields[2]))
  {
  }

  /** Empty or whitespace-only text fails: it strips to `""`, one line with one field. */
  lemma BlankMenuFails(text: string)
    requires forall i :: 0 <= i < |text| ==> IsSpace(text[i])
    ensures ParseMenuSpec(text) == Failure(NotEnoughValues(1))
  {
    StripEmptyIff(text);
    assert Lines(text) == [""];
    BlankLineFails();
    assert ParseEach(ParseLine, [""]) == Failure(NotEnoughValues(1));
  }

  /** The empty line has one field, so it fails to unpack. */
  lemma BlankLineFails()
    ensures ParseLine("") == Failure(NotEnoughValues(1))
  {
    assert Strip("") == "";
    assert Fields("") == [""];
  }

  /** Every item's amount is its quantity times its price. */
  ghost predicate AmountsConsistent(items: seq<Item>) {
    forall i :: 0 <= i < |items| ==> items[i].amount == items[i].qty as real * items[i].price
  }

  /** `sum(qty * price)` over the items, left to right. */
  function SumProducts(items: seq<Item>): real {
    if items == [] then 0.0
    else SumProducts(items[..|items| - 1]) + items[|items| - 1].qty as real * items[|items| - 1].price
  }

  /** When every amount is its product, the total of the amounts is the total of the products. */
  lemma {:induction false} SumOfConsistent(items: seq<Item>)
    requires AmountsConsistent(items)
    ensures SumAmounts(items) == SumProducts(items)
  {
    if items != [] {
      SumOfConsistent(items[..|items| - 1]);
    }
  }

  /**
   * What `parse_menu` returns is consistent: each amount is `qty * price`
   * and the total is the sum of those products.
   */
  lemma ParsedMenuConsistent(text: string)
    requires ParseMenuSpec(text).Success?
    ensures AmountsConsistent(ParseMenuSpec(text).value.items)
    ensures ParseMenuSpec(text).value.total == SumProducts(ParseMenuSpec(text).value.items)
  {
    var rows := ParseLines(Lines(text)).value;
    ItemsConsistent(rows);
    SumOfConsistent(Items(rows));
  }

  /** The items made from rows carry `qty * price` as their amounts. */
  lemma ItemsConsistent(rows: seq<Row>)
    ensures AmountsConsistent(Items(rows))
  {
  }

  /** Three pieces joined by `,` with a space after each comma. */
  lemma JoinThree(a: string, b: string, c: string)
    ensures Join([a, " " + b, " " + c], ',') == a + ", " + b + ", " + c
  {
    var parts := [a, " " + b, " " + c];
    assert parts[1..] == [" " + b, " " + c];
    assert parts[1..][1..] == [" " + c];
    assert Join(parts[1..], ',') == " " + b + [','] + " " + c;
  }

  /** A line that splits into three pieces has their stripped forms as fields. */
  lemma FieldsOfThree(line: string, p0: string, p1: string, p2: string)
    requires Split(line, ',') == [p0, p1, p2]
    ensures |Fields(line)| == 3
    ensures Fields(line)[0] == Strip(p0) && Fields(line)[1] == Strip(p1) && Fields(line)[2] == Strip(p2)
  {
    var parts := Split(line, ',');
    assert |Fields(line)| == |parts|;
    assert parts[0] == p0 && parts[1] == p1 && parts[2] == p2;
  }

  /**
   * A line written `a, b, c`, as the placeholder shows, has the fields `a`,
   * `b` and `c` when none of them holds a comma or starts or ends with
   * whitespace.
   */
  lemma LineFields(line: string, a: string, b: string, c: string)
    requires line == a + ", " + b + ", " + c
    requires a != [] && !IsSpace(a[0]) && !IsSpace(a[|a| - 1]) && ',' !in a
    requires b != [] && !IsSpace(b[0]) && !IsSpace(b[|b| - 1]) && ',' !in b
    requires c != [] && !IsSpace(c[0]) && !IsSpace(c[|c| - 1]) && ',' !in c
    ensures Fields(line) == [a, b, c]
  {
    var parts := [a, " " + b, " " + c];
    JoinThree(a, b, c);
    NotInAppend(" ", b, ',');
    NotInAppend(" ", c, ',');
    SplitJoin(parts, ',');
    FieldsOfThree(line, a, " " + b, " " + c);
    StripPadded(a);
    StripPadded(b);
    StripPadded(c);
    Triple(Fields(line), a, b, c);
  }

  /** The placeholder line `Tea, 2, 10` parses to the item Tea, 2 at 10.0, with amount 20.0. */
  lemma SampleRow()
    ensures ParseLine("Tea, 2, 10") == Success(Row("Tea", 2, 10.0))
    ensures ItemOf(Row("Tea", 2, 10.0)).amount == 20.0
  {
    LineFields("Tea, 2, 10", "Tea", "2", "10");
    SampleFields();
  }

  /** The fields of the placeholder line convert to Tea, 2 and 10.0. */
  lemma SampleFields()
    ensures ParseFields(["Tea", "2", "10"]) == Success(Row("Tea", 2, 10.0))
  {
    ParseIntOfText(2);
    ParseDecimalOfInt("10");
  }

  /** A negative quantity is accepted: `Tea, -1, 10` gives an item whose amount is -10.0. */
  lemma NegativeQuantityAccepted()
    ensures ParseLine("Tea, -1, 10") == Success(Row("Tea", -1, 10.0))
    ensures ItemOf(Row("Tea", -1, 10.0)).amount == -10.0
  {
    LineFields("Tea, -1, 10", "Tea", "-1", "10");
    NegativeFields();
  }

  /** The fields `Tea`, `-1`, `10` convert: no sign check is made on the quantity. */
  lemma NegativeFields()
    ensures ParseFields(["Tea", "-1", "10"]) == Success(Row("Tea", -1, 10.0))
  {
    ParseIntOfText(-1);
    ParseDecimalOfInt("10");
  }
}
