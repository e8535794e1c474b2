/**
 * The catalog rows the bot reads, the order lines it builds from them, the
 * order total and the texts built from both: the menu (`formatarCardapio`
 * and its inline copy in the smaller bot) and the order reply
 * (`gerarRespostaPedido`). Prices are integer cents.
 */
module Catalog {
  import opened Wrappers
  import opened Chars
  import opened Strings

  /** A row of the `cardapio` table: `nome`, `categoria`, `preco` (in cents)
      and the comma-separated `synonyms` column, which may be NULL. */
  datatype Item = Item(name: string, category: string, price: int, synonyms: Option<string>)

  /** An order line: a catalog row together with the quantity asked for. */
  datatype Line = Line(item: Item, quantity: nat)

  /** The match terms of an item: its name, then the pieces of its synonyms
      column split at each comma. The name always comes first; a NULL or
      empty synonyms column adds nothing; otherwise the synonyms are the
      comma-free pieces that joined with commas give back the column. */
  function Terms(item: Item): (ts: seq<string>)
    ensures |ts| >= 1 && ts[0] == item.name
    ensures item.synonyms.None? || item.synonyms.value == "" ==> |ts| == 1
    ensures item.synonyms.Some? && item.synonyms.value != "" ==>
      |ts| >= 2 && Join(ts[1..], ",") == item.synonyms.value
      && forall k :: 1 <= k < |ts| ==> ',' !in ts[k]
  {
    match item.synonyms
    case Some(syn) =>
      if syn == "" then [item.name]
      else
        var ts := [item.name] + Split(syn, ',');
        assert ts[1..] == Split(syn, ',');
        ts
    case None => [item.name]
  }

  /** The order total: price times quantity, summed from the left over the
      lines, starting at zero. With no negative price it is never negative. */
  function Total(lines: seq<Line>): (r: int)
    ensures (forall k :: 0 <= k < |lines| ==> lines[k].item.price >= 0) ==> r >= 0
    decreases |lines|
  {
    if lines == [] then 0
    else
      var last := lines[|lines| - 1];
      Total(lines[..|lines| - 1]) + last.item.price * last.quantity
  }

  /** The total of an order is the sum of the totals of its parts. */
  lemma {:induction false} TotalAppend(a: seq<Line>, b: seq<Line>)
    ensures Total(a + b) == Total(a) + Total(b)
    decreases |b|
  {
    if b == [] {
      assert a + b == a;
    } else {
      var ab := a + b;
      assert ab[..|ab| - 1] == a + b[..|b| - 1];
      TotalAppend(a, b[..|b| - 1]);
    }
  }

  /** The total is the sum, line by line, of price times quantity. */
  lemma {:induction false} TotalOfLines(lines: seq<Line>)
    ensures lines != [] ==> Total(lines) == lines[0].item.price * lines[0].quantity + Total(lines[1..])
  {
    if lines != [] {
      assert lines == [lines[0]] + lines[1..];
      TotalAppend([lines[0]], lines[1..]);
      assert [lines[0]][..0] == [];
    }
  }

  /** One menu line: a dash, the item name and its price with two decimals
      in parentheses. */
  function PriceLine(i: Item): string {
    "- " + i.name + " (R$ " + MoneyText(i.price) + ")"
  }

  function PriceLines(items: seq<Item>): (r: seq<string>)
    ensures |r| == |items|
    ensures forall k :: 0 <= k < |items| ==> r[k] == PriceLine(items[k])
  {
    seq(|items|, k requires 0 <= k < |items| => PriceLine(items[k]))
  }

  /** The catalog filtered on the category: exactly the items of that
      category, none missing and none added, in catalog order. */
  function InCategory(catalog: seq<Item>, cat: string): (r: seq<Item>)
    ensures |r| <= |catalog|
    ensures forall x :: x in r <==> x in catalog && x.category == cat
    decreases |catalog|
  {
    if catalog == [] then []
    else (if catalog[0].category == cat then [catalog[0]] else []) + InCategory(catalog[1..], cat)
  }

  /** Filtering keeps catalog order: it distributes over concatenation. */
  lemma {:induction false} InCategoryAppend(a: seq<Item>, b: seq<Item>, cat: string)
    ensures InCategory(a + b, cat) == InCategory(a, cat) + InCategory(b, cat)
    decreases |a|
  {
    if a == [] {
      assert a + b == b;
    } else {
      assert (a + b)[0] == a[0] && (a + b)[1..] == a[1..] + b;
      InCategoryAppend(a[1..], b, cat);
    }
  }

  /** The menu block of one category: its name between asterisks, then one
      price line per item of that category. */
  function Block(catalog: seq<Item>, cat: string): string {
    "*" + cat + "*\n" + Join(PriceLines(InCategory(catalog, cat)), "\n")
  }

  /** A block opens with its category name between asterisks and lists the
      price line of every catalog item of that category. */
  lemma BlockListsCategory(catalog: seq<Item>, cat: string)
    ensures var b := Block(catalog, cat);
      && b[..|cat| + 3] == "*" + cat + "*\n"
      && forall x :: x in catalog && x.category == cat ==> Contains(b, PriceLine(x))
  {
    var items := InCategory(catalog, cat);
    var body := Join(PriceLines(items), "\n");
    var head := "*" + cat + "*\n";
    assert Block(catalog, cat) == head + body + "";
    forall x | x in catalog && x.category == cat
      ensures Contains(Block(catalog, cat), PriceLine(x))
    {
      var j :| 0 <= j < |items| && items[j] == x;
      JoinContains(PriceLines(items), "\n", j);
      ContainsWithin(head, body, "", PriceLine(x));
    }
  }

  /** The menu maps every catalog ITEM, not every category, to the block of
      its category. */
  function Blocks(catalog: seq<Item>): (bs: seq<string>)
    ensures |bs| == |catalog|
  {
    seq(|catalog|, k requires 0 <= k < |catalog| => Block(catalog, catalog[k].category))
  }

  /** `formatarCardapio`: the blocks joined by a blank line. */
  function Menu(catalog: seq<Item>): string {
    Join(Blocks(catalog), "\n\n")
  }

  /** The menu lists the price line of every catalog item, inside the
      block of its category. */
  lemma MenuListsEveryItem(catalog: seq<Item>)
    ensures forall x :: x in catalog ==>
      Contains(Menu(catalog), Block(catalog, x.category)) && Contains(Menu(catalog), PriceLine(x))
  {
    forall x | x in catalog
      ensures Contains(Menu(catalog), Block(catalog, x.category)) && Contains(Menu(catalog), PriceLine(x))
    {
      var k :| 0 <= k < |catalog| && catalog[k] == x;
      JoinContains(Blocks(catalog), "\n\n", k);
      BlockListsCategory(catalog, x.category);
      ContainsTrans(Menu(catalog), Block(catalog, x.category), PriceLine(x));
    }
  }

  /** Block `k` of the menu lists every item of `catalog[k]`'s category, and
      nothing else, in catalog order. */
  lemma MenuBlock(catalog: seq<Item>, k: nat)
    requires k < |catalog|
    ensures Blocks(catalog)[k] == "*" + catalog[k].category + "*\n" + Join(PriceLines(InCategory(catalog, catalog[k].category)), "\n")
    ensures catalog[k] in InCategory(catalog, catalog[k].category)
    ensures forall x :: x in InCategory(catalog, catalog[k].category) ==> x in catalog && x.category == catalog[k].category
  {
  }

  /** A category with several items is printed once per item: any two items
      of the same category produce the same block. */
  lemma MenuRepeatsCategory(catalog: seq<Item>, i: nat, j: nat)
    requires i < |catalog| && j < |catalog|
    requires catalog[i].category == catalog[j].category
    ensures Blocks(catalog)[i] == Blocks(catalog)[j]
  {
  }

  /** One item of the order reply: the quantity, `x `, then the item name.
      The leading digit run reads back as the quantity. */
  function LineText(l: Line): (r: string)
    ensures var n := |DigitsOf(l.quantity)|;
      n < |r| && AllDigits(r[..n]) && DigitsValue(r[..n]) == l.quantity && r[n..] == "x " + l.item.name
  {
    var r := DigitsOf(l.quantity) + "x " + l.item.name;
    assert r[..|DigitsOf(l.quantity)|] == DigitsOf(l.quantity);
    r
  }

  function LineTexts(lines: seq<Line>): (r: seq<string>)
    ensures |r| == |lines|
    ensures forall k :: 0 <= k < |lines| ==> r[k] == LineText(lines[k])
  {
    seq(|lines|, k requires 0 <= k < |lines| => LineText(lines[k]))
  }

  /** `gerarRespostaPedido(itens, total)`. */
  function OrderReply(lines: seq<Line>, total: int): string {
    "\U{1F6D2} Pedido registrado!\n\U{1F4E6} Itens: " + Join(LineTexts(lines), ", ")
    + "\n\U{1F4B0} Total: R$ " + MoneyText(total)
  }

  /** The order reply names every order line. */
  lemma OrderReplyListsLines(lines: seq<Line>, total: int)
    ensures forall l :: l in lines ==> Contains(OrderReply(lines, total), LineText(l))
  {
    var head := "\U{1F6D2} Pedido registrado!\n\U{1F4E6} Itens: ";
    var body := Join(LineTexts(lines), ", ");
    var tail := "\n\U{1F4B0} Total: R$ " + MoneyText(total);
    assert OrderReply(lines, total) == head + body + tail;
    forall l | l in lines
      ensures Contains(OrderReply(lines, total), LineText(l))
    {
      var j :| 0 <= j < |lines| && lines[j] == l;
      JoinContains(LineTexts(lines), ", ", j);
      ContainsWithin(head, body, tail, LineText(l));
    }
  }

  /** The order reply opens with its header and ends with the total written
      with two decimals. */
  lemma OrderReplyFrame(lines: seq<Line>, total: int)
    ensures var r := OrderReply(lines, total);
      && r[..|"\U{1F6D2} Pedido registrado!\n"|] == "\U{1F6D2} Pedido registrado!\n"
      && |MoneyText(total)| <= |r| && r[|r| - |MoneyText(total)|..] == MoneyText(total)
  {
  }
}
