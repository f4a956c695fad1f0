/** The catalog the importer writes into: categories, market-cap tiers and
    stocks, with the database constraints the models declare. */
module Catalog {
  import opened Wrappers
  import opened Text

  /** A category; its name is its identity (the column is unique). */
  datatype Category = Category(name: string)

  /** The four market-capitalisation choices. */
  datatype MarketCap = Unknown | Small | Mid | Large

  /** The one-character code stored in the database column. */
  function Code(m: MarketCap): char {
    match m
    case Unknown => 'U'
    case Small => 'S'
    case Mid => 'M'
    case Large => 'L'
  }

  /** The human-readable label of each choice. */
  function Label(m: MarketCap): string {
    match m
    case Unknown => "Unknown"
    case Small => "Smallcap"
    case Mid => "Midcap"
    case Large => "Largecap"
  }

  /** Reads a stored code back; only the four codes are valid. */
  function FromCode(c: char): (r: Option<MarketCap>)
    ensures r.Some? <==> c in "USML"
    ensures r.Some? ==> Code(r.value) == c
  {
    if c == 'U' then Some(Unknown)
    else if c == 'S' then Some(Small)
    else if c == 'M' then Some(Mid)
    else if c == 'L' then Some(Large)
    else None
  }

  /** A calendar date as produced by the date parser. */
  datatype Date = Date(year: int, month: int, day: int)

  datatype Stock = Stock(
    name: string,
    symbol: string,
    listingDate: Date,
    isin: string,
    marketCap: MarketCap,
    category: Option<Category>)

  /** The two tables: categories in insertion order and stocks in insertion order. */
  datatype Catalog = Catalog(categories: seq<Category>, stocks: seq<Stock>)

  /** Category names are unique, compared exactly (case-sensitively). */
  predicate DistinctCategories(cats: seq<Category>) {
    forall i, j :: 0 <= i < j < |cats| ==> cats[i] != cats[j]
  }

  /** No two categories differ only in letter case. */
  predicate NoCaseVariants(cats: seq<Category>) {
    forall i, j :: 0 <= i < |cats| && 0 <= j < |cats| && i != j ==>
      !EqualsIgnoreCase(cats[i].name, cats[j].name)
  }

  /** ISIN is unique across the stocks. */
  predicate IsinsUnique(stocks: seq<Stock>) {
    forall i, j :: 0 <= i < j < |stocks| ==> stocks[i].isin != stocks[j].isin
  }

  function Isins(stocks: seq<Stock>): set<string> {
    set s | s in stocks :: s.isin
  }

  /** Every category a stock refers to exists (a nullable foreign key). */
  predicate ReferencesExist(cats: seq<Category>, stocks: seq<Stock>) {
    forall i :: 0 <= i < |stocks| && stocks[i].category.Some? ==>
      stocks[i].category.value in cats
  }

  /** The database constraints of the two tables. */
  predicate Valid(c: Catalog) {
    && DistinctCategories(c.categories)
    && IsinsUnique(c.stocks)
    && ReferencesExist(c.categories, c.stocks)
  }

  lemma NoCaseVariantsAreDistinct(cats: seq<Category>)
    requires NoCaseVariants(cats)
    ensures DistinctCategories(cats)
  {
    forall i, j | 0 <= i < j < |cats|
      ensures cats[i] != cats[j]
    {
      assert !EqualsIgnoreCase(cats[i].name, cats[j].name);
    }
  }

  /** A stock built from its four required fields only: the tier takes its
      default and the optional category is left empty. */
  function NewStock(symbol: string, name: string, listingDate: Date, isin: string): (s: Stock)
    ensures s.marketCap == Unknown && s.category == None
    ensures s.symbol == symbol && s.name == name
    ensures s.listingDate == listingDate && s.isin == isin
  {
    Stock(name, symbol, listingDate, isin, Unknown, None)
  }

  /** A category renders as its name, so the rendering identifies it. */
  function CategoryStr(c: Category): (r: string)
    ensures Category(r) == c
  {
    c.name
  }

  /** A stock renders as its company name followed by its symbol in parentheses. */
  function StockStr(s: Stock): string {
    s.name + "(" + s.symbol + ")"
  }

  /** Position of the last occurrence of `c` in `t`. */
  function LastIndexOf(t: string, c: char): (r: Option<nat>)
    ensures r.Some? ==> r.value < |t| && t[r.value] == c
    ensures r.Some? ==> forall j :: r.value < j < |t| ==> t[j] != c
    ensures r.None? ==> c !in t
  {
    if |t| == 0 then None
    else if t[|t| - 1] == c then Some(|t| - 1)
    else LastIndexOf(t[..|t| - 1], c)
  }

  /** Splits a stock rendering back into name and symbol, cutting at the
      last opening parenthesis. */
  function ParseStockStr(t: string): Option<(string, string)> {
    if |t| == 0 || t[|t| - 1] != ')' then None
    else
      match LastIndexOf(t[..|t| - 1], '(')
      case None => None
      case Some(i) => Some((t[..i], t[i + 1..|t| - 1]))
  }

  /** The rendering of a stock determines its name and symbol whenever the
      symbol has no opening parenthesis. */
  lemma StockStrRoundTrip(s: Stock)
    requires '(' !in s.symbol
    ensures ParseStockStr(StockStr(s)) == Some((s.name, s.symbol))
  {
    var t := StockStr(s);
    var body := t[..|t| - 1];
    assert body == s.name + "(" + s.symbol;
    var i := |s.name|;
    assert body[i] == '(';
    forall j | i < j < |body|
      ensures body[j] != '('
    {
      assert body[j] == s.symbol[j - i - 1];
    }
    var k := LastIndexOf(body, '(');
    assert k.Some? && k.value == i;
    assert t[..i] == s.name;
    assert t[i + 1..|t| - 1] == s.symbol;
  }

  /** The stored code determines the tier: the four codes are distinct. */
  lemma CodeRoundTrip(m: MarketCap, c: char)
    ensures FromCode(Code(m)) == Some(m)
    ensures FromCode(c) == Some(m) <==> Code(m) == c
  {
  }

  datatype DeleteError = Protected

  /** The categories other than `c`, in their original order. */
  function Without(cats: seq<Category>, c: Category): (r: seq<Category>)
    ensures forall x :: x in r <==> x in cats && x != c
    ensures DistinctCategories(cats) ==> DistinctCategories(r)
    ensures |r| <= |cats|
  {
    if |cats| == 0 then []
    else
      var rest := Without(cats[1..], c);
      if cats[0] == c then rest
      else
        assert DistinctCategories(cats) ==> cats[0] !in cats[1..];
        [cats[0]] + rest
  }

  /** Deleting a category is refused while any stock refers to it
      (protect-on-delete); otherwise only that category disappears. */
  function DeleteCategory(catalog: Catalog, c: Category): (r: Result<Catalog, DeleteError>)
    ensures r.Failure? <==> exists i :: 0 <= i < |catalog.stocks| && catalog.stocks[i].category == Some(c)
    ensures r.Success? ==> r.value.stocks == catalog.stocks
    ensures r.Success? ==> forall x :: x in r.value.categories <==> x in catalog.categories && x != c
    ensures r.Success? && Valid(catalog) ==> Valid(r.value)
  {
    if exists i :: 0 <= i < |catalog.stocks| && catalog.stocks[i].category == Some(c) then
      Failure(Protected)
    else
      Success(catalog.(categories := Without(catalog.categories, c)))
  }
}
