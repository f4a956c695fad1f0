/** The bulk stock import: a header row is skipped, every further row is
    mapped to one stock (resolving or creating its category on the way), and
    the stocks are inserted by one batch insert. */
module Importer {
  import opened Wrappers
  import opened Text
  import opened Catalog

  /** Why an import stops. */
  datatype ImportError =
    | EmptyInput                      // not even a header row
    | MissingColumn(column: nat)      // a row is too short for the column read next
    | BadDate(text: string)           // the listing date does not parse
    | AmbiguousCategory(name: string) // several categories match case-insensitively
    | DuplicateIsin                   // the batch insert hits the ISIN uniqueness constraint

  type Row = seq<string>

  /** The date parser for the "day-abbreviated month-year" column; its
      exact behaviour is left to the caller. */
  type DateParser = string -> Option<Date>

  /** Market-cap tier of a free-text cell: stripped, case-folded and
      compared with the three known words; anything else is Unknown. */
  function Classify(text: string): MarketCap {
    TierOfKey(Lower(Strip(text)))
  }

  /** The tier of an already stripped and case-folded cell. */
  function TierOfKey(key: string): MarketCap {
    if key == "smallcap" then Small
    else if key == "midcap" then Mid
    else if key == "largecap" then Large
    else Unknown
  }

  lemma LowerLabel(m: MarketCap)
    ensures m == Unknown ==> Lower(Label(m)) == "unknown"
    ensures m == Small ==> Lower(Label(m)) == "smallcap"
    ensures m == Mid ==> Lower(Label(m)) == "midcap"
    ensures m == Large ==> Lower(Label(m)) == "largecap"
  {
    var l := Label(m);
    assert LowerChar(l[0]) == l[0] + ('a' - 'A');
  }

  /** A tier other than Unknown is chosen exactly when the cleaned cell is
      the case-folded label of that tier. */
  lemma ClassifyMatchesLabels(text: string, m: MarketCap)
    requires m != Unknown
    ensures Classify(text) == m <==> Lower(Strip(text)) == Lower(Label(m))
  {
    LowerLabel(m);
  }

  /** Any cell whose cleaned form is none of the three folded labels is
      classified Unknown: the classification is total. */
  lemma ClassifyOtherwiseUnknown(text: string)
    ensures Classify(text) == Unknown <==>
      && Lower(Strip(text)) != Lower(Label(Small))
      && Lower(Strip(text)) != Lower(Label(Mid))
      && Lower(Strip(text)) != Lower(Label(Large))
  {
    LowerLabel(Small);
    LowerLabel(Mid);
    LowerLabel(Large);
  }

  /** Every choice label is classified as its own tier. */
  lemma ClassifyLabel(m: MarketCap)
    ensures Classify(Label(m)) == m
  {
    var l := Label(m);
    assert !IsWhitespace(l[0]) && !IsWhitespace(l[|l| - 1]);
    StripUnpadded(l);
    LowerLabel(m);
  }

  /** Letter case does not matter to the classification. */
  lemma ClassifyIgnoresCase(a: string, b: string)
    requires EqualsIgnoreCase(a, b)
    ensures Classify(a) == Classify(b)
  {
    EqualsIgnoreCaseIsLowerEquality(a, b);
    StripLowerCommute(a);
    StripLowerCommute(b);
    assert Lower(Strip(a)) == Lower(Strip(b));
  }

  /** Surrounding whitespace does not matter to the classification. */
  lemma ClassifyIgnoresPadding(p: string, text: string, q: string)
    requires AllWhitespace(p) && AllWhitespace(q)
    ensures Classify(p + text + q) == Classify(text)
  {
    StripPadding(p, text, q);
  }

  /** The categories whose names equal `name` up to case. */
  function Matches(cats: seq<Category>, name: string): (r: seq<Category>)
    ensures forall c :: c in r <==> c in cats && EqualsIgnoreCase(c.name, name)
    ensures |r| <= |cats|
  {
    if |cats| == 0 then []
    else
      var rest := Matches(cats[1..], name);
      if EqualsIgnoreCase(cats[0].name, name) then [cats[0]] + rest else rest
  }

  /** A category list in which at least two entries match `name` up to case. */
  predicate Ambiguous(cats: seq<Category>, name: string) {
    exists i, j :: 0 <= i < j < |cats| && EqualsIgnoreCase(cats[i].name, name) && EqualsIgnoreCase(cats[j].name, name)
  }

  predicate AnyMatch(cats: seq<Category>, name: string) {
    exists c :: c in cats && EqualsIgnoreCase(c.name, name)
  }

  lemma AmbiguousStep(cats: seq<Category>, name: string)
    requires |cats| > 0
    ensures Ambiguous(cats, name) <==>
      Ambiguous(cats[1..], name) || (EqualsIgnoreCase(cats[0].name, name) && AnyMatch(cats[1..], name))
  {
    var tail := cats[1..];
    if Ambiguous(cats, name) {
      var i, j :| 0 <= i < j < |cats| && EqualsIgnoreCase(cats[i].name, name) && EqualsIgnoreCase(cats[j].name, name);
      assert tail[j - 1] == cats[j];
      if i > 0 {
        assert tail[i - 1] == cats[i];
      }
    }
    if Ambiguous(tail, name) {
      var i, j :| 0 <= i < j < |tail| && EqualsIgnoreCase(tail[i].name, name) && EqualsIgnoreCase(tail[j].name, name);
      assert cats[i + 1] == tail[i] && cats[j + 1] == tail[j];
    }
    if EqualsIgnoreCase(cats[0].name, name) && AnyMatch(tail, name) {
      var c :| c in tail && EqualsIgnoreCase(c.name, name);
      var k :| 0 <= k < |tail| && tail[k] == c;
      assert cats[k + 1] == c;
    }
  }

  lemma {:induction false} MatchesCount(cats: seq<Category>, name: string)
    ensures |Matches(cats, name)| >= 2 <==> Ambiguous(cats, name)
    decreases |cats|
  {
    if |cats| > 0 {
      MatchesCount(cats[1..], name);
      AmbiguousStep(cats, name);
      var rest := Matches(cats[1..], name);
      assert |rest| >= 1 <==> AnyMatch(cats[1..], name) by {
        if |rest| >= 1 {
          assert rest[0] in rest;
        }
      }
    }
  }

  /** The category list after a lookup, and the category it yielded. */
  datatype Resolved = Resolved(categories: seq<Category>, category: Category)

  /** Case-insensitive get-or-create of a category: a single match is
      reused, no match creates a category with exactly the given name, and
      several matches are an error. */
  function GetOrCreate(cats: seq<Category>, name: string): (r: Result<Resolved, ImportError>)
    ensures r.Failure? <==> Ambiguous(cats, name)
    ensures r.Failure? ==> r.error == AmbiguousCategory(name)
    ensures r.Success? ==> EqualsIgnoreCase(r.value.category.name, name) && r.value.category in r.value.categories
    ensures (forall c :: c in cats ==> !EqualsIgnoreCase(c.name, name)) ==>
      r == Success(Resolved(cats + [Category(name)], Category(name)))
    ensures forall i :: 0 <= i < |cats| && EqualsIgnoreCase(cats[i].name, name) && !Ambiguous(cats, name) ==>
      r == Success(Resolved(cats, cats[i]))
  {
    MatchesCount(cats, name);
    var found := Matches(cats, name);
    assert |found| == 1 ==> forall c :: c in found ==> c == found[0];
    if |found| == 0 then Success(Resolved(cats + [Category(name)], Category(name)))
    else if |found| == 1 then Success(Resolved(cats, found[0]))
    else Failure(AmbiguousCategory(name))
  }

  /** A lookup into a list without case variants never fails and keeps the
      list free of case variants. */
  lemma GetOrCreateKeepsNoCaseVariants(cats: seq<Category>, name: string)
    requires NoCaseVariants(cats)
    ensures GetOrCreate(cats, name).Success?
    ensures NoCaseVariants(GetOrCreate(cats, name).value.categories)
  {
    if Ambiguous(cats, name) {
      var i, j :| 0 <= i < j < |cats| && EqualsIgnoreCase(cats[i].name, name) && EqualsIgnoreCase(cats[j].name, name);
      assert EqualsIgnoreCase(cats[i].name, cats[j].name);
      assert false;
    }
    var r := GetOrCreate(cats, name);
    if r.value.categories != cats {
      var after := cats + [Category(name)];
      forall i, j | 0 <= i < |after| && 0 <= j < |after| && i != j
        ensures !EqualsIgnoreCase(after[i].name, after[j].name)
      {
        if i == |cats| {
          assert after[j] in cats;
        } else if j == |cats| {
          assert after[i] in cats;
        }
      }
    }
  }

  /** A row is well formed when it has all six columns and its date parses. */
  predicate WellFormed(row: Row, parseDate: DateParser) {
    |row| >= 6 && parseDate(row[2]).Some?
  }

  /** `s` is the stock the import builds from `row`, with its category
      taken from `cats`. */
  predicate FromRow(s: Stock, row: Row, parseDate: DateParser, cats: seq<Category>) {
    && WellFormed(row, parseDate)
    && s.symbol == row[0]
    && s.name == row[1]
    && s.listingDate == parseDate(row[2]).value
    && s.isin == row[3]
    && s.marketCap == Classify(row[4])
    && s.category.Some?
    && s.category.value in cats
    && EqualsIgnoreCase(s.category.value.name, row[5])
  }

  datatype Mapped = Mapped(categories: seq<Category>, stock: Stock)

  /** One data row to one stock. Cells are read in the order the source
      evaluates them: symbol, name, date (then parsed), ISIN, tier, category. */
  function MapRow(cats: seq<Category>, row: Row, parseDate: DateParser): (r: Result<Mapped, ImportError>)
    ensures r.Success? ==> FromRow(r.value.stock, row, parseDate, r.value.categories)
    ensures r.Success? ==> cats <= r.value.categories
    ensures r.Failure? ==> || (r.error == MissingColumn(|row|) && |row| < 6)
                           || (|row| >= 3 && r.error == BadDate(row[2]))
                           || (|row| >= 6 && r.error == AmbiguousCategory(row[5]))
    ensures r.Failure? <==> !WellFormed(row, parseDate) || Ambiguous(cats, row[5])
  {
    if |row| < 3 then Failure(MissingColumn(|row|))
    else
      match parseDate(row[2])
      case None => Failure(BadDate(row[2]))
      case Some(date) =>
        if |row| < 6 then Failure(MissingColumn(|row|))
        else
          var stock := NewStock(row[0], row[1], date, row[3]);
          var tier := Classify(row[4]);
          match GetOrCreate(cats, row[5])
          case Failure(e) => Failure(e)
          case Success(res) =>
            Success(Mapped(res.categories, stock.(marketCap := tier, category := Some(res.category))))
  }

  /** The category list after the loop, and the stocks it built or the
      error that stopped it. */
  datatype RowsOutcome = RowsOutcome(categories: seq<Category>, stocks: Result<seq<Stock>, ImportError>)

  /** Some row's category cell, taken verbatim, names `c`. */
  predicate NamedByRow(c: Category, rows: seq<Row>) {
    exists j :: 0 <= j < |rows| && |rows[j]| >= 6 && c == Category(rows[j][5])
  }

  /** The loop over the data rows. Category lookups change the category
      list row by row; the stocks are only collected. A failing row stops
      the loop, but categories created for earlier rows stay. */
  function MapRows(cats: seq<Category>, rows: seq<Row>, parseDate: DateParser): (r: RowsOutcome)
    ensures cats <= r.categories
    ensures r.stocks.Success? ==> |r.stocks.value| == |rows|
    decreases |rows|
  {
    if |rows| == 0 then RowsOutcome(cats, Success([]))
    else
      match MapRow(cats, rows[0], parseDate)
      case Failure(e) => RowsOutcome(cats, Failure(e))
      case Success(m) =>
        var rest := MapRows(m.categories, rows[1..], parseDate);
        RowsOutcome(rest.categories,
          match rest.stocks
          case Failure(e) => Failure(e)
          case Success(more) => Success([m.stock] + more))
  }

  /** A lookup that did not reuse a category appended one named exactly by
      the row's cell, which no earlier category matched up to case. */
  lemma MapRowCategories(cats: seq<Category>, row: Row, parseDate: DateParser)
    requires MapRow(cats, row, parseDate).Success?
    ensures var after := MapRow(cats, row, parseDate).value.categories;
      || after == cats
      || (&& after == cats + [Category(row[5])]
          && forall c :: c in cats ==> !EqualsIgnoreCase(c.name, row[5]))
  {
    var r := GetOrCreate(cats, row[5]);
    if exists c :: c in cats && EqualsIgnoreCase(c.name, row[5]) {
      var c :| c in cats && EqualsIgnoreCase(c.name, row[5]);
      var i :| 0 <= i < |cats| && cats[i] == c;
      assert r.value.categories == cats;
    }
  }

  /** One step of the loop: a failing first row stops it with the
      categories it started with; after a row that maps, the loop goes on
      from the category list that row left. */
  lemma MapRowsUnfold(cats: seq<Category>, rows: seq<Row>, parseDate: DateParser)
    requires |rows| > 0
    ensures var first := MapRow(cats, rows[0], parseDate);
      var r := MapRows(cats, rows, parseDate);
      && (first.Failure? ==> r == RowsOutcome(cats, Failure(first.error)))
      && (first.Success? ==>
            var rest := MapRows(first.value.categories, rows[1..], parseDate);
            && r.categories == rest.categories
            && r.stocks.Success? == rest.stocks.Success?
            && (rest.stocks.Success? ==> r.stocks.value == [first.value.stock] + rest.stocks.value))
  {
  }

  /** Whether a stock was built from a row does not depend on categories
      added later. */
  lemma FromRowGrow(s: Stock, row: Row, parseDate: DateParser, cats: seq<Category>, more: seq<Category>)
    requires FromRow(s, row, parseDate, cats) && cats <= more
    ensures FromRow(s, row, parseDate, more)
  {
  }

  /** The loop adds at most one category per row, each named verbatim by
      some row's category cell. */
  lemma {:induction false} MapRowsNewCategories(cats: seq<Category>, rows: seq<Row>, parseDate: DateParser)
    ensures var after := MapRows(cats, rows, parseDate).categories;
      && |after| <= |cats| + |rows|
      && (forall k :: |cats| <= k < |after| ==> NamedByRow(after[k], rows))
    decreases |rows|
  {
    if |rows| > 0 {
      var row := rows[0];
      MapRowsUnfold(cats, rows, parseDate);
      if MapRow(cats, row, parseDate).Success? {
        var mid := MapRow(cats, row, parseDate).value.categories;
        MapRowCategories(cats, row, parseDate);
        MapRowsNewCategories(mid, rows[1..], parseDate);
        var after := MapRows(cats, rows, parseDate).categories;
        forall k | |cats| <= k < |after|
          ensures NamedByRow(after[k], rows)
        {
          if k < |mid| {
            assert after[k] == mid[k] == Category(row[5]);
            assert rows[0] == row;
          } else {
            NamedByTail(after[k], rows);
          }
        }
      }
    }
  }

  /** The loop never makes two categories equal, nor (starting without
      any) two categories that differ only in case. */
  lemma {:induction false} MapRowsKeepsDistinct(cats: seq<Category>, rows: seq<Row>, parseDate: DateParser)
    ensures var after := MapRows(cats, rows, parseDate).categories;
      && (DistinctCategories(cats) ==> DistinctCategories(after))
      && (NoCaseVariants(cats) ==> NoCaseVariants(after))
    decreases |rows|
  {
    if |rows| > 0 {
      var row := rows[0];
      MapRowsUnfold(cats, rows, parseDate);
      if MapRow(cats, row, parseDate).Success? {
        var mid := MapRow(cats, row, parseDate).value.categories;
        MapRowCategories(cats, row, parseDate);
        MapRowsKeepsDistinct(mid, rows[1..], parseDate);
        if DistinctCategories(cats) && mid != cats {
          assert Category(row[5]) !in cats by {
            assert EqualsIgnoreCase(row[5], row[5]);
          }
        }
        if NoCaseVariants(cats) {
          GetOrCreateKeepsNoCaseVariants(cats, row[5]);
        }
      }
    }
  }

  /** What the loop does to the category list, whether or not it succeeds:
      it only appends, at most one category per row, every appended
      category is named verbatim by some row, and it never introduces a
      duplicate or a case variant. */
  lemma MapRowsCategories(cats: seq<Category>, rows: seq<Row>, parseDate: DateParser)
    ensures var after := MapRows(cats, rows, parseDate).categories;
      && |after| <= |cats| + |rows|
      && (forall k :: |cats| <= k < |after| ==> NamedByRow(after[k], rows))
      && (DistinctCategories(cats) ==> DistinctCategories(after))
      && (NoCaseVariants(cats) ==> NoCaseVariants(after))
  {
    MapRowsNewCategories(cats, rows, parseDate);
    MapRowsKeepsDistinct(cats, rows, parseDate);
  }

  /** Every stock in `stocks` is built from the row at the same position. */
  predicate BuiltFrom(stocks: seq<Stock>, rows: seq<Row>, parseDate: DateParser, cats: seq<Category>) {
    && |stocks| == |rows|
    && forall k :: 0 <= k < |rows| ==> FromRow(stocks[k], rows[k], parseDate, cats)
  }

  lemma BuiltFromCons(s: Stock, stocks: seq<Stock>, rows: seq<Row>, parseDate: DateParser, cats: seq<Category>)
    requires |rows| > 0
    requires FromRow(s, rows[0], parseDate, cats)
    requires BuiltFrom(stocks, rows[1..], parseDate, cats)
    ensures BuiltFrom([s] + stocks, rows, parseDate, cats)
  {
    var all := [s] + stocks;
    forall k | 0 < k < |rows|
      ensures FromRow(all[k], rows[k], parseDate, cats)
    {
      assert all[k] == stocks[k - 1];
      assert rows[k] == rows[1..][k - 1];
    }
  }

  predicate AllWellFormed(rows: seq<Row>, parseDate: DateParser) {
    forall k :: 0 <= k < |rows| ==> WellFormed(rows[k], parseDate)
  }

  lemma AllWellFormedCons(rows: seq<Row>, parseDate: DateParser)
    requires |rows| > 0
    ensures AllWellFormed(rows, parseDate) <==>
      WellFormed(rows[0], parseDate) && AllWellFormed(rows[1..], parseDate)
  {
    if WellFormed(rows[0], parseDate) && AllWellFormed(rows[1..], parseDate) {
      forall k | 0 < k < |rows|
        ensures WellFormed(rows[k], parseDate)
      {
        assert rows[k] == rows[1..][k - 1];
      }
    }
  }

  lemma NamedByTail(c: Category, rows: seq<Row>)
    requires |rows| > 0 && NamedByRow(c, rows[1..])
    ensures NamedByRow(c, rows)
  {
    var j :| 0 <= j < |rows[1..]| && |rows[1..][j]| >= 6 && c == Category(rows[1..][j][5]);
    assert rows[j + 1] == rows[1..][j];
  }

  /** On success the loop yielded one stock per row, in row order, each
      built from its row. */
  lemma {:induction false} MapRowsStocks(cats: seq<Category>, rows: seq<Row>, parseDate: DateParser)
    requires MapRows(cats, rows, parseDate).stocks.Success?
    ensures var r := MapRows(cats, rows, parseDate);
      forall k :: 0 <= k < |rows| ==> FromRow(r.stocks.value[k], rows[k], parseDate, r.categories)
    decreases |rows|
  {
    if |rows| > 0 {
      MapRowsUnfold(cats, rows, parseDate);
      var m := MapRow(cats, rows[0], parseDate).value;
      var rest := MapRows(m.categories, rows[1..], parseDate);
      MapRowsStocks(m.categories, rows[1..], parseDate);
      assert BuiltFrom(rest.stocks.value, rows[1..], parseDate, rest.categories);
      FromRowGrow(m.stock, rows[0], parseDate, m.categories, rest.categories);
      BuiltFromCons(m.stock, rest.stocks.value, rows, parseDate, rest.categories);
    }
  }

  /** Starting from a category list without case variants, the loop
      succeeds exactly when every row is well formed. */
  lemma {:induction false} MapRowsSucceedsIff(cats: seq<Category>, rows: seq<Row>, parseDate: DateParser)
    requires NoCaseVariants(cats)
    ensures MapRows(cats, rows, parseDate).stocks.Success? <==> AllWellFormed(rows, parseDate)
    decreases |rows|
  {
    if |rows| > 0 {
      var row := rows[0];
      MapRowsUnfold(cats, rows, parseDate);
      AllWellFormedCons(rows, parseDate);
      if WellFormed(row, parseDate) {
        GetOrCreateKeepsNoCaseVariants(cats, row[5]);
        var m := MapRow(cats, row, parseDate).value;
        MapRowsSucceedsIff(m.categories, rows[1..], parseDate);
      }
    }
  }

  /** The insert-time uniqueness check: walks the batch, refusing an ISIN
      already taken by a stored stock or by an earlier stock of the batch. */
  function ClashFree(taken: set<string>, batch: seq<Stock>): bool
    decreases |batch|
  {
    |batch| == 0 || (batch[0].isin !in taken && ClashFree(taken + {batch[0].isin}, batch[1..]))
  }

  lemma {:induction false} ClashFreeMeansFreshAndUnique(taken: set<string>, batch: seq<Stock>)
    ensures ClashFree(taken, batch) <==>
      (forall i :: 0 <= i < |batch| ==> batch[i].isin !in taken) && IsinsUnique(batch)
    decreases |batch|
  {
    if |batch| > 0 {
      var tail := batch[1..];
      ClashFreeMeansFreshAndUnique(taken + {batch[0].isin}, tail);
      if ClashFree(taken, batch) {
        forall i, j | 0 <= i < j < |batch|
          ensures batch[i].isin != batch[j].isin
        {
          assert batch[j] == tail[j - 1];
          if i > 0 {
            assert batch[i] == tail[i - 1];
          }
        }
        forall i | 0 <= i < |batch|
          ensures batch[i].isin !in taken
        {
          if i > 0 {
            assert batch[i] == tail[i - 1];
          }
        }
      }
      if (forall i :: 0 <= i < |batch| ==> batch[i].isin !in taken) && IsinsUnique(batch) {
        forall i | 0 <= i < |tail|
          ensures tail[i].isin !in taken + {batch[0].isin}
        {
          assert tail[i] == batch[i + 1];
        }
        forall i, j | 0 <= i < j < |tail|
          ensures tail[i].isin != tail[j].isin
        {
          assert tail[i] == batch[i + 1] && tail[j] == batch[j + 1];
        }
      }
    }
  }

  lemma IsinsUniqueAppend(stocks: seq<Stock>, batch: seq<Stock>)
    ensures IsinsUnique(stocks) ==> (IsinsUnique(stocks + batch) <==>
      (forall i :: 0 <= i < |batch| ==> batch[i].isin !in Isins(stocks)) && IsinsUnique(batch))
  {
    if !IsinsUnique(stocks) {
      return;
    }
    var all := stocks + batch;
    if IsinsUnique(all) {
      forall i | 0 <= i < |batch|
        ensures batch[i].isin !in Isins(stocks)
      {
        forall k | 0 <= k < |stocks|
          ensures stocks[k].isin != batch[i].isin
        {
          assert all[k] == stocks[k] && all[|stocks| + i] == batch[i];
        }
      }
      forall i, j | 0 <= i < j < |batch|
        ensures batch[i].isin != batch[j].isin
      {
        assert all[|stocks| + i] == batch[i] && all[|stocks| + j] == batch[j];
      }
    }
    if (forall i :: 0 <= i < |batch| ==> batch[i].isin !in Isins(stocks)) && IsinsUnique(batch) {
      forall i, j | 0 <= i < j < |all|
        ensures all[i].isin != all[j].isin
      {
        if j >= |stocks| {
          assert all[j] == batch[j - |stocks|];
          if i < |stocks| {
            assert all[i] in stocks;
          } else {
            assert all[i] == batch[i - |stocks|];
          }
        }
      }
    }
  }

  lemma ReferencesExistAppend(cats: seq<Category>, stocks: seq<Stock>, batch: seq<Stock>)
    ensures ReferencesExist(cats, stocks) && ReferencesExist(cats, batch) ==> ReferencesExist(cats, stocks + batch)
  {
    if ReferencesExist(cats, stocks) && ReferencesExist(cats, batch) {
      var all := stocks + batch;
      forall i | 0 <= i < |all| && all[i].category.Some?
        ensures all[i].category.value in cats
      {
        if i >= |stocks| {
          assert all[i] == batch[i - |stocks|];
        }
      }
    }
  }

  /** The single batch insert: all stocks are added, after the stored ones
      and in batch order, or none is when an ISIN repeats a stored one or
      another one of the batch. */
  function BulkCreate(catalog: Catalog, batch: seq<Stock>): (r: Result<Catalog, ImportError>)
    ensures r.Success? <==>
      (forall i :: 0 <= i < |batch| ==> batch[i].isin !in Isins(catalog.stocks)) && IsinsUnique(batch)
    ensures IsinsUnique(catalog.stocks) ==> (r.Success? <==> IsinsUnique(catalog.stocks + batch))
    ensures r.Success? ==> r.value == catalog.(stocks := catalog.stocks + batch)
    ensures r.Failure? ==> r.error == DuplicateIsin
    ensures r.Success? && Valid(catalog) && ReferencesExist(catalog.categories, batch) ==> Valid(r.value)
  {
    ClashFreeMeansFreshAndUnique(Isins(catalog.stocks), batch);
    IsinsUniqueAppend(catalog.stocks, batch);
    if ClashFree(Isins(catalog.stocks), batch) then
      ReferencesExistAppend(catalog.categories, catalog.stocks, batch);
      Success(catalog.(stocks := catalog.stocks + batch))
    else
      Failure(DuplicateIsin)
  }

  /** How an upload ends. An aborted upload still carries the catalog as
      it was left: the stocks are untouched but categories created before
      the failure remain. */
  datatype ImportResult = Imported(catalog: Catalog) | Aborted(catalog: Catalog, error: ImportError)

  /** The upload: skip the header row, map the data rows, insert the batch. */
  function Upload(catalog: Catalog, rows: seq<Row>, parseDate: DateParser): (r: ImportResult)
    ensures |rows| == 0 ==> r == Aborted(catalog, EmptyInput)
    ensures r.Aborted? ==> r.catalog.stocks == catalog.stocks
    ensures catalog.categories <= r.catalog.categories
    ensures r.Imported? ==> |rows| >= 1 && catalog.stocks <= r.catalog.stocks
    ensures r.Imported? ==> |r.catalog.stocks| == |catalog.stocks| + |rows| - 1
  {
    if |rows| == 0 then Aborted(catalog, EmptyInput)
    else
      var mapped := MapRows(catalog.categories, rows[1..], parseDate);
      var withCategories := catalog.(categories := mapped.categories);
      match mapped.stocks
      case Failure(e) => Aborted(withCategories, e)
      case Success(batch) =>
        match BulkCreate(withCategories, batch)
        case Failure(e) => Aborted(withCategories, e)
        case Success(after) => Imported(after)
  }

  /** On success, the stock added at position k (after the stored ones) is
      the one built from data row k + 1; the header row yields nothing. */
  lemma UploadStocksFromRows(catalog: Catalog, rows: seq<Row>, parseDate: DateParser)
    requires Upload(catalog, rows, parseDate).Imported?
    ensures var after := Upload(catalog, rows, parseDate).catalog;
      forall k :: 1 <= k < |rows| ==>
        FromRow(after.stocks[|catalog.stocks| + k - 1], rows[k], parseDate, after.categories)
  {
    MapRowsStocks(catalog.categories, rows[1..], parseDate);
    var after := Upload(catalog, rows, parseDate).catalog;
    var batch := MapRows(catalog.categories, rows[1..], parseDate).stocks.value;
    forall k | 1 <= k < |rows|
      ensures FromRow(after.stocks[|catalog.stocks| + k - 1], rows[k], parseDate, after.categories)
    {
      assert after.stocks[|catalog.stocks| + k - 1] == batch[k - 1];
      assert rows[k] == rows[1..][k - 1];
    }
  }

  /** The category list an upload leaves behind is the one the row loop
      produced, whatever the outcome (unless there was no header at all). */
  lemma UploadCategories(catalog: Catalog, rows: seq<Row>, parseDate: DateParser)
    requires |rows| > 0
    ensures Upload(catalog, rows, parseDate).catalog.categories ==
            MapRows(catalog.categories, rows[1..], parseDate).categories
  {
  }

  /** Every category an upload adds is named verbatim by a data row, each
      data row adds at most one, and an upload into a catalog without
      case-variant categories leaves none. */
  lemma UploadNewCategories(catalog: Catalog, rows: seq<Row>, parseDate: DateParser)
    ensures var after := Upload(catalog, rows, parseDate).catalog;
      && (|rows| > 0 ==> |after.categories| <= |catalog.categories| + |rows| - 1)
      && (NoCaseVariants(catalog.categories) ==> NoCaseVariants(after.categories))
      && (forall k :: |catalog.categories| <= k < |after.categories| ==>
            NamedByRow(after.categories[k], rows[1..]))
  {
    if |rows| > 0 {
      UploadCategories(catalog, rows, parseDate);
      MapRowsCategories(catalog.categories, rows[1..], parseDate);
    }
  }

  /** An upload, successful or not, keeps the catalog's constraints. */
  lemma UploadPreservesValid(catalog: Catalog, rows: seq<Row>, parseDate: DateParser)
    requires Valid(catalog)
    ensures Valid(Upload(catalog, rows, parseDate).catalog)
  {
    if |rows| > 0 {
      var mapped := MapRows(catalog.categories, rows[1..], parseDate);
      MapRowsCategories(catalog.categories, rows[1..], parseDate);
      var withCategories := catalog.(categories := mapped.categories);
      forall i | 0 <= i < |catalog.stocks| && catalog.stocks[i].category.Some?
        ensures catalog.stocks[i].category.value in mapped.categories
      {
        assert catalog.stocks[i].category.value in catalog.categories;
      }
      assert Valid(withCategories);
      if mapped.stocks.Success? {
        MapRowsStocks(catalog.categories, rows[1..], parseDate);
        var batch := mapped.stocks.value;
        assert ReferencesExist(withCategories.categories, batch) by {
          forall i | 0 <= i < |batch| && batch[i].category.Some?
            ensures batch[i].category.value in mapped.categories
          {
            assert FromRow(batch[i], rows[1..][i], parseDate, mapped.categories);
          }
        }
      }
    }
  }

  /** The ISIN cells of the data rows are free in the catalog and distinct
      from one another. */
  predicate RowIsinsAvailable(stocks: seq<Stock>, rows: seq<Row>) {
    && (forall k :: 1 <= k < |rows| && |rows[k]| > 3 ==> rows[k][3] !in Isins(stocks))
    && (forall i, j :: 1 <= i < j < |rows| && |rows[i]| > 3 && |rows[j]| > 3 ==> rows[i][3] != rows[j][3])
  }

  /** The data rows are all well formed exactly when the rows after the
      header are. */
  lemma DataRowsWellFormed(rows: seq<Row>, parseDate: DateParser)
    requires |rows| > 0
    ensures (forall k :: 1 <= k < |rows| ==> WellFormed(rows[k], parseDate)) <==>
            AllWellFormed(rows[1..], parseDate)
  {
    var data := rows[1..];
    forall k | 0 <= k < |data|
      ensures data[k] == rows[k + 1]
    {
    }
  }

  function RowIsin(row: Row): Option<string> {
    if |row| > 3 then Some(row[3]) else None
  }

  /** The batch the loop built carries the data rows' ISIN cells, so the
      batch insert's condition is a condition on the rows. */
  lemma BatchIsinsAreRowIsins(stocks: seq<Stock>, rows: seq<Row>, batch: seq<Stock>)
    requires |rows| > 0 && |batch| == |rows| - 1
    requires forall k :: 0 <= k < |batch| ==> RowIsin(rows[k + 1]) == Some(batch[k].isin)
    ensures (forall i :: 0 <= i < |batch| ==> batch[i].isin !in Isins(stocks)) && IsinsUnique(batch)
            <==> RowIsinsAvailable(stocks, rows)
  {
    if RowIsinsAvailable(stocks, rows) {
      forall i, j | 0 <= i < j < |batch|
        ensures batch[i].isin != batch[j].isin
      {
        assert RowIsin(rows[i + 1]) == Some(batch[i].isin);
        assert RowIsin(rows[j + 1]) == Some(batch[j].isin);
      }
    }
    if (forall i :: 0 <= i < |batch| ==> batch[i].isin !in Isins(stocks)) && IsinsUnique(batch) {
      forall i, j | 1 <= i < j < |rows| && |rows[i]| > 3 && |rows[j]| > 3
        ensures rows[i][3] != rows[j][3]
      {
        assert RowIsin(rows[i]) == Some(batch[i - 1].isin);
        assert RowIsin(rows[j]) == Some(batch[j - 1].isin);
      }
      forall k | 1 <= k < |rows| && |rows[k]| > 3
        ensures rows[k][3] !in Isins(stocks)
      {
        assert RowIsin(rows[k]) == Some(batch[k - 1].isin);
      }
    }
  }

  /** For a catalog without case-variant categories, an upload succeeds
      exactly when there is a header row, every data row is well formed and
      the data rows' ISINs are new and distinct. */
  lemma UploadSucceedsIff(catalog: Catalog, rows: seq<Row>, parseDate: DateParser)
    requires NoCaseVariants(catalog.categories)
    ensures Upload(catalog, rows, parseDate).Imported? <==>
      && |rows| >= 1
      && (forall k :: 1 <= k < |rows| ==> WellFormed(rows[k], parseDate))
      && RowIsinsAvailable(catalog.stocks, rows)
  {
    if |rows| > 0 {
      var data := rows[1..];
      MapRowsSucceedsIff(catalog.categories, data, parseDate);
      DataRowsWellFormed(rows, parseDate);
      var mapped := MapRows(catalog.categories, data, parseDate);
      if mapped.stocks.Success? {
        MapRowsStocks(catalog.categories, data, parseDate);
        var batch := mapped.stocks.value;
        forall k | 0 <= k < |batch|
          ensures RowIsin(rows[k + 1]) == Some(batch[k].isin)
        {
          assert FromRow(batch[k], data[k], parseDate, mapped.categories);
          assert data[k] == rows[k + 1];
        }
        BatchIsinsAreRowIsins(catalog.stocks, rows, batch);
        var withCategories := catalog.(categories := mapped.categories);
        assert Upload(catalog, rows, parseDate).Imported? <==> BulkCreate(withCategories, batch).Success?;
      }
    }
  }

  lemma PrefixTail(rows: seq<Row>, k: nat)
    requires 0 < k < |rows|
    ensures rows[..k][0] == rows[0]
    ensures rows[..k][1..] == rows[1..][..k - 1]
    ensures rows[1..][k - 1] == rows[k]
  {
  }

  /** The loop stops at the first malformed row, leaving the category list
      exactly as the rows before it left it. */
  lemma {:induction false} MapRowsStopsAtFirstBadRow(cats: seq<Category>, rows: seq<Row>, parseDate: DateParser, k: nat)
    requires NoCaseVariants(cats)
    requires k < |rows|
    requires AllWellFormed(rows[..k], parseDate)
    requires !WellFormed(rows[k], parseDate)
    ensures MapRows(cats, rows, parseDate).stocks.Failure?
    ensures MapRows(cats, rows[..k], parseDate).stocks.Success?
    ensures MapRows(cats, rows, parseDate).categories == MapRows(cats, rows[..k], parseDate).categories
    decreases k
  {
    var prefix := rows[..k];
    MapRowsUnfold(cats, rows, parseDate);
    if k == 0 {
      assert prefix == [];
    } else {
      PrefixTail(rows, k);
      AllWellFormedCons(prefix, parseDate);
      var row := rows[0];
      GetOrCreateKeepsNoCaseVariants(cats, row[5]);
      var mid := MapRow(cats, row, parseDate).value.categories;
      MapRowsStopsAtFirstBadRow(mid, rows[1..], parseDate, k - 1);
      MapRowsUnfold(cats, prefix, parseDate);
    }
  }

  /** An upload that fails on a malformed data row inserts no stock, yet
      keeps every category created for the rows before it: the category
      list is the one an upload of just those rows would have left. */
  lemma UploadAbortKeepsEarlierCategories(catalog: Catalog, rows: seq<Row>, parseDate: DateParser, k: nat)
    requires NoCaseVariants(catalog.categories)
    requires 1 <= k < |rows|
    requires forall j :: 1 <= j < k ==> WellFormed(rows[j], parseDate)
    requires !WellFormed(rows[k], parseDate)
    ensures var r := Upload(catalog, rows, parseDate);
      && r.Aborted?
      && r.catalog.stocks == catalog.stocks
      && r.catalog.categories == Upload(catalog, rows[..k], parseDate).catalog.categories
  {
    var data := rows[1..];
    var before := data[..k - 1];
    forall j | 0 <= j < |before|
      ensures WellFormed(before[j], parseDate)
    {
      assert before[j] == rows[j + 1];
    }
    assert data[k - 1] == rows[k];
    MapRowsStopsAtFirstBadRow(catalog.categories, data, parseDate, k - 1);
    assert rows[..k][1..] == data[..k - 1];
    UploadCategories(catalog, rows[..k], parseDate);
  }

}
