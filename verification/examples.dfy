/** Worked uploads on small catalogs, derived from the general lemmas,
    with a date parser that knows a single date. */
module ImportExamples {
  import opened Wrappers
  import opened Text
  import opened Catalog
  import opened Importer

  function OneDate(text: string): Option<Date> {
    if text == "15-Jan-2023" then Some(Date(2023, 1, 15)) else None
  }

  const Header: Row := ["symbol", "name", "listing_date", "isin", "market_cap", "category"]
  const Tcs: Row := ["TCS", "Tata Consultancy", "15-Jan-2023", "INE467B01029", "largecap", "IT"]
  const Infy: Row := ["INFY", "Infosys", "31-Foo-2023", "INE009A01021", "largecap", "Software"]
  const It := Category("IT")

  lemma LargecapCell()
    ensures Classify("largecap") == Large
  {
    var l := "largecap";
    assert !IsWhitespace(l[0]) && !IsWhitespace(l[|l| - 1]);
    StripUnpadded(l);
    assert Lower(l) == l;
  }

  lemma TcsWellFormed()
    ensures WellFormed(Tcs, OneDate)
    ensures Tcs[0] == "TCS" && Tcs[1] == "Tata Consultancy" && Tcs[3] == "INE467B01029"
    ensures Tcs[4] == "largecap" && Tcs[5] == "IT"
  {
    assert Tcs[2] == "15-Jan-2023";
  }

  lemma SingleRowSucceeds()
    ensures Upload(Catalog([], []), [Header, Tcs], OneDate).Imported?
  {
    var empty := Catalog([], []);
    var rows := [Header, Tcs];
    TcsWellFormed();
    assert NoCaseVariants(empty.categories);
    assert Isins(empty.stocks) == {};
    assert RowIsinsAvailable(empty.stocks, rows);
    UploadSucceedsIff(empty, rows, OneDate);
  }

  lemma SingleRowCategories()
    ensures var after := Upload(Catalog([], []), [Header, Tcs], OneDate).catalog;
      forall c :: c in after.categories ==> c == It
    ensures |Upload(Catalog([], []), [Header, Tcs], OneDate).catalog.categories| <= 1
  {
    var empty := Catalog([], []);
    var rows := [Header, Tcs];
    TcsWellFormed();
    UploadNewCategories(empty, rows, OneDate);
    var after := Upload(empty, rows, OneDate).catalog;
    assert rows[1..] == [Tcs];
    forall k | 0 <= k < |after.categories|
      ensures after.categories[k] == It
    {
      assert NamedByRow(after.categories[k], [Tcs]);
    }
  }

  lemma SingleRowStock()
    ensures var after := Upload(Catalog([], []), [Header, Tcs], OneDate).catalog;
      && |after.stocks| == 1
      && FromRow(after.stocks[0], Tcs, OneDate, after.categories)
  {
    var empty := Catalog([], []);
    var rows := [Header, Tcs];
    SingleRowSucceeds();
    UploadStocksFromRows(empty, rows, OneDate);
    assert rows[1] == Tcs;
  }

  /** One data row into an empty catalog: one large-cap stock, carrying
      the row's cells, with its category created on the way. */
  lemma SingleRowImport()
    ensures var r := Upload(Catalog([], []), [Header, Tcs], OneDate);
      && r.Imported?
      && |r.catalog.stocks| == 1
      && r.catalog.stocks[0].symbol == "TCS"
      && r.catalog.stocks[0].isin == "INE467B01029"
      && r.catalog.stocks[0].marketCap == Large
      && r.catalog.stocks[0].category == Some(It)
      && r.catalog.categories == [It]
  {
    SingleRowSucceeds();
    SingleRowStock();
    SingleRowCategories();
    TcsWellFormed();
    LargecapCell();
    var after := Upload(Catalog([], []), [Header, Tcs], OneDate).catalog;
    var s := after.stocks[0];
    assert s.category.value in after.categories;
    assert after.categories == [It] by {
      assert |after.categories| == 1;
      assert after.categories[0] == It;
    }
  }

  /** A second row with an unreadable date aborts the upload: no stock is
      inserted, but the category created for the first row stays. */
  lemma AbortAfterCategoryCreated()
    ensures var r := Upload(Catalog([], []), [Header, Tcs, Infy], OneDate);
      && r.Aborted?
      && r.catalog.stocks == []
      && r.catalog.categories == [It]
  {
    var empty := Catalog([], []);
    var rows := [Header, Tcs, Infy];
    TcsWellFormed();
    assert Infy[2] == "31-Foo-2023";
    assert !WellFormed(rows[2], OneDate);
    assert rows[1] == Tcs;
    UploadAbortKeepsEarlierCategories(empty, rows, OneDate, 2);
    assert rows[..2] == [Header, Tcs];
    SingleRowImport();
  }
}
