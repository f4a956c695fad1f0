# Stock catalog bulk import — a Dafny model

This project models the bulk stock import of a small stock-catalog admin site, together with the catalog constraints it writes into.

**The catalog** (`catalog.dfy`, module `Catalog`) has two tables:
- categories, whose names are unique when compared exactly;
- stocks, each with a company name, symbol, listing date, ISIN, market-cap tier and an optional category.

ISIN is unique across stocks. A category cannot be deleted while a stock refers to it. The four market-cap tiers are stored as the one-letter codes `U`, `S`, `M` and `L`, and new stocks default to `U` (Unknown).

**The import** (`importer.dfy`, module `Importer`) takes the uploaded rows, already split into cells:
1. The first row is a header and is skipped. With no rows at all, the import fails.
2. Each further row becomes one stock. Cells 0, 1 and 3 give symbol, name and ISIN verbatim. Cell 2 goes through a date parser.
3. Cell 4 is stripped, lower-cased and classified as Smallcap, Midcap, Largecap or Unknown.
4. Cell 5 is looked up among the categories ignoring case. A single match is reused. With no match, a category named exactly by the cell is created.
5. All stocks are added by one batch insert. If any ISIN clashes, the insert adds nothing.

Only the batch insert is atomic. Categories are created inside the row loop, each committed on its own. So an import that fails part-way inserts no stock but keeps the categories created for earlier rows. `Upload` therefore returns the catalog in both outcomes: `Imported(catalog)` or `Aborted(catalog, error)`. `UploadAbortKeepsEarlierCategories` states the leftover-category behaviour, and `ImportExamples.AbortAfterCategoryCreated` shows it on a concrete upload.

Two statements one could make about this import do not hold of the code, and the model follows the code:
- "All-or-nothing" holds for stocks only, not for categories.
- The import does not create one category per distinct category name it sees. A name that matches an existing category up to case reuses that category. Rows whose names differ only in case share one category. Each data row creates at most one category.

Other files:
- `text.dfy` (module `Text`): the string operations the import uses, i.e. Python's argument-less `strip()` and a case fold.
- `wrappers.dfy` (module `Wrappers`): `Option` and `Result`.
- `examples.dfy` (module `ImportExamples`): worked uploads derived from the general lemmas.

The date parser is a parameter `parseDate: string -> Option<Date>`. `None` stands for the parse error that aborts the import.

## Model

| member | source | states |
|---|---|---|
| Catalog.FromCode | stock/models.py:12-16 | exactly the four codes U, S, M, L decode to a tier, and a decoded tier's code is the character read |
| Catalog.CodeRoundTrip | stock/models.py:12-16 | the four tiers have distinct codes: decoding a tier's code gives back that tier and no other |
| Catalog.NewStock | stock/models.py:18-29 | a stock created from symbol, name, date and ISIN alone has tier Unknown and no category |
| Catalog.CategoryStr | stock/models.py:9-10 | a category's display string determines the category (it is the name) |
| Catalog.StockStrRoundTrip | stock/models.py:32-33 | a stock displays as name, "(", symbol, ")": cutting the display at its last "(" gives back name and symbol when the symbol has no "(" |
| Catalog.DeleteCategory | stock/models.py:29 | deleting a category fails exactly when some stock refers to it; otherwise only that category goes, the stocks stay, and the catalog constraints still hold |
| Catalog.NoCaseVariantsAreDistinct | stock/models.py:4-7 | a category list without case variants meets the exact-match uniqueness of category names |
| Text.StripSpec | stock/admin.py:46 | `strip()` returns the middle of the string: all it drops before and after is whitespace, and the result neither starts nor ends with whitespace |
| Text.StripUnpadded | stock/admin.py:46 | a string with no whitespace at either end is returned unchanged by `strip()` |
| Text.StripIdempotent | stock/admin.py:46 | stripping twice gives the same as stripping once |
| Text.StripPadding | stock/admin.py:46 | `strip()` ignores any whitespace added around a string |
| Text.StripLowerCommute | stock/admin.py:46 | stripping then lower-casing equals lower-casing then stripping |
| Text.EqualsIgnoreCaseIsLowerEquality | stock/admin.py:56 | two strings match ignoring case exactly when their case-folded forms are equal |
| Importer.ClassifyMatchesLabels | stock/admin.py:46-54 | a cell gets Smallcap, Midcap or Largecap exactly when its stripped, lower-cased text is that tier's lower-cased label |
| Importer.ClassifyOtherwiseUnknown | stock/admin.py:46-54 | a cell gets Unknown exactly when its stripped, lower-cased text is none of the three lower-cased labels |
| Importer.ClassifyLabel | stock/admin.py:46-54 | each tier's own label, e.g. "Largecap", is classified as that tier |
| Importer.ClassifyIgnoresCase | stock/admin.py:46 | two cells that differ only in letter case get the same tier |
| Importer.ClassifyIgnoresPadding | stock/admin.py:46 | whitespace around a cell does not change its tier, e.g. " LargeCap " |
| Importer.Matches | stock/admin.py:56 | the case-insensitive lookup returns exactly the categories whose name matches the cell ignoring case |
| Importer.MatchesCount | stock/admin.py:56 | the lookup finds two or more categories exactly when two entries of the list match the cell |
| Importer.GetOrCreate | stock/admin.py:56-57 | a single case-insensitive match is reused and the list is unchanged; no match appends a category named exactly by the cell and yields it; several matches are an error |
| Importer.GetOrCreateKeepsNoCaseVariants | stock/admin.py:56 | in a list without case variants the lookup never fails and never introduces two names that differ only in case |
| Importer.MapRow | stock/admin.py:39-59 | a row maps exactly when it has six cells, its date parses and its category is not ambiguous. The stock then carries cells 0, 1, 3 verbatim, the parsed date, the tier of cell 4 and a category matching cell 5. Short rows and bad dates fail with the column read or the date text |
| Importer.MapRows | stock/admin.py:38-59 | the loop only appends to the category list, and on success yields one stock per row |
| Importer.MapRowsNewCategories | stock/admin.py:38-59 | the loop adds at most one category per row, each named verbatim by some row's category cell |
| Importer.MapRowsKeepsDistinct | stock/admin.py:38-59 | the loop keeps category names unique and, starting without case variants, introduces none |
| Importer.MapRowsCategories | stock/admin.py:38-59 | the loop's effect on categories in every outcome: appended only, at most one per row, named by rows, no duplicates and no case variants |
| Importer.MapRowsStocks | stock/admin.py:38-59 | on success the k-th stock is the one built from the k-th row, so stocks come in row order |
| Importer.MapRowsSucceedsIff | stock/admin.py:38-59 | starting without case variants, the loop succeeds exactly when every row is well formed |
| Importer.MapRowsStopsAtFirstBadRow | stock/admin.py:38-59 | the loop fails at the first malformed row and leaves the categories that the rows before it left |
| Importer.ClashFreeMeansFreshAndUnique | stock/models.py:22 | the insert-time ISIN check passes exactly when every batch ISIN is new and the batch ISINs are pairwise distinct |
| Importer.IsinsUniqueAppend | stock/models.py:22 | appending a batch keeps ISINs unique exactly when its ISINs are new and pairwise distinct |
| Importer.BulkCreate | stock/admin.py:61 | the batch insert adds every stock after the stored ones, in order, or adds none. It fails exactly when an ISIN repeats a stored one or another of the batch, and on success the catalog constraints still hold |
| Importer.Upload | stock/admin.py:32-61 | no rows is an error with the catalog unchanged. An aborted upload leaves the stocks unchanged. Categories are only appended. A successful upload appends exactly one stock per data row after the stored ones |
| Importer.UploadStocksFromRows | stock/admin.py:37-59 | after a successful upload, the stock added at position k comes from data row k + 1, so the header yields no stock |
| Importer.UploadNewCategories | stock/admin.py:56 | an upload adds at most one category per data row, each named verbatim by a data row, and never two names that differ only in case |
| Importer.UploadPreservesValid | stock/admin.py:32-61 | an upload, successful or aborted, keeps category names unique, ISINs unique and every category reference resolvable |
| Importer.UploadSucceedsIff | stock/admin.py:37-61 | without case-variant categories, an upload succeeds exactly when there is a header, every data row is well formed, and the data rows' ISINs are new and distinct |
| Importer.UploadAbortKeepsEarlierCategories | stock/admin.py:56-61 | an upload failing at a malformed row inserts no stock but keeps the categories an upload of the rows before it would have left |
| ImportExamples.SingleRowImport | stock/admin.py:37-61 | header plus one "TCS … largecap, IT" row into an empty catalog yields one Largecap stock with that symbol and ISIN and a newly created category "IT" |
| ImportExamples.AbortAfterCategoryCreated | stock/admin.py:38-61 | adding a row with an unparseable date after it aborts the upload with no stock inserted, yet category "IT" stays |

## Left out

- HTTP and admin wiring is not modelled: the URL registration, the admin view wrapper, the template context, rendering the form and the redirect. Neither is the list, search and filter configuration. None of it takes part in the import logic.
- File reading, UTF-8 decoding, line splitting and CSV quoting are not modelled. Rows arrive as sequences of already-split cells.
- `%d-%b-%Y` date parsing is the parameter `parseDate`, because its behaviour depends on the library and the locale. Dates are plain year/month/day triples and are not checked for validity.
- Case folding is ASCII-only. Python's `lower()` folds all of Unicode, and the database's case-insensitive match depends on its collation. Whitespace for `strip()` is the fixed set of characters that Python's `str.isspace` accepts.
- Importer.GetOrCreate: when the database already holds categories differing only in case, the lookup raises an error (`MultipleObjectsReturned`). The model reports this as `AmbiguousCategory`. The catalog constraints do not rule such catalogs out. The import never creates them, as shown by `GetOrCreateKeepsNoCaseVariants`.
- Column length limits (`max_length`) are not modelled. Whether they are enforced depends on the database backend.
- Row ids and primary keys are not modelled. A category is identified by its name, which is unique, and a stock's category reference is that category value. The batch insert does not re-check category references: every stock the import builds refers to a category in the list, as `UploadPreservesValid` proves.
- Importer.BulkCreate: a duplicate-ISIN failure carries no detail of which ISIN clashed, and the database's error message is not modelled.
- Transactions and autocommit are reduced to two facts: each category creation persists on its own, and the batch insert is atomic. Concurrent imports are not modelled.
- Admin create/edit pages for single stocks or categories are not modelled, apart from deleting a category (needed for the protect-on-delete rule).
- Python exception types are reduced to the `ImportError` variants: StopIteration becomes `EmptyInput`, IndexError becomes `MissingColumn`, a date ValueError becomes `BadDate`, MultipleObjectsReturned becomes `AmbiguousCategory`, and IntegrityError becomes `DuplicateIsin`.
