# Android security bulletin parser — Dafny model

This project models the two pure transformations in `android_bulletins_parser.py`. Both work on an
HTML page that has already been fetched and parsed.

- **Index scanning** (`extract_bulletins` and `BulletinEntry.__init__`). The scanner reads the
  first table of the bulletin index page and skips its header row. Each remaining row becomes a
  bulletin entry:
  - the URL is `https://source.android.com` followed by the row's link;
  - the published date is the raw text of cell 2;
  - the patch level is the text of cell 3, split on whitespace.

  A row with no cells, or with an `a` element in its first cell and fewer than four cells, raises
  an `IndexError`; the scanner catches it and drops the row. Every other error escapes and ends
  the scan.
- **Section extraction** (the loop of `extract_bulletin_sections`). The extractor walks every
  table of a bulletin page. In each data row, it pairs the k-th `td` text (stripped) with the
  k-th `th` title of that table. It files each row's record in a `defaultdict(list)` under the
  stripped text of the `h3` heading whose position equals the table's position.

The parsed page is the datatype `Html.Document`. It holds the texts of the `h3` headings and the
tables. A table holds its `th` texts and its `tr` rows, the header row included. A row holds its
`td` cells. A cell holds its text and, optionally, its first `a` element. That element's `href`
is itself optional. These are the lists BeautifulSoup's recursive `find_all` would return, in
document order. `Text.Strip` models Python's `str.strip()` and `Text.Split` models `str.split()`.
Both use Python's `str.isspace` notion of whitespace.

The dictionary is `SectionMap.Sections`. It holds the section titles in insertion order, each
with its records. `Lookup` of an absent title returns the empty list, as the default factory does.

Errors are `Result` values. Each error type has one case per uncaught Python exception:
- `IndexScanner.ScanError`:
  - `TableNotFound`: the page has no table (the explicit `raise`);
  - `AnchorMissing`: the first cell has no `a` element (the `AttributeError` on `None.get`);
  - `HrefMissing`: the `a` element has no `href` (the `TypeError` of `BASE_URL + None`).
- `SectionExtractor.SectionError`:
  - `ColumnOutOfRange`: `column_titles[n_cols]` is out of range;
  - `HeadingOutOfRange`: `table_headers[n_tables]` is out of range.

  Both are `IndexError`s in the source. Within a row, the column error comes first.

Each loop of the source has a functional form and a method:
- `ExtractBulletinsLoop` computes `ExtractBulletins`, which scans rows with `ScanRows`;
- `BuildRecordLoop` computes `BuildRecord`;
- `AddRowsLoop` computes `AddRows`;
- `ExtractSectionsLoop` computes `ExtractSections`, which walks the tables with `AddTables`.

Each method follows the source's loops and counters and is proved equal to its functional form. Lemmas then relate the functional
definitions to independent, table-by-table statements of what the result should be:
- `Aligned` says when extraction succeeds;
- `RecordsUnder` gives the records under a key;
- `ActiveHeadings` with `Dedup` gives the keys in order;
- `TotalDataRows` gives the record count.

Some behaviours of the code are easy to miss:
- empty cells are kept: an empty cell yields a pair with an empty value (`EmptyCellKept`);
- empty column titles are kept in place (`EmptyTitleKept`);
- headings and tables are paired only by position: the k-th table's records go under the k-th
  `h3` heading, whether or not that heading is followed by that table;
- in the index scan, a first cell without an `a` element aborts the scan, whatever the row's
  length. Only rows with no cells, and rows whose first cell has an `a` element (with or without `href`) and fewer than four cells,
  are skipped.

## Model

| member | source | states |
|---|---|---|
| IndexScanner.NewBulletinEntry | android_bulletins_parser.py:15-21 | The entry's URL is exactly the base URL followed by the link, with nothing inserted. Date and patch level are stored unchanged. A missing link (`None`) makes construction fail. |
| IndexScanner.BulletinUrlInjective | android_bulletins_parser.py:16-19 | Two links that give the same bulletin URL are the same link. |
| IndexScanner.ScanRow | android_bulletins_parser.py:42-51 | A row is skipped exactly when it has no cells, or when its first cell has an anchor and it has fewer than four cells. A first cell without an anchor raises `AnchorMissing`. Four or more cells with an anchor lacking `href` raise `HrefMissing`. Otherwise the entry has URL = base + href, date = cell 2's raw text, and patch level = Split of cell 3's text. |
| IndexScanner.ScanRows | android_bulletins_parser.py:38-53 | The row loop gives at most one entry per row and never fails with `TableNotFound`. |
| IndexScanner.ExtractBulletins | android_bulletins_parser.py:32-36 | Fails with `TableNotFound` exactly when the page has no table. It never returns an empty list in that case. |
| IndexScanner.ScanOneRow | android_bulletins_parser.py:44-51 | The loop over one row appends that row's entry, appends nothing for a caught IndexError, or fails with the row's error. |
| IndexScanner.ScanRowsConcat | android_bulletins_parser.py:40-53 | Scanning rows `a + b` gives the entries of `a` followed by the entries of `b`, so entries keep their rows' order. It succeeds exactly when both parts do. The first part's error takes precedence. |
| IndexScanner.ScanRowsSucceedsIff | android_bulletins_parser.py:44-51 | The loop succeeds exactly when no row raises: every row has no cells, or an anchored first cell with fewer than four cells or with an `href`. |
| IndexScanner.ExtractBulletinsSucceedsIff | android_bulletins_parser.py:32-53 | `extract_bulletins` returns a list exactly when a table exists and no row after its header raises. |
| IndexScanner.SkippedRowInvisible | android_bulletins_parser.py:44-51 | Inserting a skippable row (no cells, or an anchored first cell and 1–3 cells) anywhere leaves the result unchanged. |
| IndexScanner.ScanWellFormedRows | android_bulletins_parser.py:40-53 | When every row has four or more cells and a first cell whose `a` element has an `href`, there is exactly one entry per row, at the row's position, built from that row. |
| IndexScanner.HeaderRowIgnored | android_bulletins_parser.py:40 | Replacing the table's first row by any row does not change the result. |
| IndexScanner.PatchLevelTokens | android_bulletins_parser.py:47 | No patch-level token is empty or contains whitespace. Joining the tokens with spaces and splitting again gives them back. |
| IndexScanner.ExtractBulletinsLoop | android_bulletins_parser.py:32-53 | The for/try/except loop as written computes `ExtractBulletins`. |
| Html.DataRows | android_bulletins_parser.py:40 | `find_all('tr')[1:]` is every row but the first: the i-th data row is row i+1, and a table with no rows has no data rows. |
| Text.IsWhitespace | android_bulletins_parser.py:47 | The characters Python's `str.isspace` accepts, used by both `strip()` and `split()`: TAB..CR, FS..US, space, NEL, NBSP and the Unicode space separators. A predicate without a contract. |
| Text.Strip | android_bulletins_parser.py:74 | `str.strip()`, characterised by `StripIsStrip` and `StripUnique`. |
| Text.Split | android_bulletins_parser.py:47 | `str.split()`. A string that starts with non-whitespace has at least one token. The token structure is given by `SplitTokens`, `SplitWord`, `SplitAtWhitespace` and `SplitJoinSpace`. |
| Text.TrimStartIsSuffix | android_bulletins_parser.py:74 | Trimming the start keeps a suffix that starts with non-whitespace and removes only whitespace. |
| Text.TrimEndIsPrefix | android_bulletins_parser.py:74 | Trimming the end keeps a prefix that ends with non-whitespace and removes only whitespace. |
| Text.StripIsStrip | android_bulletins_parser.py:74 | `strip()` returns an infix that is bounded by whitespace only and does not itself start or end with whitespace. |
| Text.StripUnique | android_bulletins_parser.py:74 | Only one string fits that description, so the description fully determines `strip()`. |
| Text.StripIdempotent | android_bulletins_parser.py:62 | Stripping twice gives the same string as stripping once. |
| Text.SplitTokens | android_bulletins_parser.py:47 | Every token of `split()` is non-empty and free of whitespace. |
| Text.SplitWord | android_bulletins_parser.py:47 | A non-empty word without whitespace splits into just itself. |
| Text.SplitAtWhitespace | android_bulletins_parser.py:47 | Splitting `a + [c] + b` at a whitespace character `c` gives the tokens of `a` followed by those of `b`. Together with `SplitWord` and `Split("") == []`, this determines `split()`. |
| Text.SplitJoinSpace | android_bulletins_parser.py:47 | `split()` undoes joining whitespace-free words with single spaces. |
| SectionMap.Lookup | android_bulletins_parser.py:76 | `sections[k]` on the `defaultdict(list)`: the records under `k`, or the empty list. Characterised through `AppendLookup` and `ExtractSectionsLookup`. |
| SectionMap.Append | android_bulletins_parser.py:76 | `sections[k].append(rec)`, characterised by `AppendKeys` and `AppendLookup`. |
| SectionMap.AppendKeys | android_bulletins_parser.py:65-76 | `sections[k].append(rec)` adds `k` to the end of the keys only when it is new, and keeps the keys unique. |
| SectionMap.AppendLookup | android_bulletins_parser.py:65-76 | After the append, `rec` is the last record under `k`. Every other key keeps its records, and the total grows by one. |
| SectionExtractor.StripAllIsStrip | android_bulletins_parser.py:62-68 | Mapping `strip()` over the `h3` or `th` texts keeps their count, and the i-th result is the strip of the i-th text. |
| SectionExtractor.Headings | android_bulletins_parser.py:62 | `table_headers`: the stripped `h3` texts, characterised by `StripAllIsStrip`. |
| SectionExtractor.ColumnTitles | android_bulletins_parser.py:68 | `column_titles`: the stripped `th` texts of one table, characterised by `StripAllIsStrip`. |
| SectionExtractor.BuildRecord | android_bulletins_parser.py:71-75 | The `td` loop of one row, characterised by `BuildRecordSpec`. |
| SectionExtractor.AddRows | android_bulletins_parser.py:70-76 | The `tr` loop of one table, characterised by `AddRowsSucceedsIff`, `AddRowsKeys` and `AddRowsLookup`. |
| SectionExtractor.AddTables | android_bulletins_parser.py:64-77 | The `table` loop, characterised by `AddTablesSucceedsIff`, `AddTablesKeys` and `AddTablesLookup`. |
| SectionExtractor.BuildRecordSpec | android_bulletins_parser.py:71-75 | A row's record exists exactly when the row has no more cells than the table has titles. It then has one pair per cell: the k-th pair is (k-th title, stripped text of the k-th cell). |
| SectionExtractor.FieldNamesArePrefix | android_bulletins_parser.py:74 | A record's field names are the table's first titles, one per cell. |
| SectionExtractor.RowRecordsAt | android_bulletins_parser.py:70-76 | The i-th record of a table is the record of its i-th data row, and there is one record per data row. |
| SectionExtractor.AddRowsSucceedsIff | android_bulletins_parser.py:70-76 | One table's rows extract without error exactly when they all fit the titles and, if there are any, heading `n_tables` exists. |
| SectionExtractor.AddRowsKeys | android_bulletins_parser.py:70-76 | One table adds its heading to the keys once if it has data rows, and adds nothing otherwise. |
| SectionExtractor.AddRowsLookup | android_bulletins_parser.py:70-76 | One table appends its records, in row order, under its heading only, and adds one record per data row. |
| SectionExtractor.AddTablesSucceedsIff | android_bulletins_parser.py:64-77 | The table loop succeeds exactly when every table is aligned. That fails for a row with more `td` cells than the table has `th` titles, or for a table with data rows at an index at or beyond the number of headings. |
| SectionExtractor.AddTablesKeys | android_bulletins_parser.py:64-77 | The keys are the headings of the tables that have data rows, each once, in order of first use. A table without data rows still advances the counter but creates no key. |
| SectionExtractor.AddTablesLookup | android_bulletins_parser.py:64-77 | Under each key are the records of every table with that heading, table after table, each table's in row order. Total records equal total data rows. |
| SectionExtractor.ExtractSections | android_bulletins_parser.py:62-79 | Succeeds exactly when the page is aligned. On success the keys are unique, and the number of records equals the number of data rows. |
| SectionExtractor.ExtractSectionsLookup | android_bulletins_parser.py:62-79 | On success, the records under any title are exactly those `RecordsUnder` lists. A title never used gives the empty list. |
| SectionExtractor.ExtractSectionsKeys | android_bulletins_parser.py:62-79 | On success, the keys are the de-duplicated headings of the non-empty tables, in document order. |
| SectionExtractor.EmptyTableAddsNothing | android_bulletins_parser.py:70-77 | A trailing table without data rows changes neither the result nor the failure. |
| SectionExtractor.ExtraHeadingsIgnored | android_bulletins_parser.py:62-76 | On success, adding more headings at the end changes nothing. Headings past the tables are never read. |
| SectionExtractor.AddRowsFailurePropagates | android_bulletins_parser.py:70-76 | An error in the first `j` rows is the error of the whole table. |
| SectionExtractor.AddTablesFailurePropagates | android_bulletins_parser.py:66-77 | An error in the first `i` tables is the error of the whole page. |
| SectionExtractor.BuildRecordLoop | android_bulletins_parser.py:71-75 | The cell loop with counter `n_cols`, as written, computes `BuildRecord`. |
| SectionExtractor.AddRowsLoop | android_bulletins_parser.py:70-76 | The row loop, as written, computes `AddRows`. |
| SectionExtractor.ExtractSectionsLoop | android_bulletins_parser.py:62-79 | The table loop with counter `n_tables`, as written, computes `ExtractSections`. |
| SectionExtractor.EmptyCellKept | android_bulletins_parser.py:73-74 | Titles A, B, C and cells "", " x ", "y" give (A,""), (B,"x"), (C,"y"). An empty cell is kept, not skipped. |
| SectionExtractor.EmptyTitleKept | android_bulletins_parser.py:68-74 | Titles "", "CVE", "Severity" pair a lone cell with the empty title. An empty title is not removed. |

## Left out

- HTTP retrieval and HTML parsing with `requests` and BeautifulSoup (android_bulletins_parser.py:56-58, 84-86). These are I/O and a foreign library. The parsed page is an input value. `get_text()`, `find('a')`, `get('href')` and the recursive `find_all` are given as fields of that value. How nested tables would share rows is therefore decided by whoever builds the value.
- Printing: `print`, `pprint` and `BulletinEntry.__str__` (android_bulletins_parser.py:23-27, 60, 94). These are presentation only.
- `main`, the index URL constant and the empty `BulletinEntryDetailed` class (android_bulletins_parser.py:13, 29-30, 82-97). They are glue with no logic.
- The unused imports `os`, `csv` and `argparse`. No behaviour depends on them.
- Exception messages. Errors are modelled by kind only.
- IndexScanner.ScanRows: its own contract only bounds the entry count. The order, success and content properties are in `ScanRowsConcat`, `ScanRowsSucceedsIff` and `ScanWellFormedRows`.
