/**
 * The section extractor: the loop of `extract_bulletin_sections` that walks
 * every table of a bulletin page, pairs each data cell with the column title
 * at the same position, and files each row's record under the `h3` heading
 * whose position equals the table's position.
 */
module SectionExtractor {
  import opened Wrappers
  import opened Text
  import opened Html
  import opened SectionMap

  /** Both are IndexErrors in the source: a cell beyond the last column
      title, or a non-empty table beyond the last heading. */
  datatype SectionError = ColumnOutOfRange | HeadingOutOfRange

  function StripAll(texts: seq<string>): seq<string> {
    seq(|texts|, i requires 0 <= i < |texts| => Strip(texts[i]))
  }

  /** Stripping every text keeps the count and strips each text in place. */
  lemma StripAllIsStrip(texts: seq<string>)
    ensures |StripAll(texts)| == |texts|
    ensures forall i :: 0 <= i < |texts| ==> IsStripOf(texts[i], StripAll(texts)[i])
  {
    forall i | 0 <= i < |texts|
      ensures IsStripOf(texts[i], StripAll(texts)[i])
    {
      StripIsStrip(texts[i]);
    }
  }

  /** `table_headers`: every `h3` text, stripped. */
  function Headings(doc: Document): seq<string> {
    StripAll(doc.headings)
  }

  /** `column_titles`: every `th` text of the table, stripped. */
  function ColumnTitles(t: Table): seq<string> {
    StripAll(t.headerTexts)
  }

  function FieldNames(rec: Record): seq<string> {
    seq(|rec|, k requires 0 <= k < |rec| => rec[k].0)
  }

  /** The inner loop over a row's `td` cells: the k-th cell becomes the pair
      (k-th column title, stripped cell text). A cell with no title at its
      position is an IndexError. */
  function BuildRecord(titles: seq<string>, cells: seq<Cell>): Option<Record>
    decreases |cells|
  {
    if cells == [] then Some([])
    else
      var k := |cells| - 1;
      var prev :- BuildRecord(titles, cells[..k]);
      if k < |titles| then Some(prev + [(titles[k], Strip(cells[k].text))]) else None
  }

  /** A row's record exists exactly when every cell has a column title; it
      then holds one pair per cell, the k-th pairing the k-th title with the
      k-th cell's stripped text. */
  lemma {:induction false} BuildRecordSpec(titles: seq<string>, cells: seq<Cell>)
    ensures BuildRecord(titles, cells).Some? <==> |cells| <= |titles|
    ensures BuildRecord(titles, cells).Some? ==>
              var rec := BuildRecord(titles, cells).value;
              && |rec| == |cells|
              && forall k :: 0 <= k < |cells| ==> rec[k] == (titles[k], Strip(cells[k].text))
    decreases |cells|
  {
    if cells != [] {
      var k := |cells| - 1;
      var prefix := cells[..k];
      BuildRecordSpec(titles, prefix);
      assert forall j :: 0 <= j < k ==> prefix[j] == cells[j];
    }
  }

  /** The field names of a record are the leading column titles, one per cell. */
  lemma FieldNamesArePrefix(titles: seq<string>, cells: seq<Cell>)
    requires |cells| <= |titles|
    ensures BuildRecord(titles, cells).Some?
    ensures FieldNames(BuildRecord(titles, cells).value) == titles[..|cells|]
  {
    BuildRecordSpec(titles, cells);
  }

  /** The loop over one table's data rows; `n` is the table counter `n_tables`.
      Each row's record is built first, then filed under heading `n`. */
  function AddRows(headings: seq<string>, n: nat, titles: seq<string>, rows: seq<Row>, acc: Sections)
    : Result<Sections, SectionError>
    decreases |rows|
  {
    if rows == [] then Success(acc)
    else
      var m := |rows| - 1;
      var prev :- AddRows(headings, n, titles, rows[..m], acc);
      var rec :- BuildRecord(titles, rows[m].cells).ToResult(ColumnOutOfRange);
      if n < |headings| then Success(Append(prev, headings[n], rec)) else Failure(HeadingOutOfRange)
  }

  /** The loop over the tables, in order; the counter is the table's position. */
  function AddTables(headings: seq<string>, tables: seq<Table>): Result<Sections, SectionError>
    decreases |tables|
  {
    if tables == [] then Success([])
    else
      var n := |tables| - 1;
      var prev :- AddTables(headings, tables[..n]);
      AddRows(headings, n, ColumnTitles(tables[n]), DataRows(tables[n]), prev)
  }

  // ---------------------------------------------------------------------
  // What the result should be, stated table by table.

  /** Every row has a column title for each of its cells. */
  ghost predicate RowsFit(titles: seq<string>, rows: seq<Row>) {
    forall i :: 0 <= i < |rows| ==> |rows[i].cells| <= |titles|
  }

  /** Table `n` extracts without error: its rows fit its titles, and if it has
      data rows there is an `n`-th heading to file them under. */
  ghost predicate TableAligned(headings: seq<string>, n: nat, t: Table) {
    && RowsFit(ColumnTitles(t), DataRows(t))
    && (DataRows(t) != [] ==> n < |headings|)
  }

  ghost predicate Aligned(headings: seq<string>, tables: seq<Table>) {
    forall n :: 0 <= n < |tables| ==> TableAligned(headings, n, tables[n])
  }

  /** The records of a list of rows, one per row, in row order. */
  function RowRecords(titles: seq<string>, rows: seq<Row>): seq<Record>
    requires RowsFit(titles, rows)
    decreases |rows|
  {
    if rows == [] then []
    else
      var m := |rows| - 1;
      RowsFitSnoc(titles, rows);
      BuildRecordSpec(titles, rows[m].cells);
      RowRecords(titles, rows[..m]) + [BuildRecord(titles, rows[m].cells).value]
  }

  /** The i-th record of a table is the record of its i-th row. */
  lemma {:induction false} RowRecordsAt(titles: seq<string>, rows: seq<Row>, i: nat)
    requires RowsFit(titles, rows) && i < |rows|
    ensures |RowRecords(titles, rows)| == |rows|
    ensures BuildRecord(titles, rows[i].cells) == Some(RowRecords(titles, rows)[i])
    decreases |rows|
  {
    var m := |rows| - 1;
    RowsFitSnoc(titles, rows);
    BuildRecordSpec(titles, rows[m].cells);
    if i < m {
      RowRecordsAt(titles, rows[..m], i);
      assert rows[..m][i] == rows[i];
    } else if m > 0 {
      RowRecordsAt(titles, rows[..m], 0);
    }
  }

  /** The number of data rows over all tables. */
  function TotalDataRows(tables: seq<Table>): nat
    decreases |tables|
  {
    if tables == [] then 0 else TotalDataRows(tables[..|tables| - 1]) + |DataRows(tables[|tables| - 1])|
  }

  /** The headings of the tables that have data rows, in table order, repeats kept. */
  function ActiveHeadings(headings: seq<string>, tables: seq<Table>): seq<string>
    requires Aligned(headings, tables)
    decreases |tables|
  {
    if tables == [] then []
    else
      var n := |tables| - 1;
      AlignedPrefix(headings, tables, n);
      ActiveHeadings(headings, tables[..n]) + (if DataRows(tables[n]) != [] then [headings[n]] else [])
  }

  /** The records that belong under `k`: those of every table whose heading
      is `k`, table after table, each table's in row order. */
  function RecordsUnder(headings: seq<string>, tables: seq<Table>, k: string): seq<Record>
    requires Aligned(headings, tables)
    decreases |tables|
  {
    if tables == [] then []
    else
      var n := |tables| - 1;
      var t := tables[n];
      AlignedPrefix(headings, tables, n);
      RecordsUnder(headings, tables[..n], k)
        + (if DataRows(t) != [] && headings[n] == k then RowRecords(ColumnTitles(t), DataRows(t)) else [])
  }

  lemma RowsFitSnoc(titles: seq<string>, rows: seq<Row>)
    requires rows != []
    ensures RowsFit(titles, rows) <==>
              RowsFit(titles, rows[..|rows| - 1]) && |rows[|rows| - 1].cells| <= |titles|
  {
    var prefix := rows[..|rows| - 1];
    assert forall i :: 0 <= i < |prefix| ==> prefix[i] == rows[i];
  }

  lemma AlignedSnoc(headings: seq<string>, tables: seq<Table>)
    requires tables != []
    ensures Aligned(headings, tables) <==>
              Aligned(headings, tables[..|tables| - 1])
              && TableAligned(headings, |tables| - 1, tables[|tables| - 1])
  {
    var prefix := tables[..|tables| - 1];
    assert forall i :: 0 <= i < |prefix| ==> prefix[i] == tables[i];
  }

  lemma AlignedPrefix(headings: seq<string>, tables: seq<Table>, n: nat)
    requires Aligned(headings, tables) && n <= |tables|
    ensures Aligned(headings, tables[..n])
  {
    assert forall i :: 0 <= i < n ==> tables[..n][i] == tables[i];
  }

  // ---------------------------------------------------------------------
  // The loops meet the table-by-table statement.

  /** One table's rows extract without error exactly when they fit and, if
      there are any, heading `n` exists. */
  lemma {:induction false} AddRowsSucceedsIff(headings: seq<string>, n: nat, titles: seq<string>, rows: seq<Row>, acc: Sections)
    ensures AddRows(headings, n, titles, rows, acc).Success? <==>
              RowsFit(titles, rows) && (rows != [] ==> n < |headings|)
    decreases |rows|
  {
    if rows != [] {
      var m := |rows| - 1;
      var prefix := rows[..m];
      AddRowsSucceedsIff(headings, n, titles, prefix, acc);
      var prev := AddRows(headings, n, titles, prefix, acc);
      BuildRecordSpec(titles, rows[m].cells);
      assert AddRows(headings, n, titles, rows, acc).Success? <==>
        prev.Success? && |rows[m].cells| <= |titles| && n < |headings|;
      RowsFitSnoc(titles, rows);
    }
  }

  /** One step of the row loop: the last row's record, filed under heading `n`. */
  lemma AddRowsStep(headings: seq<string>, n: nat, titles: seq<string>, rows: seq<Row>, acc: Sections)
    requires rows != [] && AddRows(headings, n, titles, rows, acc).Success?
    ensures AddRows(headings, n, titles, rows[..|rows| - 1], acc).Success?
    ensures BuildRecord(titles, rows[|rows| - 1].cells).Some? && n < |headings|
    ensures AddRows(headings, n, titles, rows, acc).value ==
              Append(AddRows(headings, n, titles, rows[..|rows| - 1], acc).value,
                     headings[n], BuildRecord(titles, rows[|rows| - 1].cells).value)
  {
  }

  /** The keys one table's rows leave: heading `n` added once if the table
      has data rows, and still no title twice. */
  lemma {:induction false} AddRowsKeys(headings: seq<string>, n: nat, titles: seq<string>, rows: seq<Row>, acc: Sections)
    requires AddRows(headings, n, titles, rows, acc).Success?
    ensures rows != [] ==> n < |headings|
    ensures var r := AddRows(headings, n, titles, rows, acc).value;
            && Keys(r) == (if rows == [] then Keys(acc) else AddKey(Keys(acc), headings[n]))
            && (UniqueKeys(acc) ==> UniqueKeys(r))
    decreases |rows|
  {
    if rows != [] {
      var m := |rows| - 1;
      var prefix := rows[..m];
      AddRowsStep(headings, n, titles, rows, acc);
      AddRowsKeys(headings, n, titles, prefix, acc);
      var prev := AddRows(headings, n, titles, prefix, acc).value;
      AppendKeys(prev, headings[n], BuildRecord(titles, rows[m].cells).value);
    }
  }

  /** What one table's rows add to the sections: one record per row, all
      under heading `n`, in row order; nothing else changes. */
  lemma {:induction false} AddRowsLookup(headings: seq<string>, n: nat, titles: seq<string>, rows: seq<Row>, acc: Sections)
    requires AddRows(headings, n, titles, rows, acc).Success?
    ensures RowsFit(titles, rows)
    ensures var r := AddRows(headings, n, titles, rows, acc).value;
            && TotalRecords(r) == TotalRecords(acc) + |rows|
            && forall k :: Lookup(r, k) == Lookup(acc, k)
                 + (if rows != [] && headings[n] == k then RowRecords(titles, rows) else [])
    decreases |rows|
  {
    AddRowsSucceedsIff(headings, n, titles, rows, acc);
    if rows != [] {
      var m := |rows| - 1;
      var prefix := rows[..m];
      AddRowsStep(headings, n, titles, rows, acc);
      RowsFitSnoc(titles, rows);
      AddRowsLookup(headings, n, titles, prefix, acc);
      var prev := AddRows(headings, n, titles, prefix, acc).value;
      var rec := BuildRecord(titles, rows[m].cells).value;
      AppendLookup(prev, headings[n], rec);
      assert RowRecords(titles, rows) == RowRecords(titles, prefix) + [rec];
      if m == 0 {
        assert RowRecords(titles, prefix) == [];
      }
    }
  }

  /** The whole loop succeeds exactly when every table is aligned. */
  lemma {:induction false} AddTablesSucceedsIff(headings: seq<string>, tables: seq<Table>)
    ensures AddTables(headings, tables).Success? <==> Aligned(headings, tables)
    decreases |tables|
  {
    if tables != [] {
      var n := |tables| - 1;
      var prefix := tables[..n];
      AlignedSnoc(headings, tables);
      AddTablesSucceedsIff(headings, prefix);
      if AddTables(headings, prefix).Success? {
        AddRowsSucceedsIff(headings, n, ColumnTitles(tables[n]), DataRows(tables[n]), AddTables(headings, prefix).value);
      }
    }
  }

  /** One step of the table loop: the last table's rows, added to what the
      tables before it built. */
  lemma AddTablesStep(headings: seq<string>, tables: seq<Table>)
    requires tables != [] && AddTables(headings, tables).Success?
    ensures AddTables(headings, tables[..|tables| - 1]).Success?
    ensures var n := |tables| - 1;
            var prev := AddTables(headings, tables[..n]).value;
            AddRows(headings, n, ColumnTitles(tables[n]), DataRows(tables[n]), prev) == AddTables(headings, tables)
  {
  }

  /** The keys the whole loop builds: the headings of the non-empty tables,
      each once, in order of first use. */
  lemma {:induction false} AddTablesKeys(headings: seq<string>, tables: seq<Table>)
    requires AddTables(headings, tables).Success?
    ensures Aligned(headings, tables)
    ensures var r := AddTables(headings, tables).value;
            && UniqueKeys(r)
            && Keys(r) == Dedup(ActiveHeadings(headings, tables))
    decreases |tables|
  {
    AddTablesSucceedsIff(headings, tables);
    if tables != [] {
      var n := |tables| - 1;
      var prefix := tables[..n];
      var t := tables[n];
      AddTablesStep(headings, tables);
      AddTablesKeys(headings, prefix);
      var prev := AddTables(headings, prefix).value;
      AddRowsKeys(headings, n, ColumnTitles(t), DataRows(t), prev);
      var active := ActiveHeadings(headings, prefix);
      if DataRows(t) != [] {
        assert ActiveHeadings(headings, tables) == active + [headings[n]];
        DedupSnoc(active, headings[n]);
      } else {
        assert ActiveHeadings(headings, tables) == active;
      }
    }
  }

  /** The records the whole loop files: under every key, those `RecordsUnder`
      lists, and one record per data row in total. */
  lemma {:induction false} AddTablesLookup(headings: seq<string>, tables: seq<Table>)
    requires AddTables(headings, tables).Success?
    ensures Aligned(headings, tables)
    ensures var r := AddTables(headings, tables).value;
            && TotalRecords(r) == TotalDataRows(tables)
            && forall k :: Lookup(r, k) == RecordsUnder(headings, tables, k)
    decreases |tables|
  {
    AddTablesSucceedsIff(headings, tables);
    if tables != [] {
      var n := |tables| - 1;
      var prefix := tables[..n];
      var t := tables[n];
      AddTablesStep(headings, tables);
      AddTablesLookup(headings, prefix);
      var prev := AddTables(headings, prefix).value;
      AddRowsLookup(headings, n, ColumnTitles(t), DataRows(t), prev);
    }
  }

  // ---------------------------------------------------------------------
  // The page-level operation.

  /** `extract_bulletin_sections` after the page is fetched and parsed. */
  function ExtractSections(doc: Document): (r: Result<Sections, SectionError>)
    ensures r.Success? <==> Aligned(Headings(doc), doc.tables)
    ensures r.Success? ==> UniqueKeys(r.value)
    ensures r.Success? ==> TotalRecords(r.value) == TotalDataRows(doc.tables)
  {
    var r := AddTables(Headings(doc), doc.tables);
    AddTablesSucceedsIff(Headings(doc), doc.tables);
    if r.Success? then AddTablesKeys(Headings(doc), doc.tables); AddTablesLookup(Headings(doc), doc.tables); r else r
  }

  /** On success, the records under `k` are those of every table whose
      heading is `k`, in table order and then row order. */
  lemma ExtractSectionsLookup(doc: Document, k: string)
    requires ExtractSections(doc).Success?
    ensures Aligned(Headings(doc), doc.tables)
    ensures Lookup(ExtractSections(doc).value, k) == RecordsUnder(Headings(doc), doc.tables, k)
  {
    AddTablesLookup(Headings(doc), doc.tables);
  }

  /** On success, the keys are the headings of the tables that have data rows,
      each once, in order of first use; a table without data rows adds no key. */
  lemma ExtractSectionsKeys(doc: Document)
    requires ExtractSections(doc).Success?
    ensures Aligned(Headings(doc), doc.tables)
    ensures Keys(ExtractSections(doc).value) == Dedup(ActiveHeadings(Headings(doc), doc.tables))
  {
    AddTablesKeys(Headings(doc), doc.tables);
  }

  /** Trailing tables without data rows change nothing, although each one
      still advances the table counter. */
  lemma EmptyTableAddsNothing(headings: seq<string>, tables: seq<Table>, t: Table)
    requires DataRows(t) == []
    ensures AddTables(headings, tables + [t]) == AddTables(headings, tables)
  {
    assert (tables + [t])[..|tables|] == tables;
  }

  /** Headings past those the tables use are never read: on success, adding
      more at the end changes nothing. */
  lemma {:induction false} ExtraHeadingsIgnored(headings: seq<string>, extra: seq<string>, tables: seq<Table>)
    requires AddTables(headings, tables).Success?
    ensures AddTables(headings + extra, tables) == AddTables(headings, tables)
    decreases |tables|
  {
    if tables != [] {
      var n := |tables| - 1;
      var prefix := tables[..n];
      AlignedSnoc(headings, tables);
      AddTablesSucceedsIff(headings, tables);
      AddTablesSucceedsIff(headings, prefix);
      ExtraHeadingsIgnored(headings, extra, prefix);
      var prev := AddTables(headings, prefix).value;
      AddRowsExtraHeadings(headings, extra, n, ColumnTitles(tables[n]), DataRows(tables[n]), prev);
    }
  }

  lemma {:induction false} AddRowsExtraHeadings(headings: seq<string>, extra: seq<string>, n: nat, titles: seq<string>, rows: seq<Row>, acc: Sections)
    requires AddRows(headings, n, titles, rows, acc).Success?
    ensures AddRows(headings + extra, n, titles, rows, acc) == AddRows(headings, n, titles, rows, acc)
    decreases |rows|
  {
    if rows != [] {
      var m := |rows| - 1;
      AddRowsExtraHeadings(headings, extra, n, titles, rows[..m], acc);
      assert (headings + extra)[n] == headings[n];
    }
  }

  lemma AddRowsFailureStep(headings: seq<string>, n: nat, titles: seq<string>, rows: seq<Row>, acc: Sections)
    requires rows != [] && AddRows(headings, n, titles, rows[..|rows| - 1], acc).Failure?
    ensures AddRows(headings, n, titles, rows, acc) == AddRows(headings, n, titles, rows[..|rows| - 1], acc)
  {
  }

  /** An error in the first `j` rows is the error of the whole table. */
  lemma {:induction false} AddRowsFailurePropagates(headings: seq<string>, n: nat, titles: seq<string>, rows: seq<Row>, j: nat, acc: Sections)
    requires j <= |rows| && AddRows(headings, n, titles, rows[..j], acc).Failure?
    ensures AddRows(headings, n, titles, rows, acc) == AddRows(headings, n, titles, rows[..j], acc)
    decreases |rows| - j
  {
    if j == |rows| {
      assert rows[..j] == rows;
    } else {
      var m := |rows| - 1;
      var prefix := rows[..m];
      assert prefix[..j] == rows[..j];
      AddRowsFailurePropagates(headings, n, titles, prefix, j, acc);
      AddRowsFailureStep(headings, n, titles, rows, acc);
    }
  }

  lemma AddTablesFailureStep(headings: seq<string>, tables: seq<Table>)
    requires tables != [] && AddTables(headings, tables[..|tables| - 1]).Failure?
    ensures AddTables(headings, tables) == AddTables(headings, tables[..|tables| - 1])
  {
  }

  /** An error in the first `i` tables is the error of the whole page. */
  lemma {:induction false} AddTablesFailurePropagates(headings: seq<string>, tables: seq<Table>, i: nat)
    requires i <= |tables| && AddTables(headings, tables[..i]).Failure?
    ensures AddTables(headings, tables) == AddTables(headings, tables[..i])
    decreases |tables| - i
  {
    if i == |tables| {
      assert tables[..i] == tables;
    } else {
      var n := |tables| - 1;
      var prefix := tables[..n];
      assert prefix[..i] == tables[..i];
      AddTablesFailurePropagates(headings, prefix, i);
      AddTablesFailureStep(headings, tables);
    }
  }

  /** The innermost loop as written, over a row's cells with the column
      counter `n_cols`; `None` where `column_titles[n_cols]` raises. */
  method BuildRecordLoop(columnTitles: seq<string>, cells: seq<Cell>) returns (r: Option<Record>)
    ensures r == BuildRecord(columnTitles, cells)
  {
    var entry: Record := [];
    var nCols := 0;
    while nCols < |cells|
      invariant nCols <= |cells|
      invariant BuildRecord(columnTitles, cells[..nCols]) == Some(entry)
    {
      if nCols >= |columnTitles| {
        assert cells[..nCols + 1][..nCols] == cells[..nCols];
        BuildRecordSpec(columnTitles, cells[..nCols + 1]);
        assert BuildRecord(columnTitles, cells[..nCols + 1]) == None;
        return None;
      }
      assert cells[..nCols + 1][..nCols] == cells[..nCols];
      entry := entry + [(columnTitles[nCols], Strip(cells[nCols].text))];
      nCols := nCols + 1;
    }
    assert cells[..nCols] == cells;
    return Some(entry);
  }

  /** The loop over one table's data rows as written: each row's record is
      appended under `table_headers[n_tables]`. */
  method AddRowsLoop(tableHeaders: seq<string>, nTables: nat, columnTitles: seq<string>, rows: seq<Row>, sections: Sections)
    returns (r: Result<Sections, SectionError>)
    ensures r == AddRows(tableHeaders, nTables, columnTitles, rows, sections)
  {
    var j := 0;
    var filled := sections;
    while j < |rows|
      invariant j <= |rows|
      invariant AddRows(tableHeaders, nTables, columnTitles, rows[..j], sections) == Success(filled)
    {
      assert rows[..j + 1][..j] == rows[..j];
      var entry := BuildRecordLoop(columnTitles, rows[j].cells);
      if entry.None? {
        assert AddRows(tableHeaders, nTables, columnTitles, rows[..j + 1], sections) == Failure(ColumnOutOfRange);
        AddRowsFailurePropagates(tableHeaders, nTables, columnTitles, rows, j + 1, sections);
        return Failure(ColumnOutOfRange);
      }
      if nTables >= |tableHeaders| {
        assert AddRows(tableHeaders, nTables, columnTitles, rows[..j + 1], sections) == Failure(HeadingOutOfRange);
        AddRowsFailurePropagates(tableHeaders, nTables, columnTitles, rows, j + 1, sections);
        return Failure(HeadingOutOfRange);
      }
      filled := Append(filled, tableHeaders[nTables], entry.value);
      j := j + 1;
    }
    assert rows[..j] == rows;
    return Success(filled);
  }

  /** The loops of `extract_bulletin_sections` as written, with the table
      counter `n_tables`; the first IndexError ends the extraction. */
  method ExtractSectionsLoop(doc: Document) returns (r: Result<Sections, SectionError>)
    ensures r == ExtractSections(doc)
  {
    var tableHeaders := Headings(doc);
    var tables := doc.tables;
    var nTables := 0;
    var sections: Sections := [];
    while nTables < |tables|
      invariant nTables <= |tables|
      invariant AddTables(tableHeaders, tables[..nTables]) == Success(sections)
    {
      var table := tables[nTables];
      assert tables[..nTables + 1][..nTables] == tables[..nTables];
      var next := AddRowsLoop(tableHeaders, nTables, ColumnTitles(table), DataRows(table), sections);
      if next.Failure? {
        AddTablesFailurePropagates(tableHeaders, tables, nTables + 1);
        return next;
      }
      sections := next.value;
      nTables := nTables + 1;
    }
    assert tables[..nTables] == tables;
    return Success(sections);
  }

  /** An empty cell is not skipped: it still yields a pair, with an empty
      value, under its own column title. */
  lemma EmptyCellKept()
    ensures BuildRecord(["A", "B", "C"], [Cell("", None), Cell(" x ", None), Cell("y", None)])
              == Some([("A", ""), ("B", "x"), ("C", "y")])
  {
    var titles := ["A", "B", "C"];
    var cells := [Cell("", None), Cell(" x ", None), Cell("y", None)];
    assert " x "[1..] == "x " && "x "[..1] == "x";
    assert TrimStart(" x ") == "x ";
    assert TrimEnd("x ") == "x";
    assert Strip("") == "" && Strip("y") == "y";
    BuildRecordSpec(titles, cells);
    var rec := BuildRecord(titles, cells).value;
    assert rec[0] == ("A", "") && rec[1] == ("B", "x") && rec[2] == ("C", "y");
    assert rec == [("A", ""), ("B", "x"), ("C", "y")];
  }

  /** An empty column title is not removed: the cells still pair with the
      titles position by position. */
  lemma EmptyTitleKept()
    ensures BuildRecord(ColumnTitles(Table(["", "CVE", "Severity"], [])), [Cell("CVE-1", None)])
              == Some([("", "CVE-1")])
  {
    var titles := ColumnTitles(Table(["", "CVE", "Severity"], []));
    assert Strip("") == "";
    assert titles[0] == "";
    assert Strip("CVE-1") == "CVE-1";
    BuildRecordSpec(titles, [Cell("CVE-1", None)]);
    var rec := BuildRecord(titles, [Cell("CVE-1", None)]).value;
    assert rec[0] == ("", "CVE-1");
    assert rec == [("", "CVE-1")];
  }
}
