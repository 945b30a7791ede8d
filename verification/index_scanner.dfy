/**
 * The index scanner: turns the first table of the bulletin index page into
 * bulletin entries (URL, published date, patch level), one per usable row.
 */
module IndexScanner {
  import opened Wrappers
  import opened Text
  import opened Html

  /** The origin every bulletin link is resolved against. */
  const BASE_URL: string := "https://source.android.com"

  datatype BulletinEntry = BulletinEntry(bulletinUrl: string, publishedDate: string, patchLevel: seq<string>)

  /** Why a scan aborts: no table at all, a first cell without an `a`
      element (AttributeError on `None.get`), or an `a` element without
      `href` (TypeError when `None` is appended to the base URL). */
  datatype ScanError = TableNotFound | AnchorMissing | HrefMissing

  /** What one index row yields: nothing (an IndexError, caught), an entry,
      or an error nobody catches. */
  datatype RowOutcome = Skipped | Scanned(entry: BulletinEntry) | Raised(error: ScanError)

  /** The constructor of a bulletin entry: the base URL with the link appended.
      A missing link cannot be appended and fails. */
  function NewBulletinEntry(href: Option<string>, publishedDate: string, patchLevel: seq<string>): (r: Option<BulletinEntry>)
    ensures r.Some? <==> href.Some?
    ensures r.Some? ==> |r.value.bulletinUrl| == |BASE_URL| + |href.value|
    ensures r.Some? ==> r.value.bulletinUrl[..|BASE_URL|] == BASE_URL
    ensures r.Some? ==> r.value.bulletinUrl[|BASE_URL|..] == href.value
    ensures r.Some? ==> r.value.publishedDate == publishedDate && r.value.patchLevel == patchLevel
  {
    match href
    case None => None
    case Some(link) => Some(BulletinEntry(BASE_URL + link, publishedDate, patchLevel))
  }

  /** Different links give different bulletin URLs: the URL determines the link. */
  lemma BulletinUrlInjective(link1: string, link2: string, date: string, patch: seq<string>)
    requires NewBulletinEntry(Some(link1), date, patch).value.bulletinUrl
             == NewBulletinEntry(Some(link2), date, patch).value.bulletinUrl
    ensures link1 == link2
  {
    var url := NewBulletinEntry(Some(link1), date, patch).value.bulletinUrl;
    assert link1 == url[|BASE_URL|..] == link2;
  }

  /** The try block of the scanning loop for one row. Cell 0 is read first
      (IndexError when there is none), then its anchor (AttributeError when
      there is none), then cells 2 and 3 (IndexError when the row is short),
      and only then is the entry built (TypeError when `href` is absent). */
  function ScanRow(row: Row): (r: RowOutcome)
    ensures r.Skipped? <==> row.cells == [] || (row.cells[0].anchor.Some? && |row.cells| < 4)
    ensures r.Raised? ==> r.error != TableNotFound
    ensures r.Raised? && r.error == AnchorMissing <==> row.cells != [] && row.cells[0].anchor.None?
    ensures r.Raised? && r.error == HrefMissing <==>
              |row.cells| >= 4 && row.cells[0].anchor.Some? && row.cells[0].anchor.value.href.None?
    ensures r.Scanned? ==>
              && |row.cells| >= 4 && row.cells[0].anchor.Some? && row.cells[0].anchor.value.href.Some?
              && r.entry.bulletinUrl == BASE_URL + row.cells[0].anchor.value.href.value
              && r.entry.publishedDate == row.cells[2].text
              && r.entry.patchLevel == Split(row.cells[3].text)
  {
    var columns := row.cells;
    if |columns| == 0 then Skipped
    else match columns[0].anchor
      case None => Raised(AnchorMissing)
      case Some(a) =>
        // `columns[2]` or `columns[3]` raises an IndexError, which is caught
        if |columns| < 4 then Skipped
        else match NewBulletinEntry(a.href, columns[2].text, Split(columns[3].text))
          case None => Raised(HrefMissing)
          case Some(e) => Scanned(e)
  }

  /** A row the scan accepts without error. */
  ghost predicate RowSafe(row: Row) {
    row.cells == [] || (row.cells[0].anchor.Some? && (|row.cells| < 4 || row.cells[0].anchor.value.href.Some?))
  }

  /** A row that yields an entry: four cells or more and a linked first cell. */
  ghost predicate WellFormed(row: Row) {
    |row.cells| >= 4 && row.cells[0].anchor.Some? && row.cells[0].anchor.value.href.Some?
  }

  /** The scanning loop over the rows after the header, in order. */
  function ScanRows(rows: seq<Row>): (r: Result<seq<BulletinEntry>, ScanError>)
    ensures r.Success? ==> |r.value| <= |rows|
    ensures r.Failure? ==> r.error != TableNotFound
    decreases |rows|
  {
    if rows == [] then Success([])
    else
      var n := |rows| - 1;
      var entries :- ScanRows(rows[..n]);
      match ScanRow(rows[n])
      case Skipped => Success(entries)
      case Scanned(e) => Success(entries + [e])
      case Raised(err) => Failure(err)
  }

  /** `extract_bulletins`: scans the first table of the page. */
  function ExtractBulletins(doc: Document): (r: Result<seq<BulletinEntry>, ScanError>)
    ensures r == Failure(TableNotFound) <==> doc.tables == []
  {
    if doc.tables == [] then Failure(TableNotFound)
    else ScanRows(DataRows(doc.tables[0]))
  }

  /** Scanning is a homomorphism from row concatenation to entry concatenation:
      entries keep the order of their rows, and an error in either part is an error of the whole. */
  lemma {:induction false} ScanRowsConcat(a: seq<Row>, b: seq<Row>)
    ensures ScanRows(a + b).Success? <==> ScanRows(a).Success? && ScanRows(b).Success?
    ensures ScanRows(a + b).Success? ==> ScanRows(a + b).value == ScanRows(a).value + ScanRows(b).value
    ensures ScanRows(a).Failure? ==> ScanRows(a + b) == Failure(ScanRows(a).error)
    ensures ScanRows(a).Success? && ScanRows(b).Failure? ==> ScanRows(a + b) == Failure(ScanRows(b).error)
    decreases |b|
  {
    if b == [] {
      assert a + b == a;
    } else {
      var n := |b| - 1;
      assert (a + b)[..|a + b| - 1] == a + b[..n];
      assert (a + b)[|a + b| - 1] == b[n];
      ScanRowsConcat(a, b[..n]);
      match ScanRow(b[n])
      case Skipped =>
      case Scanned(e) =>
        if ScanRows(a + b).Success? {
          assert ScanRows(a).value + ScanRows(b[..n]).value + [e] == ScanRows(a).value + (ScanRows(b[..n]).value + [e]);
        }
      case Raised(err) =>
    }
  }

  /** The scan of a single row. */
  lemma ScanOneRow(row: Row)
    ensures ScanRows([row]) == match ScanRow(row)
      case Skipped => Success([])
      case Scanned(e) => Success([e])
      case Raised(err) => Failure(err)
  {
    assert [row][..0] == [];
    match ScanRow(row)
    case Skipped =>
    case Scanned(e) => assert [] + [e] == [e];
    case Raised(err) =>
  }

  /** The scan succeeds exactly when no row raises an uncaught error. */
  lemma {:induction false} ScanRowsSucceedsIff(rows: seq<Row>)
    ensures ScanRows(rows).Success? <==> forall i :: 0 <= i < |rows| ==> RowSafe(rows[i])
    decreases |rows|
  {
    if rows != [] {
      var n := |rows| - 1;
      ScanRowsSucceedsIff(rows[..n]);
      assert forall i :: 0 <= i < n ==> rows[..n][i] == rows[i];
    }
  }

  /** `extract_bulletins` returns a list exactly when there is a table and no
      row after its header has a linkless first cell or, with four cells or
      more, an anchor without `href`. */
  lemma ExtractBulletinsSucceedsIff(doc: Document)
    ensures ExtractBulletins(doc).Success? <==>
              && doc.tables != []
              && forall i :: 1 <= i < |doc.tables[0].rows| ==> RowSafe(doc.tables[0].rows[i])
  {
    if doc.tables != [] {
      var rows := DataRows(doc.tables[0]);
      ScanRowsSucceedsIff(rows);
      assert forall i :: 1 <= i < |doc.tables[0].rows| ==> doc.tables[0].rows[i] == rows[i - 1];
    }
  }

  /** A skipped row (no cells, or a linked first cell and fewer than four
      cells) leaves the result unchanged wherever it sits. */
  lemma SkippedRowInvisible(a: seq<Row>, row: Row, b: seq<Row>)
    requires row.cells == [] || (row.cells[0].anchor.Some? && |row.cells| < 4)
    ensures ScanRows(a + [row] + b) == ScanRows(a + b)
  {
    ScanRowsConcat(a + [row], b);
    ScanRowsConcat(a, [row]);
    ScanRowsConcat(a, b);
    ScanOneRow(row);
    assert ScanRows(a + [row]) == ScanRows(a) by {
      if ScanRows(a + [row]).Success? {
        assert ScanRows(a).value + [] == ScanRows(a).value;
      }
    }
  }

  /** When every row is well formed, each row yields exactly one entry, at
      its own position, and that entry is the one its own cells build. */
  lemma {:induction false} ScanWellFormedRows(rows: seq<Row>)
    requires forall i :: 0 <= i < |rows| ==> WellFormed(rows[i])
    ensures ScanRows(rows).Success?
    ensures |ScanRows(rows).value| == |rows|
    ensures forall i :: 0 <= i < |rows| ==> ScanRow(rows[i]) == Scanned(ScanRows(rows).value[i])
    decreases |rows|
  {
    if rows != [] {
      var n := |rows| - 1;
      var prefix := rows[..n];
      assert forall i :: 0 <= i < n ==> prefix[i] == rows[i];
      ScanWellFormedRows(prefix);
      var e := ScanRow(rows[n]).entry;
      assert ScanRows(rows).value == ScanRows(prefix).value + [e];
    }
  }

  /** The header row of the table is never read: replacing it changes nothing. */
  lemma HeaderRowIgnored(doc: Document, header: Row)
    requires doc.tables != [] && doc.tables[0].rows != []
    ensures var t := doc.tables[0];
            var t' := t.(rows := [header] + t.rows[1..]);
            ExtractBulletins(doc.(tables := [t'] + doc.tables[1..])) == ExtractBulletins(doc)
  {
    var t := doc.tables[0];
    var t' := t.(rows := [header] + t.rows[1..]);
    assert DataRows(t') == DataRows(t);
  }

  /** Every token of a patch level is non-empty and free of whitespace, and the
      tokens are the cell text's whitespace-separated words. */
  lemma PatchLevelTokens(row: Row)
    requires ScanRow(row).Scanned?
    ensures var p := ScanRow(row).entry.patchLevel;
            forall k :: 0 <= k < |p| ==> p[k] != [] && NoWhitespace(p[k])
    ensures Split(JoinSpace(ScanRow(row).entry.patchLevel)) == ScanRow(row).entry.patchLevel
  {
    SplitTokens(row.cells[3].text);
    SplitJoinSpace(ScanRow(row).entry.patchLevel);
  }

  /** The loop of `extract_bulletins` as written: each row's try block either
      appends an entry, passes on an IndexError, or lets the error escape. */
  method ExtractBulletinsLoop(doc: Document) returns (r: Result<seq<BulletinEntry>, ScanError>)
    ensures r == ExtractBulletins(doc)
  {
    if |doc.tables| == 0 {
      return Failure(TableNotFound);
    }
    var rows := DataRows(doc.tables[0]);
    var entries: seq<BulletinEntry> := [];
    var i := 0;
    while i < |rows|
      invariant i <= |rows|
      invariant ScanRows(rows[..i]) == Success(entries)
    {
      assert rows[..i + 1][..i] == rows[..i];
      match ScanRow(rows[i]) {
        case Skipped =>
        case Scanned(e) =>
          entries := entries + [e];
        case Raised(err) =>
          ScanRowsConcat(rows[..i + 1], rows[i + 1..]);
          assert rows[..i + 1] + rows[i + 1..] == rows;
          return Failure(err);
      }
      i := i + 1;
    }
    assert rows[..i] == rows;
    return Success(entries);
  }
}
