/**
 * The already-parsed HTML page, reduced to what the parser reads from it.
 * The element lists are the ones BeautifulSoup's recursive `find_all`
 * returns, in document order; texts are `get_text()` before any stripping.
 */
module Html {
  import opened Wrappers

  /** An `a` element; `href` is `None` when the attribute is absent
      (`Tag.get('href')` then returns `None`). */
  datatype Anchor = Anchor(href: Option<string>)

  /** A `td` cell: its text and the first `a` element inside it, if any. */
  datatype Cell = Cell(text: string, anchor: Option<Anchor>)

  /** A `tr` row: the `td` cells found in it. */
  datatype Row = Row(cells: seq<Cell>)

  /** A `table`: the texts of all its `th` cells and all its `tr` rows,
      the header row included. */
  datatype Table = Table(headerTexts: seq<string>, rows: seq<Row>)

  /** A whole page: the texts of its `h3` headings and its tables. */
  datatype Document = Document(headings: seq<string>, tables: seq<Table>)

  /** `table.find_all('tr')[1:]`: every row but the first (none when the table has no rows). */
  function DataRows(t: Table): (rows: seq<Row>)
    ensures |rows| == if t.rows == [] then 0 else |t.rows| - 1
    ensures forall i :: 0 <= i < |rows| ==> rows[i] == t.rows[i + 1]
  {
    if t.rows == [] then [] else t.rows[1..]
  }
}
