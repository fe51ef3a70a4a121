/**
 * The CSV export guard (`esc` inside `safe_csv_bytes`): before a table is
 * written out, every text cell that a spreadsheet would read as a formula
 * (one starting with `=`, `+`, `-` or `@`) gets a single `'` in front of it.
 * Every other cell, the empty string and non-text cells included, is
 * exported as it is.
 */
module Export {

  /** A data-frame cell: text, a number, or an empty cell (NaN). */
  datatype Cell = Text(s: string) | Number(x: real) | Empty

  /** The characters that make a spreadsheet evaluate a cell. */
  predicate IsTrigger(c: char) {
    c == '=' || c == '+' || c == '-' || c == '@'
  }

  /** A text cell a spreadsheet would evaluate as a formula. */
  predicate Dangerous(c: Cell) {
    c.Text? && c.s != [] && IsTrigger(c.s[0])
  }

  /** `esc`. */
  function Esc(c: Cell): (r: Cell)
    ensures !Dangerous(r)
    ensures !Dangerous(c) ==> r == c
  {
    if Dangerous(c) then Text("'" + c.s) else c
  }

  /** A text cell that reads as a quote followed by a trigger character. */
  predicate QuotedFormula(c: Cell) {
    c.Text? && |c.s| >= 2 && c.s[0] == '\'' && IsTrigger(c.s[1])
  }

  /** Undoes `Esc`: drops the quote of a quoted formula. */
  function Unesc(c: Cell): (r: Cell)
    ensures QuotedFormula(c) ==> Dangerous(r)
  {
    if QuotedFormula(c) then Text(c.s[1..]) else c
  }

  /** Escaping adds exactly the one quote, and only to a dangerous cell. */
  lemma EscPrefix(c: Cell)
    ensures Dangerous(c) ==> Esc(c) == Text("'" + c.s)
    ensures Esc(c).Text? <==> c.Text?
    ensures c.Text? ==> |Esc(c).s| == |c.s| + (if Dangerous(c) then 1 else 0)
    ensures c.Text? ==> Esc(c).s[|Esc(c).s| - |c.s|..] == c.s
  {
  }

  /** Escaping twice is escaping once. */
  lemma EscIdempotent(c: Cell)
    ensures Esc(Esc(c)) == Esc(c)
  {
  }

  /**
   * `Unesc` recovers every cell except one that already reads as a quote
   * followed by a trigger character; such a cell is exported unchanged
   * and reads back without its quote.
   */
  lemma EscRoundTrip(c: Cell)
    ensures Unesc(Esc(c)) == c <==> !QuotedFormula(c)
  {
    if Dangerous(c) {
      assert ("'" + c.s)[1..] == c.s;
    }
  }

  /** The cells `"=1"` and `"'=1"` are exported alike: `Esc` is not one-to-one. */
  lemma EscMergesQuoted()
    ensures Esc(Text("=1")) == Esc(Text("'=1"))
  {
    assert "'" + "=1" == "'=1";
  }

  /** A table as rows of cells. */
  type Table = seq<seq<Cell>>

  /** `df.applymap(esc)`: every cell escaped, the shape kept. */
  function EscTable(t: Table): (r: Table)
    ensures |r| == |t|
    ensures forall i :: 0 <= i < |t| ==> |r[i]| == |t[i]|
    ensures forall i, j :: 0 <= i < |t| && 0 <= j < |t[i]| ==> r[i][j] == Esc(t[i][j])
  {
    seq(|t|, i requires 0 <= i < |t| => seq(|t[i]|, j requires 0 <= j < |t[i]| => Esc(t[i][j])))
  }

  /** No data cell of an exported table reads as a formula. */
  lemma ExportedTableSafe(t: Table)
    ensures forall i, j :: 0 <= i < |EscTable(t)| && 0 <= j < |EscTable(t)[i]| ==> !Dangerous(EscTable(t)[i][j])
  {
  }

  // ---------------------------------------------------------------------
  // The header row

  /** A data frame as `to_csv(index=False)` sees it: column names, then the data rows. */
  datatype Frame = Frame(header: seq<string>, rows: Table)

  /** The column names as the text cells of the first CSV line. */
  function HeaderCells(header: seq<string>): (r: seq<Cell>)
    ensures |r| == |header|
    ensures forall j :: 0 <= j < |header| ==> r[j] == Text(header[j])
  {
    seq(|header|, j requires 0 <= j < |header| => Text(header[j]))
  }

  /** The cells `to_csv` writes: the header line, then one line per row. */
  function CsvCells(f: Frame): (r: Table)
    ensures |r| == |f.rows| + 1
    ensures r[0] == HeaderCells(f.header) && r[1..] == f.rows
  {
    [HeaderCells(f.header)] + f.rows
  }

  /**
   * `safe_csv_bytes` as written: `applymap(esc)` escapes the data cells,
   * and `to_csv` then writes the column names as they are.
   */
  function SafeCsv(f: Frame): (r: Table)
    ensures |r| == |f.rows| + 1
    ensures r[0] == HeaderCells(f.header)
    ensures r[1..] == EscTable(f.rows)
    ensures forall i, j :: 1 <= i < |r| && 0 <= j < |r[i]| ==> !Dangerous(r[i][j])
  {
    CsvCells(Frame(f.header, EscTable(f.rows)))
  }

  /**
   * A column name that reads as a formula reaches the file unescaped: the
   * priority export names its columns after the uploaded indicators.
   */
  lemma HeaderFormulaSurvives(f: Frame, j: int)
    requires 0 <= j < |f.header| && f.header[j] != [] && IsTrigger(f.header[j][0])
    ensures Dangerous(SafeCsv(f)[0][j])
  {
  }

  /** The indicator name `=1+1` is written as a formula. */
  lemma HeaderFormulaExample()
    ensures Dangerous(SafeCsv(Frame(["=1+1"], []))[0][0])
  {
    HeaderFormulaSurvives(Frame(["=1+1"], []), 0);
  }

  /** The export with the column names escaped as well. */
  function SafeCsvWithHeader(f: Frame): (r: Table)
    ensures |r| == |f.rows| + 1
    ensures r[1..] == SafeCsv(f)[1..]
    ensures |r[0]| == |f.header|
    ensures forall j :: 0 <= j < |f.header| ==> r[0][j] == Esc(Text(f.header[j]))
  {
    EscTable(CsvCells(f))
  }

  /** No cell of the corrected export, header included, reads as a formula. */
  lemma SafeCsvWithHeaderSafe(f: Frame)
    ensures forall i, j :: 0 <= i < |SafeCsvWithHeader(f)| && 0 <= j < |SafeCsvWithHeader(f)[i]| ==>
              !Dangerous(SafeCsvWithHeader(f)[i][j])
  {
  }
}
