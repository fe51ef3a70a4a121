/**
 * The schema normaliser (`enforce_schema`): header names are trimmed and
 * lower-cased, the seven required columns must all be present, `year` and
 * `value` are parsed as numbers and rows where either does not parse are
 * dropped, and the text fields are canonicalised.
 *
 * Parsing a cell as a number (`pd.to_numeric(..., errors="coerce")`) is a
 * parameter: `parse(cell)` is `Some(x)` when the cell parses to `x`.
 */
module Schema {
  import opened Basics
  import opened Text

  /** An uploaded table as text: the header row and the data rows. */
  datatype RawTable = RawTable(header: seq<string>, rows: seq<seq<string>>)

  /** Every data row has one cell per header cell, as in a data frame. */
  predicate Rectangular(t: RawTable) {
    forall i :: 0 <= i < |t.rows| ==> |t.rows[i]| == |t.header|
  }

  /** A row of the seven required columns once `year` and `value` have been parsed. */
  datatype ParsedRow = ParsedRow(
    state: string, county: string, fips: string, year: Option<real>,
    indicator: string, value: Option<real>, unit: string)

  /** A canonical observation: what `enforce_schema` keeps. */
  datatype Observation = Observation(
    state: string, county: string, fips: string, year: real,
    indicator: string, value: real, unit: string)

  const Required: set<string> := {"state", "county", "fips", "year", "indicator", "value", "unit"}

  /** Header names after `strip()` and `lower()`. */
  function NormalizeHeader(header: seq<string>): (h: seq<string>)
    ensures |h| == |header|
    ensures forall i :: 0 <= i < |h| ==> h[i] == Lower(Strip(header[i]))
  {
    seq(|header|, i requires 0 <= i < |header| => Lower(Strip(header[i])))
  }

  /** The required columns that the header lacks, compared after strip and lower-case. */
  function Missing(header: seq<string>): (m: set<string>)
    ensures m <= Required
    ensures forall name :: name in Required ==> (name in m <==> name !in NormalizeHeader(header))
  {
    var h := NormalizeHeader(header);
    set name | name in Required && name !in h
  }

  /** The position of the first column called `name`. */
  function ColumnIndex(h: seq<string>, name: string): (i: nat)
    requires name in h
    ensures i < |h| && h[i] == name
    ensures forall k :: 0 <= k < i ==> h[k] != name
  {
    if h[0] == name then 0 else 1 + ColumnIndex(h[1..], name)
  }

  /** The seven required fields of row `i`, with `year` and `value` parsed. */
  function ParseRow(t: RawTable, parse: string -> Option<real>, i: int): ParsedRow
    requires Rectangular(t) && Missing(t.header) == {} && 0 <= i < |t.rows|
  {
    var h := NormalizeHeader(t.header);
    var row := t.rows[i];
    ParsedRow(
      row[ColumnIndex(h, "state")], row[ColumnIndex(h, "county")], row[ColumnIndex(h, "fips")],
      parse(row[ColumnIndex(h, "year")]), row[ColumnIndex(h, "indicator")],
      parse(row[ColumnIndex(h, "value")]), row[ColumnIndex(h, "unit")])
  }

  function ParseRows(t: RawTable, parse: string -> Option<real>): (rows: seq<ParsedRow>)
    requires Rectangular(t) && Missing(t.header) == {}
    ensures |rows| == |t.rows|
    ensures forall i :: 0 <= i < |rows| ==> rows[i] == ParseRow(t, parse, i)
  {
    seq(|t.rows|, i requires 0 <= i < |t.rows| => ParseRow(t, parse, i))
  }

  /** Whether a row survives `dropna(subset=["year", "value"])`. */
  predicate Keeps(r: ParsedRow) {
    r.year.Some? && r.value.Some?
  }

  /** State and county stripped and title-cased, indicator and unit stripped, fips as it was. */
  function Canon(r: ParsedRow): Observation
    requires Keeps(r)
  {
    Observation(Title(Strip(r.state)), Title(Strip(r.county)), r.fips, r.year.value,
                Strip(r.indicator), r.value.value, Strip(r.unit))
  }

  /** The rows that keep both numbers, canonicalised, in their original order. */
  function Clean(rows: seq<ParsedRow>): seq<Observation> {
    if rows == [] then []
    else
      var last := rows[|rows| - 1];
      Clean(rows[..|rows| - 1]) + (if Keeps(last) then [Canon(last)] else [])
  }

  lemma CleanStep(rows: seq<ParsedRow>, i: int)
    requires 0 <= i < |rows|
    ensures Clean(rows[..i + 1]) == Clean(rows[..i]) + (if Keeps(rows[i]) then [Canon(rows[i])] else [])
  {
    assert rows[..i + 1][..i] == rows[..i];
  }

  /** What `enforce_schema` returns: the missing columns, or the cleaned rows. */
  function Normalize(t: RawTable, parse: string -> Option<real>): Result<seq<Observation>, set<string>>
    requires Rectangular(t)
  {
    var missing := Missing(t.header);
    if missing != {} then Err(missing) else Ok(Clean(ParseRows(t, parse)))
  }

  /**
   * `enforce_schema`: the header check, then the rows parsed and cleaned.
   * The input is a value, so it is left as it was; the result is a new
   * table.
   */
  method EnforceSchema(t: RawTable, parse: string -> Option<real>)
    returns (r: Result<seq<Observation>, set<string>>)
    requires Rectangular(t)
    ensures r.Err? <==> Missing(t.header) != {}
    ensures r.Err? ==> r.error == Missing(t.header)
    ensures r == Normalize(t, parse)
  {
    var missing := Missing(t.header);
    if missing != {} {
      return Err(missing);
    }
    var out := CleanParsed(ParseRows(t, parse));
    r := Ok(out);
  }

  /** The `dropna` and text clean-up, row by row. */
  method CleanParsed(rows: seq<ParsedRow>) returns (out: seq<Observation>)
    ensures out == Clean(rows)
  {
    out := [];
    var i := 0;
    while i < |rows|
      invariant 0 <= i <= |rows|
      invariant out == Clean(rows[..i])
    {
      CleanStep(rows, i);
      if rows[i].year.Some? && rows[i].value.Some? {
        out := out + [Canon(rows[i])];
      }
      i := i + 1;
    }
    assert rows[..i] == rows;
  }

  // ---------------------------------------------------------------------
  // Properties of the cleaned table

  /** The positions of the rows that `Clean` keeps, in increasing order. */
  function KeptIndices(rows: seq<ParsedRow>): (idx: seq<nat>)
    ensures forall k :: 0 <= k < |idx| ==> idx[k] < |rows| && Keeps(rows[idx[k]])
    ensures forall k, l :: 0 <= k < l < |idx| ==> idx[k] < idx[l]
    ensures forall i :: 0 <= i < |rows| && Keeps(rows[i]) ==> i in idx
  {
    if rows == [] then []
    else
      var n := |rows| - 1;
      KeptIndices(rows[..n]) + (if Keeps(rows[n]) then [n] else [])
  }

  /**
   * The cleaned table is exactly the rows whose year and value both parse,
   * each canonicalised, in their original order.
   */
  lemma {:induction false} CleanKeepsOrder(rows: seq<ParsedRow>)
    ensures |Clean(rows)| == |KeptIndices(rows)|
    ensures forall k :: 0 <= k < |Clean(rows)| ==> Clean(rows)[k] == Canon(rows[KeptIndices(rows)[k]])
  {
    if rows != [] {
      var n := |rows| - 1;
      var front := rows[..n];
      CleanKeepsOrder(front);
      assert forall i :: 0 <= i < n ==> front[i] == rows[i];
      var c, idx := Clean(rows), KeptIndices(rows);
      assert c == Clean(front) + (if Keeps(rows[n]) then [Canon(rows[n])] else []);
      assert idx == KeptIndices(front) + (if Keeps(rows[n]) then [n] else []);
      forall k | 0 <= k < |c|
        ensures c[k] == Canon(rows[idx[k]])
      {
        if k < |Clean(front)| {
          assert c[k] == Clean(front)[k] && idx[k] == KeptIndices(front)[k];
        }
      }
    }
  }

  /** `Title(s) == s`: what `str.title()` leaves unchanged. */
  predicate TitleCased(s: string) {
    Title(s) == s
  }

  /** Every field `enforce_schema` canonicalises is in canonical form. */
  predicate Canonical(o: Observation) {
    && Trimmed(o.state) && TitleCased(o.state)
    && Trimmed(o.county) && TitleCased(o.county)
    && Trimmed(o.indicator) && Trimmed(o.unit)
  }

  lemma CanonIsCanonical(r: ParsedRow)
    requires Keeps(r)
    ensures Canonical(Canon(r))
  {
    TitleTrimmed(Strip(r.state));
    TitleIdempotent(Strip(r.state));
    TitleTrimmed(Strip(r.county));
    TitleIdempotent(Strip(r.county));
  }

  /** Every row of a cleaned table is in canonical form. */
  lemma {:induction false} CleanIsCanonical(rows: seq<ParsedRow>)
    ensures forall o :: o in Clean(rows) ==> Canonical(o)
  {
    if rows != [] {
      var n := |rows| - 1;
      CleanIsCanonical(rows[..n]);
      if Keeps(rows[n]) {
        CanonIsCanonical(rows[n]);
      }
    }
  }

  /** An observation turned back into a parsed row. */
  function Unparse(o: Observation): ParsedRow {
    ParsedRow(o.state, o.county, o.fips, Some(o.year), o.indicator, Some(o.value), o.unit)
  }

  function UnparseAll(obs: seq<Observation>): (rows: seq<ParsedRow>)
    ensures |rows| == |obs|
    ensures forall i :: 0 <= i < |obs| ==> rows[i] == Unparse(obs[i])
  {
    seq(|obs|, i requires 0 <= i < |obs| => Unparse(obs[i]))
  }

  lemma CanonOfCanonical(o: Observation)
    requires Canonical(o)
    ensures Canon(Unparse(o)) == o
  {
    StripTrimmed(o.state);
    StripTrimmed(o.county);
    StripTrimmed(o.indicator);
    StripTrimmed(o.unit);
  }

  /** Cleaning an already clean table changes nothing. */
  lemma {:induction false} CleanIdempotent(rows: seq<ParsedRow>)
    ensures Clean(UnparseAll(Clean(rows))) == Clean(rows)
  {
    CleanIsCanonical(rows);
    CleanCanonical(Clean(rows));
  }

  lemma {:induction false} CleanCanonical(obs: seq<Observation>)
    requires forall o :: o in obs ==> Canonical(o)
    ensures Clean(UnparseAll(obs)) == obs
  {
    if obs != [] {
      var n := |obs| - 1;
      var rows := UnparseAll(obs);
      assert rows[..n] == UnparseAll(obs[..n]);
      CleanCanonical(obs[..n]);
      CanonOfCanonical(obs[n]);
      assert Keeps(rows[n]) && Canon(rows[n]) == obs[n];
      assert Clean(rows) == Clean(rows[..n]) + [Canon(rows[n])];
      SplitLast(obs);
    }
  }
}
