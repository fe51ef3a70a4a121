/**
 * The local-resources directory. `load_local_resources_csv` turns an
 * uploaded table with the columns state, county, section, label and url
 * into a map from a `(State, County)` key to the list of
 * `(section, label, url)` entries of that key, in row order.
 * `local_resources` looks a state and county up in that map (the exact
 * key first, then the state-wide key with an empty county) and otherwise
 * falls back to a few built-in lists.
 */
module Resources {
  import opened Text
  import opened Schema

  /** The columns the resources table must have, compared after strip and lower-case. */
  const ResourceColumns: set<string> := {"state", "county", "section", "label", "url"}

  /** One directory entry: `(section, label, url)`. */
  datatype Entry = Entry(section: string, lbl: string, url: string)

  /** A directory key: `(State, County)`. */
  type Key = (string, string)

  /** The loaded directory. */
  type Directory = map<Key, seq<Entry>>

  /** A row of the resources table once its five fields have been cleaned. */
  datatype ResourceRow = ResourceRow(state: string, county: string, section: string, lbl: string, url: string)

  /** The resource columns that the header lacks. */
  function MissingColumns(header: seq<string>): (m: set<string>)
    ensures m <= ResourceColumns
    ensures forall name :: name in ResourceColumns ==> (name in m <==> name !in NormalizeHeader(header))
  {
    var h := NormalizeHeader(header);
    set name | name in ResourceColumns && name !in h
  }

  /** Field `name` of row `i`, trimmed. */
  function Field(t: RawTable, i: int, name: string): string
    requires Rectangular(t) && 0 <= i < |t.rows|
    requires name in NormalizeHeader(t.header)
  {
    Strip(t.rows[i][ColumnIndex(NormalizeHeader(t.header), name)])
  }

  /** Row `i` with every field trimmed and the state and county title-cased. */
  function CleanRow(t: RawTable, i: int): ResourceRow
    requires Rectangular(t) && 0 <= i < |t.rows|
    requires MissingColumns(t.header) == {}
  {
    ResourceRow(Title(Field(t, i, "state")), Title(Field(t, i, "county")),
                Field(t, i, "section"), Field(t, i, "label"), Field(t, i, "url"))
  }

  function CleanRows(t: RawTable): (rows: seq<ResourceRow>)
    requires Rectangular(t) && MissingColumns(t.header) == {}
    ensures |rows| == |t.rows|
    ensures forall i :: 0 <= i < |t.rows| ==> rows[i] == CleanRow(t, i)
  {
    seq(|t.rows|, i requires 0 <= i < |t.rows| => CleanRow(t, i))
  }

  function KeyOf(r: ResourceRow): Key {
    (r.state, r.county)
  }

  function EntryOf(r: ResourceRow): Entry {
    Entry(r.section, r.lbl, r.url)
  }

  /** The `setdefault(key, []).append(entry)` loop, over the rows in order. */
  function Group(rows: seq<ResourceRow>): Directory {
    if rows == [] then map[]
    else
      var n := |rows| - 1;
      var d := Group(rows[..n]);
      var k := KeyOf(rows[n]);
      d[k := (if k in d then d[k] else []) + [EntryOf(rows[n])]]
  }

  /** What `load_local_resources_csv` returns for a table it could read. */
  function LoadedDirectory(t: RawTable): Directory
    requires Rectangular(t)
  {
    if MissingColumns(t.header) != {} then map[] else Group(CleanRows(t))
  }

  /**
   * `load_local_resources_csv` once the file has been read: a missing
   * column gives the empty directory, otherwise the cleaned rows are
   * grouped one by one.
   */
  method LoadLocalResources(t: RawTable) returns (d: Directory)
    requires Rectangular(t)
    ensures d == LoadedDirectory(t)
    ensures MissingColumns(t.header) != {} ==> d == map[]
  {
    if MissingColumns(t.header) != {} {
      return map[];
    }
    d := GroupRows(CleanRows(t));
  }

  /** The `setdefault(key, []).append(entry)` loop. */
  method GroupRows(rows: seq<ResourceRow>) returns (d: Directory)
    ensures d == Group(rows)
  {
    d := map[];
    var i := 0;
    while i < |rows|
      invariant 0 <= i <= |rows|
      invariant d == Group(rows[..i])
    {
      var r := rows[i];
      var key := (r.state, r.county);
      var list := if key in d then d[key] else [];
      GroupStep(rows, i);
      d := d[key := list + [Entry(r.section, r.lbl, r.url)]];
      i := i + 1;
    }
    assert rows[..i] == rows;
  }

  /** Grouping one more row files its entry at the end of its key's list. */
  lemma GroupStep(rows: seq<ResourceRow>, i: int)
    requires 0 <= i < |rows|
    ensures var d := Group(rows[..i]);
            var k := KeyOf(rows[i]);
            Group(rows[..i + 1]) == d[k := (if k in d then d[k] else []) + [EntryOf(rows[i])]]
  {
    assert rows[..i + 1][..i] == rows[..i];
  }

  // ---------------------------------------------------------------------
  // What the grouping keeps

  /** The entries of the rows keyed `k`, in row order: the reference definition. */
  function EntriesFor(rows: seq<ResourceRow>, k: Key): seq<Entry> {
    if rows == [] then []
    else
      var n := |rows| - 1;
      EntriesFor(rows[..n], k) + (if KeyOf(rows[n]) == k then [EntryOf(rows[n])] else [])
  }

  /**
   * The directory has a key exactly when some row carries it, and each key
   * lists the entries of exactly the rows carrying it, in row order; no
   * list is empty.
   */
  lemma {:induction false} GroupSpec(rows: seq<ResourceRow>)
    ensures forall k :: k in Group(rows) <==> exists i :: 0 <= i < |rows| && KeyOf(rows[i]) == k
    ensures forall k :: k in Group(rows) ==> Group(rows)[k] == EntriesFor(rows, k)
    ensures forall k :: k in Group(rows) ==> Group(rows)[k] != []
  {
    if rows != [] {
      var n := |rows| - 1;
      var front := rows[..n];
      GroupSpec(front);
      forall k
        ensures k in Group(rows) <==> exists i :: 0 <= i < |rows| && KeyOf(rows[i]) == k
      {
        if exists i :: 0 <= i < |rows| && KeyOf(rows[i]) == k {
          var i :| 0 <= i < |rows| && KeyOf(rows[i]) == k;
          if i < n {
            assert KeyOf(front[i]) == k;
          }
        }
        if k in Group(front) {
          var i :| 0 <= i < |front| && KeyOf(front[i]) == k;
          assert KeyOf(rows[i]) == k;
        }
      }
      forall k | k in Group(rows)
        ensures Group(rows)[k] == EntriesFor(rows, k)
      {
        if k != KeyOf(rows[n]) {
          assert k in Group(front);
        } else if k !in Group(front) {
          EntriesForAbsent(front, k);
        }
      }
    }
  }

  /** A key no row carries has no entries. */
  lemma {:induction false} EntriesForAbsent(rows: seq<ResourceRow>, k: Key)
    requires forall i :: 0 <= i < |rows| ==> KeyOf(rows[i]) != k
    ensures EntriesFor(rows, k) == []
  {
    if rows != [] {
      var n := |rows| - 1;
      assert forall i :: 0 <= i < n ==> rows[..n][i] == rows[i];
      EntriesForAbsent(rows[..n], k);
    }
  }

  /** Every key of a loaded directory is already title-cased. */
  lemma LoadedKeysTitleCased(t: RawTable)
    requires Rectangular(t)
    ensures forall k :: k in LoadedDirectory(t) ==> TitleCased(k.0) && TitleCased(k.1)
  {
    if MissingColumns(t.header) == {} {
      var rows := CleanRows(t);
      GroupSpec(rows);
      forall k | k in LoadedDirectory(t)
        ensures TitleCased(k.0) && TitleCased(k.1)
      {
        var i :| 0 <= i < |rows| && KeyOf(rows[i]) == k;
        TitleIdempotent(Field(t, i, "state"));
        TitleIdempotent(Field(t, i, "county"));
      }
    }
  }

  // ---------------------------------------------------------------------
  // Looking a county up

  const CookCounty: seq<Entry> := [
    Entry("Food Access", "Greater Chicago Food Depository", "https://www.chicagosfoodbank.org/find-food/"),
    Entry("Housing", "Chicago Housing Authority", "https://www.thecha.org"),
    Entry("Healthcare", "Cook County Health Clinics", "https://cookcountyhealth.org/locations/"),
    Entry("Mental Health", "NAMI Chicago Helpline", "https://www.namichicago.org/help")
  ]

  const LakeCounty: seq<Entry> := [
    Entry("Healthcare", "Lake County Health Department", "https://lakecountyil.gov/2318/Health-Department"),
    Entry("Food Access", "Northern Illinois Food Bank", "https://solvehungertoday.org/get-help/")
  ]

  const WillCounty: seq<Entry> := [
    Entry("Housing", "Will County Center for Community Concerns", "https://wcccc.net/"),
    Entry("Food Access", "Northern Illinois Food Bank \U{2014} Will County", "https://solvehungertoday.org/get-help/")
  ]

  const National: seq<Entry> := [
    Entry("National", "FindHelp.org \U{2014} National Directory", "https://www.findhelp.org/"),
    Entry("National", "211.org \U{2014} Community Resources", "https://211.org")
  ]

  /** The entries the uploaded directory gives: the exact key, else the state-wide key. */
  function Uploaded(d: Directory, state: string, county: string): (r: seq<Entry>)
    ensures (Title(state), Title(county)) in d ==> r == d[(Title(state), Title(county))]
    ensures (Title(state), Title(county)) !in d && (Title(state), "") in d ==> r == d[(Title(state), "")]
    ensures (Title(state), Title(county)) !in d && (Title(state), "") !in d ==> r == []
  {
    if |d| == 0 then []
    else
      var exact := (Title(state), Title(county));
      var stateWide := (Title(state), "");
      if exact in d then d[exact]
      else if stateWide in d then d[stateWide]
      else []
  }

  /** The built-in lists, as written: an Illinois county other than Cook, Lake or Will gets none. */
  function BuiltIn(state: string, county: string): (r: seq<Entry>)
    ensures Lower(state) != "illinois" ==> r == National
    ensures Lower(state) == "illinois" && Lower(county) == "cook" ==> r == CookCounty
    ensures Lower(state) == "illinois" && Lower(county) == "lake" ==> r == LakeCounty
    ensures Lower(state) == "illinois" && Lower(county) == "will" ==> r == WillCounty
    ensures r == [] <==> Lower(state) == "illinois" && !KnownIllinoisCounty(county)
  {
    if Lower(state) == "illinois" then
      if Lower(county) == "cook" then CookCounty
      else if Lower(county) == "lake" then LakeCounty
      else if Lower(county) == "will" then WillCounty
      else []
    else National
  }

  /** `local_resources` as written. */
  function LocalResources(d: Directory, state: string, county: string): (r: seq<Entry>)
    ensures Uploaded(d, state, county) != [] ==> r == Uploaded(d, state, county)
    ensures Uploaded(d, state, county) == [] ==> r == BuiltIn(state, county)
  {
    var results := Uploaded(d, state, county);
    if results != [] then results else BuiltIn(state, county)
  }

  predicate KnownIllinoisCounty(county: string) {
    Lower(county) == "cook" || Lower(county) == "lake" || Lower(county) == "will"
  }

  /**
   * `local_resources` as written comes back empty exactly for an Illinois
   * county other than Cook, Lake or Will that the uploaded directory does
   * not cover.
   */
  lemma LocalResourcesEmpty(d: Directory, state: string, county: string)
    ensures LocalResources(d, state, county) == [] <==>
              Uploaded(d, state, county) == [] && Lower(state) == "illinois" && !KnownIllinoisCounty(county)
  {
  }

  /** DuPage County, Illinois, with no upload: `local_resources` lists nothing. */
  lemma IllinoisCountyGap()
    ensures LocalResources(map[], "illinois", "dupage") == []
  {
    assert Lower("illinois") == "illinois";
    assert Lower("dupage") != "cook" && Lower("dupage") != "lake" && Lower("dupage") != "will";
  }

  /** The built-in lists with the national directory for every county not listed. */
  function BuiltInWithFallback(state: string, county: string): (r: seq<Entry>)
    ensures r != []
    ensures !(Lower(state) == "illinois" && !KnownIllinoisCounty(county)) ==> r == BuiltIn(state, county)
    ensures Lower(state) == "illinois" && !KnownIllinoisCounty(county) ==> r == National
  {
    if Lower(state) == "illinois" then
      if Lower(county) == "cook" then CookCounty
      else if Lower(county) == "lake" then LakeCounty
      else if Lower(county) == "will" then WillCounty
      else National
    else National
  }

  /** `local_resources` with the fallback: uploaded entries first, then the built-in lists. */
  function LocalResourcesWithFallback(d: Directory, state: string, county: string): (r: seq<Entry>)
    ensures r != []
    ensures Uploaded(d, state, county) != [] ==> r == Uploaded(d, state, county)
    ensures Uploaded(d, state, county) == [] ==> r == BuiltInWithFallback(state, county)
  {
    var results := Uploaded(d, state, county);
    if results != [] then results else BuiltInWithFallback(state, county)
  }

  /**
   * With the fallback every lookup lists something, and it agrees with
   * `local_resources` as written wherever that lists something.
   */
  lemma WithFallbackNeverEmpty(d: Directory, state: string, county: string)
    ensures LocalResourcesWithFallback(d, state, county) != []
    ensures LocalResources(d, state, county) != [] ==>
              LocalResourcesWithFallback(d, state, county) == LocalResources(d, state, county)
  {
  }

  /**
   * A state and county that some grouped row carries (the rows of an
   * uploaded table are grouped after trimming and title-casing, see
   * `LoadedDirectory`) are looked up in the directory: the lookup returns
   * exactly the entries of the rows for that key, in row order.
   */
  lemma LookupFindsUploadedRows(rows: seq<ResourceRow>, i: nat, state: string, county: string)
    requires i < |rows| && KeyOf(rows[i]) == (Title(state), Title(county))
    ensures LocalResourcesWithFallback(Group(rows), state, county)
              == EntriesFor(rows, (Title(state), Title(county)))
    ensures LocalResources(Group(rows), state, county)
              == EntriesFor(rows, (Title(state), Title(county)))
  {
    GroupHas(rows, i);
    UploadedWins(Group(rows), state, county);
  }

  /** Non-empty uploaded entries are what both lookups return. */
  lemma UploadedWins(d: Directory, state: string, county: string)
    requires (Title(state), Title(county)) in d && d[(Title(state), Title(county))] != []
    ensures LocalResources(d, state, county) == d[(Title(state), Title(county))]
    ensures LocalResourcesWithFallback(d, state, county) == d[(Title(state), Title(county))]
  {
  }

  /** The key of a grouped row is in the directory, with that key's entries. */
  lemma GroupHas(rows: seq<ResourceRow>, i: nat)
    requires i < |rows|
    ensures KeyOf(rows[i]) in Group(rows)
    ensures Group(rows)[KeyOf(rows[i])] == EntriesFor(rows, KeyOf(rows[i])) != []
  {
    GroupSpec(rows);
  }
}
