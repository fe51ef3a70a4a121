# VitalView data-shaping core, in Dafny

VitalView is a Streamlit dashboard for community-health grant writers. A user
uploads a long table of county health indicators. The dashboard then:

- normalises the table (`enforce_schema`);
- pivots it to one row per county and one column per indicator
  (`derive_pivot`);
- z-scores each indicator column (`zscore`);
- ranks counties by an equity-weighted score (`compute_priority_df`) and
  averages that score per state for the map;
- guards CSV exports against formula injection (`safe_csv_bytes`);
- polishes grant drafts with three small text helpers (`_summarize_lines`,
  `_to_bullets`, `_sectionize`);
- looks up local programmes for a state and county, either in an uploaded
  resources table (`load_local_resources_csv`) or in built-in lists
  (`local_resources`).

This project models those operations and proves what they promise. There is
one module per concern:

| module | file | models |
|---|---|---|
| `Basics` | basics.dfy | `Option`, `Result`, two sequence-splitting facts |
| `Text` | text.dfy | Python `str.strip`, `lower`, `title`, `startswith`, `endswith`, `in`, `splitlines`, `join`, string order |
| `Ordering` | ordering.dfy | the sorted, duplicate-free key lists that `pivot_table` and `groupby` produce |
| `Schema` | schema.dfy | `enforce_schema` |
| `Stats` | stats.dfy | sums, means and the `zscore` rule |
| `Pivot` | pivot.dfy | `derive_pivot` |
| `Priority` | priority.dfy | `compute_priority_df` and the per-state mean of `E_Score` |
| `Export` | export.dfy | `esc`, `df.applymap(esc)` and the header line `to_csv` writes in `safe_csv_bytes` |
| `Narrative` | narrative.dfy | `_summarize_lines`, `_to_bullets`, `_sectionize` |
| `Resources` | resources.dfy | `load_local_resources_csv` and the last `local_resources` |

The loops of the source are methods with loop invariants:

- `Schema.CleanParsed` is the row filter of `enforce_schema`.
- `Priority.ComputePriority` is the weight loop and sort.
- `Narrative.ToBullets` and `Narrative.Sectionize` are the line loops.
- `Resources.GroupRows` is the `setdefault(...).append(...)` loop.

Each method is proved equal to a specification function, and the lemmas
state what that function means.

## Model

| member | source | states |
|---|---|---|
| `Schema.NormalizeHeader` | app_vitalview.py:781 | each header name becomes its stripped, lower-cased form, position by position |
| `Schema.Missing` | app_vitalview.py:779-784 | the missing set holds exactly the required columns that no normalised header equals |
| `Schema.EnforceSchema` | app_vitalview.py:778-791 | the result is an error exactly when some required column is missing, and the error carries the missing set; otherwise it is the parsed, filtered, canonicalised rows |
| `Schema.CleanParsed` | app_vitalview.py:785-790 | the row loop equals `Clean`: rows whose year and value both parse are kept, in order, canonicalised |
| `Schema.KeptIndices` | app_vitalview.py:787 | the kept row positions are strictly increasing, each keeps, and every row that keeps is among them |
| `Schema.CleanKeepsOrder` | app_vitalview.py:787-790 | the k-th cleaned row is the canonical form of the k-th kept input row, so `dropna` keeps order and drops only unparsable rows |
| `Schema.CanonIsCanonical` | app_vitalview.py:788-790 | a canonicalised row has trimmed, title-cased state and county and trimmed indicator and unit |
| `Schema.CleanIsCanonical` | app_vitalview.py:787-790 | every row `enforce_schema` returns is canonical |
| `Schema.CanonOfCanonical` | app_vitalview.py:788-790 | canonicalising an already canonical row changes nothing |
| `Schema.CleanIdempotent` | app_vitalview.py:778-791 | normalising a normalised table again returns it unchanged |
| `Schema.CleanCanonical` | app_vitalview.py:778-791 | a table of canonical observations passes through the cleaning unchanged |
| `Stats.SumBounds` | app_vitalview.py:850 | a sum of n values in [lo, hi] lies in [n*lo, n*hi] |
| `Stats.MeanBounds` | app_vitalview.py:850 | a mean lies between any lower and upper bound of its values |
| `Stats.MeanConstant` | app_vitalview.py:844-845 | the mean of a constant column is that constant |
| `Stats.SumPermutation` | app_vitalview.py:1020-1024 | a sum does not depend on the order of its values |
| `Stats.MeanPermutation` | app_vitalview.py:1020-1024 | a mean does not depend on the order of its values |
| `Stats.Divisor` | app_vitalview.py:844 | the divisor is the standard deviation when that is positive and 1.0 when it is zero, so it is always positive |
| `Stats.ZScore` | app_vitalview.py:842-845 | each z-score is the value minus the column mean, divided by the population standard deviation (a parameter) or by 1.0 when that is zero |
| `Stats.ZScoreSumZero` | app_vitalview.py:842-845 | the z-scores of a column sum to zero |
| `Stats.ZScoreConstant` | app_vitalview.py:844-845 | a constant column has all-zero z-scores, whatever its standard deviation |
| `Stats.ZScoreMonotone` | app_vitalview.py:845 | z-scoring keeps the order of values within a column |
| `Ordering.SortedDistinct` | app_vitalview.py:849 | the key list is strictly sorted and holds exactly the input's keys |
| `Ordering.SortedUnique` | app_vitalview.py:849 | two strictly sorted lists with the same elements are equal, so the pivot's key order is determined |
| `Ordering.StrLessIsStrictTotalOrder` | app_vitalview.py:849 | Python's string order is irreflexive, transitive and total |
| `Pivot.KeyLessIsStrictTotalOrder` | app_vitalview.py:848 | the (state, county, fips) row-index order is a strict total order |
| `Pivot.DerivePivot` | app_vitalview.py:847-850 | an empty input gives an empty table; row keys and columns are strictly sorted and are exactly the observed entities and indicators; each cell is the mean of the matching values, or empty when there are none |
| `Pivot.ValuesForNonEmpty` | app_vitalview.py:849-850 | an entity and indicator have values exactly when some observation has both |
| `Pivot.PivotCell` | app_vitalview.py:849-850 | a cell is filled exactly when some observation matches it, and its mean lies within the bounds of the matching values |
| `Pivot.PivotRowsFilled` | app_vitalview.py:849-850 | every pivot row has at least one filled cell |
| `Pivot.PivotColumnsFilled` | app_vitalview.py:849-850 | every pivot column has at least one filled cell |
| `Priority.FirstMatch` | app_vitalview.py:949 | the chosen column is the first whose lower-cased name starts with the lower-cased label; none is chosen only when no column matches |
| `Priority.InsertByScore` | app_vitalview.py:953 | inserting into a descending list keeps it descending and adds exactly the one row |
| `Priority.SortDescending` | app_vitalview.py:953 | the sorted rows are in descending `E_Score` order and are a permutation of the input |
| `Priority.ComputePriority` | app_vitalview.py:944-953 | an empty table gives no rows; otherwise the output is a permutation of the scored entities in descending score order, and every row records the used columns |
| `Priority.MatchesEmpty` | app_vitalview.py:947-952 | no column is used exactly when no weight label matches any column |
| `Priority.NoMatchScoresZero` | app_vitalview.py:947-952 | when no label matches, every row scores 0 and records "(none)" |
| `Priority.EScoreIsSum` | app_vitalview.py:948-951 | an entity's score is the sum of its per-weight contributions, where an unmatched weight contributes 0 |
| `Priority.ContributionsPermutation` | app_vitalview.py:948-951 | permuting the weights permutes the contributions |
| `Priority.WeightOrderIrrelevant` | app_vitalview.py:948-951 | the score does not depend on the order of the weight map |
| `Priority.UnmatchedWeightIgnored` | app_vitalview.py:949-950 | adding a weight whose label matches no column leaves every score unchanged |
| `Priority.MatchesNonNegative` | app_vitalview.py:948-951 | non-negative weights give non-negative terms |
| `Priority.ScoreDominates` | app_vitalview.py:951 | with non-negative terms, a row that is at least as high in every column scores at least as high |
| `Priority.DominantEntityScoresHigher` | app_vitalview.py:944-953 | with non-negative weights, an entity whose z-values are all at least another's has at least its score |
| `Priority.ScoresOfNonEmpty` | app_vitalview.py:1020-1022 | a state has scores exactly when some row belongs to it |
| `Priority.StateMeans` | app_vitalview.py:1020-1024 | the per-state rows are strictly sorted by state, cover exactly the states that occur, and each holds the mean score of that state's rows |
| `Priority.StateMeanBounds` | app_vitalview.py:1021-1022 | a state's mean lies within any bounds of the row scores |
| `Priority.ScoresOfPermutation` | app_vitalview.py:1020-1022 | permuting the rows permutes each state's scores |
| `Priority.StateMeansPermutation` | app_vitalview.py:1020-1024 | the per-state means do not depend on row order |
| `Priority.PriorityStateMeans` | app_vitalview.py:953 | the map's per-state means are the same whatever order the ranking returns tied rows in, and list exactly the states of the scored entities |
| `Export.Esc` | app_vitalview.py:837-839 | an escaped cell never reads as a formula, and a safe cell is left unchanged |
| `Export.EscPrefix` | app_vitalview.py:838 | a dangerous text cell gets exactly a `'` in front; text stays text; a text cell's own characters are kept at the end |
| `Export.EscIdempotent` | app_vitalview.py:837-839 | escaping twice is escaping once |
| `Export.EscRoundTrip` | app_vitalview.py:837-839 | removing the quote recovers the cell exactly when the cell did not already read as a quote plus a trigger character |
| `Export.EscMergesQuoted` | app_vitalview.py:838 | "=1" and "'=1" export alike, so escaping is not one-to-one |
| `Export.EscTable` | app_vitalview.py:840 | the table keeps its shape and every cell is escaped |
| `Export.ExportedTableSafe` | app_vitalview.py:836-840 | no data cell of an exported table reads as a formula |
| `Export.HeaderCells` | app_vitalview.py:840 | the first CSV line holds the column names as text cells, in order |
| `Export.CsvCells` | app_vitalview.py:840 | `to_csv` writes the header line first, then the data rows unchanged |
| `Export.SafeCsv` | app_vitalview.py:836-840 | as written: the header line is the column names unescaped, the data lines are `applymap(esc)` of the rows, and so no data cell reads as a formula |
| `Export.HeaderFormulaSurvives` | app_vitalview.py:836-840 | as written: a column name starting with `=`, `+`, `-` or `@` reaches the file as a formula |
| `Export.HeaderFormulaExample` | app_vitalview.py:840 | as written: an indicator named `=1+1` is exported as a formula |
| `Export.SafeCsvWithHeader` | app_vitalview.py:836-840 | corrected: the data rows are those of `safe_csv_bytes`, and each column name is escaped with `esc` |
| `Export.SafeCsvWithHeaderSafe` | app_vitalview.py:836-840 | corrected: no cell of the file, header included, reads as a formula |
| `Text.Strip` | app_vitalview.py:1243 | the result has no leading or trailing whitespace and is no longer than the input |
| `Text.StripSpec` | app_vitalview.py:1243 | the result is a contiguous slice of the input, everything before and after it is whitespace, and it neither starts nor ends with whitespace |
| `Text.LStripSpec` | app_vitalview.py:1243 | the left strip is a suffix of the input, everything removed is whitespace, and it starts with non-whitespace |
| `Text.RStripSpec` | app_vitalview.py:1244 | the right strip is a prefix of the input, everything removed is whitespace, and it ends with non-whitespace |
| `Text.StripTrimmed` | app_vitalview.py:788 | stripping a trimmed string changes nothing |
| `Text.StripIdempotent` | app_vitalview.py:788 | stripping twice is stripping once |
| `Text.Lower` | app_vitalview.py:781 | lower-casing maps each character and keeps the length |
| `Text.TitleAt` | app_vitalview.py:790 | title case upper-cases a letter that starts a run of letters and lower-cases the others |
| `Text.TitleKeepsClasses` | app_vitalview.py:790 | title case keeps letters as letters and leaves other characters unchanged |
| `Text.TitleIdempotent` | app_vitalview.py:790 | title-casing twice is title-casing once |
| `Text.TitleTrimmed` | app_vitalview.py:789-790 | title-casing a trimmed string keeps it trimmed |
| `Text.SplitLines` | app_vitalview.py:1243 | no line contains a line-break character |
| `Text.JoinNoBreak` | app_vitalview.py:1243 | joining break-free strings with a break-free separator gives a single line |
| `Text.SplitLinesJoin` | app_vitalview.py:1256 | splitting a newline-join of non-empty, break-free lines gives the lines back |
| `Text.JoinSplitLines` | app_vitalview.py:1256 | joining the lines of a text whose only breaks are `\n`, and which does not end in one, gives the text back |
| `Text.StrLessTotal` | app_vitalview.py:849 | any two different strings are ordered one way or the other |
| `Narrative.FlattenOneLine` | app_vitalview.py:1243 | the flattened text is a single line |
| `Narrative.SummarizeLines` | app_vitalview.py:1241-1244 | empty text gives ""; text that fits is flattened; otherwise the result is the first `max_chars` characters of the flattened text with the trailing whitespace removed (a prefix that does not end in whitespace, and only whitespace after it up to `max_chars`), followed by the ellipsis |
| `Narrative.SummaryOneLine` | app_vitalview.py:1241-1244 | a summary is a single line |
| `Narrative.Bullet` | app_vitalview.py:1250-1252 | a line ending in `:` becomes `- **` + the line without the colon + `**`; a line starting with `- ` is kept; any other line gets `- ` in front; so every entry starts with `- `, and a single line stays a single line |
| `Narrative.ToBulletsIsTruncation` | app_vitalview.py:1246-1256 | the list is the bullets of the non-blank lines, cut after `max_lines` of them (at least one) with the ellipsis |
| `Narrative.BulletListShape` | app_vitalview.py:1246-1256 | the list has at most `max_lines` + 1 entries; each is a bullet or a final ellipsis; when nothing is cut there is one bullet per non-blank line |
| `Narrative.BulletsReadBack` | app_vitalview.py:1256 | splitting the joined bullet text gives back exactly the entries |
| `Narrative.ToBullets` | app_vitalview.py:1246-1256 | the line loop, with its early `break`, returns the newline-join of `BulletLoop`, whose meaning `ToBulletsIsTruncation` states |
| `Narrative.Put` | app_vitalview.py:1264 | assigning a key keeps the keys distinct, appends a new key last, keeps an existing key's place, and changes no other entry |
| `Narrative.ScanAllMatches` | app_vitalview.py:1259-1267 | for the lines scanned so far, the keys are exactly the stripped heading lines seen, `current` is the last heading line, and each section holds the lines under its key's last heading up to the next heading |
| `Narrative.SectionizeSpec` | app_vitalview.py:1258-1268 | there is one section per distinct stripped heading line, holding the stripped text of the lines under its last occurrence up to the next heading |
| `Narrative.NoHeadingNoSections` | app_vitalview.py:1259-1268 | a text with no heading line has no sections |
| `Narrative.SectionsNeedHeadings` | app_vitalview.py:1260-1266 | a section exists only if the text has a heading line |
| `Narrative.Sectionize` | app_vitalview.py:1258-1268 | the line loop, with its `continue` after a heading, returns the finalised sections of `ScanAll`, whose meaning `SectionizeSpec` states |
| `Resources.MissingColumns` | app_vitalview.py:702-706 | the missing set holds exactly the five resource columns that no normalised header equals |
| `Resources.CleanRows` | app_vitalview.py:708-714 | one cleaned row per input row, with every field stripped and state and county title-cased |
| `Resources.LoadLocalResources` | app_vitalview.py:701-722 | a table missing a column gives the empty directory; otherwise the rows are grouped by (State, County) |
| `Resources.GroupRows` | app_vitalview.py:716-720 | the grouping loop builds exactly `Group` of the rows |
| `Resources.GroupSpec` | app_vitalview.py:716-722 | a key is in the directory exactly when some row has it; its list holds that key's entries in row order, and it is never empty |
| `Resources.EntriesForAbsent` | app_vitalview.py:718-719 | a key no row has gets no entries |
| `Resources.LoadedKeysTitleCased` | app_vitalview.py:712-714 | every directory key has a title-cased state and county |
| `Resources.Uploaded` | app_vitalview.py:1375-1381 | the exact key's list if present, else the state-wide key's list, else nothing |
| `Resources.BuiltIn` | app_vitalview.py:1384-1407 | as written: Cook, Lake and Will counties of Illinois get their own lists; every state other than Illinois gets the national list; the list is empty exactly for an Illinois county other than Cook, Lake or Will |
| `Resources.LocalResources` | app_vitalview.py:1368-1410 | as written: non-empty uploaded entries are returned; otherwise the built-in list |
| `Resources.LocalResourcesEmpty` | app_vitalview.py:1368-1410 | the lookup is empty exactly when the upload has nothing and the state is Illinois with a county other than Cook, Lake or Will |
| `Resources.IllinoisCountyGap` | app_vitalview.py:1384-1402 | DuPage County, Illinois, with no upload, gets an empty list |
| `Resources.BuiltInWithFallback` | app_vitalview.py:1384-1407 | never empty; agrees with the built-in lists except for an unlisted Illinois county, which gets the national directory |
| `Resources.LocalResourcesWithFallback` | app_vitalview.py:1368-1410 | corrected: never empty; non-empty uploaded entries are returned, otherwise the built-in list with the national fallback |
| `Resources.WithFallbackNeverEmpty` | app_vitalview.py:1368-1410 | the corrected lookup is never empty, and it agrees with the lookup as written wherever that is non-empty |
| `Resources.LookupFindsUploadedRows` | app_vitalview.py:1375-1381 | for a state and county that some uploaded row carries after title-casing, both lookups in the grouped directory return exactly that key's entries, in row order |
| `Resources.UploadedWins` | app_vitalview.py:1379-1385 | when the uploaded directory lists entries for the exact key, both lookups return them and the built-in lists are not consulted |

## Left out

- Reading files, Streamlit widgets, warnings and `st.stop`, the database, payments, PDF and Word export, URL building, session state and sample data are not part of this model.
- `enforce_schema` stops the page with `st.error` when columns are missing. The model returns `Err(missing)` instead.
- `pd.to_numeric(..., errors="coerce")` is a parameter `parse`. Which strings pandas accepts as numbers is not modelled.
- Numbers are exact reals. Floating-point rounding, NaN and infinities are not modelled, so `std(ddof=0)` of NaN is not covered.
- Stats.ZScore: the population standard deviation is a parameter, because Dafny's reals have no square root. The model proves the `or 1.0` rule and what follows from the mean.
- Case mapping (`lower`, `title`) is modelled for ASCII letters only. Python maps all of Unicode.
- Duplicate header names are not modelled: the model reads the first column with a given name. `enforce_schema` keeps extra columns; the model keeps only the seven required ones.
- `astype(str)` turns an empty cell into the text "nan". The model has text cells only, so that case is not covered.
- Priority.SortDescending: `sort_values` is not stable, so the order of rows with equal scores is left open. The model proves sorted order and permutation only.
- Priority.ComputePriority: when no label matches, pandas assigns the scalar 0 to the whole `E_Score` column. The model gives each row 0.0, which is the same table.
- Weight labels are taken in the weight map's order. The map's key uniqueness is not assumed, so the model covers more inputs than the source.
- The pivot's row key is (state, county, fips) with fips as text. In pandas, an empty fips cell is NaN and `pivot_table` drops that row, so it leaves the pivot and the ranking; the model keeps every observation. A numeric fips column would also sort as numbers, not as text.
- Narrative.SectionizeSpec: does not state the order of the section keys. Python's dict keeps the order in which each heading first appears; `Put` keeps that order (a new key goes last, an existing one keeps its place), but no lemma states the resulting order in terms of the text.
- How scaling all weights by a constant rescales the score is not stated.
- Narrative.SummarizeLines: a negative `max_chars` is not modelled, because Python slicing counts it from the end.
- `None` arguments (`text or ""`, `file is None`, `df is None`) are the caller's concern. The model takes a string or table.
- `load_local_resources_csv` reading the CSV twice, once with a BOM encoding, is I/O and is not modelled.
- Earlier definitions of `local_resources` (app_vitalview.py:613, 629, 793) are shadowed by the one at line 1368 and are not modelled. The unreachable code after the `return` at lines 651-658 (lines 659-679) is not modelled either.
- `UPLOADED_RESOURCES` being undefined is modelled as an empty directory.

## Findings

| source | as written | input that shows it | evidently intended | confidence | as-written member | corrected member |
|---|---|---|---|---|---|---|
| app_vitalview.py:1384-1402 | an Illinois county other than Cook, Lake or Will with no uploaded entry gets an empty list, because the national list sits only in the non-Illinois branch | state "illinois", county "dupage", no uploaded directory | fall back to the national directory, as the earlier definition at line 793 does for every unlisted county | not executed | `Resources.IllinoisCountyGap` | `Resources.WithFallbackNeverEmpty` |
| app_vitalview.py:836-840 | `applymap(esc)` escapes only the data cells; `to_csv` writes the column names unescaped, and the priority export (line 978) names columns after the uploaded indicators (lines 849-850) | an indicator named "=1+1" in the uploaded table | escape the header line as well, so that no cell of the file reads as a formula | not executed | `Export.HeaderFormulaSurvives` | `Export.SafeCsvWithHeaderSafe` |
