/**
 * The equity-weighted priority scorer (`compute_priority_df`) and the
 * per-state averages drawn on the map.
 *
 * The scorer takes the pivot after z-scoring: one row per entity, one real
 * per indicator column. For each weight label, in the order of the weight
 * map, it takes the first column whose lower-cased name starts with the
 * lower-cased label, adds `w * z[col]` to every entity's `E_Score` and
 * records the column in `__used__`; the rows then come out by `E_Score`,
 * highest first.
 */
module Priority {
  import opened Basics
  import opened Text
  import opened Ordering
  import opened Stats
  import opened Pivot

  /** The z-scored wide table: `z[i][j]` is entity `keys[i]`'s z-value for `columns[j]`. */
  datatype ZTable = ZTable(keys: seq<EntityKey>, columns: seq<string>, z: seq<seq<real>>)

  /** One entry of the weight map, which keeps its insertion order. */
  datatype Weight = Weight(lbl: string, w: real)

  /** An output row: the entity, its z-values, `E_Score` and `__used__`. */
  datatype RankedRow = RankedRow(key: EntityKey, z: seq<real>, score: real, used: string)

  /** A data frame is rectangular. */
  predicate WellFormed(t: ZTable) {
    |t.z| == |t.keys| && forall i :: 0 <= i < |t.z| ==> |t.z[i]| == |t.columns|
  }

  /** `DataFrame.empty`: no rows or no columns. */
  predicate IsEmpty(t: ZTable) {
    |t.keys| == 0 || |t.columns| == 0
  }

  /** `c.lower().startswith(lbl.lower())`. */
  predicate LabelMatches(column: string, lbl: string) {
    StartsWith(Lower(column), Lower(lbl))
  }

  /** The first column, in column order, that `lbl` matches. */
  function FirstMatch(columns: seq<string>, lbl: string): (r: Option<nat>)
    ensures r.Some? ==> r.value < |columns| && LabelMatches(columns[r.value], lbl)
    ensures r.Some? ==> forall j :: 0 <= j < r.value ==> !LabelMatches(columns[j], lbl)
    ensures r.None? ==> forall j :: 0 <= j < |columns| ==> !LabelMatches(columns[j], lbl)
  {
    if columns == [] then None
    else if LabelMatches(columns[0], lbl) then Some(0)
    else match FirstMatch(columns[1..], lbl)
      case None => None
      case Some(j) => Some(j + 1)
  }

  /** One matched lbl: its weight and the column it selected. */
  datatype Term = Term(w: real, col: nat)

  /** The matched labels in weight-map order; a lbl without a match adds no term. */
  function Matches(columns: seq<string>, weights: seq<Weight>): (ms: seq<Term>)
    ensures forall k :: 0 <= k < |ms| ==> ms[k].col < |columns|
  {
    if weights == [] then []
    else
      var n := |weights| - 1;
      Matches(columns, weights[..n]) +
        match FirstMatch(columns, weights[n].lbl)
        case None => []
        case Some(c) => [Term(weights[n].w, c)]
  }

  predicate Fits(row: seq<real>, ms: seq<Term>) {
    forall k :: 0 <= k < |ms| ==> ms[k].col < |row|
  }

  /** `E_Score` of one entity: the weighted sum over the matched terms, 0 when there are none. */
  function Score(row: seq<real>, ms: seq<Term>): real
    requires Fits(row, ms)
  {
    if ms == [] then 0.0
    else
      var n := |ms| - 1;
      Score(row, ms[..n]) + ms[n].w * row[ms[n].col]
  }

  lemma ScoreSnoc(row: seq<real>, ms: seq<Term>, m: Term)
    requires Fits(row, ms) && m.col < |row|
    ensures Fits(row, ms + [m])
    ensures Score(row, ms + [m]) == Score(row, ms) + m.w * row[m.col]
  {
    assert (ms + [m])[..|ms|] == ms;
  }

  /** The names of the matched columns, in weight-map order. */
  function UsedNames(columns: seq<string>, ms: seq<Term>): (names: seq<string>)
    requires forall k :: 0 <= k < |ms| ==> ms[k].col < |columns|
    ensures |names| == |ms|
    ensures forall k :: 0 <= k < |ms| ==> names[k] == columns[ms[k].col]
  {
    seq(|ms|, k requires 0 <= k < |ms| => columns[ms[k].col])
  }

  /** The `__used__` text. */
  function UsedText(names: seq<string>): string {
    if names == [] then "(none)" else Join(", ", names)
  }

  /** Entity `i`'s `E_Score` under `weights`. */
  function EScore(t: ZTable, weights: seq<Weight>, i: int): real
    requires WellFormed(t) && 0 <= i < |t.keys|
  {
    Score(t.z[i], Matches(t.columns, weights))
  }

  /** The scored rows before sorting, in the pivot's row order. */
  function Unranked(t: ZTable, weights: seq<Weight>): (rows: seq<RankedRow>)
    requires WellFormed(t)
    ensures |rows| == |t.keys|
  {
    var used := UsedText(UsedNames(t.columns, Matches(t.columns, weights)));
    seq(|t.keys|, i requires 0 <= i < |t.keys| => RankedRow(t.keys[i], t.z[i], EScore(t, weights, i), used))
  }

  // ---------------------------------------------------------------------
  // Sorting by E_Score, highest first

  predicate Descending(rows: seq<RankedRow>) {
    forall i, j :: 0 <= i < j < |rows| ==> rows[i].score >= rows[j].score
  }

  function InsertByScore(sorted: seq<RankedRow>, x: RankedRow): (r: seq<RankedRow>)
    requires Descending(sorted)
    ensures |r| == |sorted| + 1
    ensures r[0] == x || (sorted != [] && r[0] == sorted[0])
    ensures Descending(r)
    ensures multiset(r) == multiset(sorted) + multiset{x}
  {
    if sorted == [] then [x]
    else if x.score >= sorted[0].score then
      DescendingCons(x, sorted);
      [x] + sorted
    else
      var tail := InsertByScore(sorted[1..], x);
      InsertBehind(sorted, x, tail);
      [sorted[0]] + tail
  }

  /** `x` inserted into the rest of the list goes behind its head. */
  lemma InsertBehind(sorted: seq<RankedRow>, x: RankedRow, tail: seq<RankedRow>)
    requires Descending(sorted) && sorted != [] && x.score < sorted[0].score
    requires Descending(tail) && tail != []
    requires tail[0] == x || (sorted[1..] != [] && tail[0] == sorted[1..][0])
    requires multiset(tail) == multiset(sorted[1..]) + multiset{x}
    ensures Descending([sorted[0]] + tail)
    ensures multiset([sorted[0]] + tail) == multiset(sorted) + multiset{x}
  {
    assert sorted == [sorted[0]] + sorted[1..];
    if tail[0] != x {
      assert sorted[0].score >= sorted[1].score;
    }
    DescendingCons(sorted[0], tail);
  }

  /** A row scoring at least the head of a descending list can go in front of it. */
  lemma DescendingCons(h: RankedRow, tail: seq<RankedRow>)
    requires Descending(tail) && (tail != [] ==> h.score >= tail[0].score)
    ensures Descending([h] + tail)
  {
    var r := [h] + tail;
    forall i, j | 0 <= i < j < |r|
      ensures r[i].score >= r[j].score
    {
      assert r[j] == tail[j - 1];
      if i > 0 {
        assert r[i] == tail[i - 1];
      } else {
        assert tail[0].score >= tail[j - 1].score;
      }
    }
  }

  /**
   * `sort_values("E_Score", ascending=False)`: a permutation of the rows by
   * `E_Score`, never increasing. The sort pandas uses by default is not
   * stable, so nothing is claimed about the order of ties.
   */
  function SortDescending(rows: seq<RankedRow>): (r: seq<RankedRow>)
    ensures Descending(r)
    ensures multiset(r) == multiset(rows)
  {
    if rows == [] then []
    else
      var n := |rows| - 1;
      assert rows == rows[..n] + [rows[n]];
      InsertByScore(SortDescending(rows[..n]), rows[n])
  }

  // ---------------------------------------------------------------------
  // compute_priority_df

  /**
   * `compute_priority_df`: an empty table gives an empty result; otherwise
   * every entity once, with its `E_Score` and the common `__used__` text,
   * ordered by `E_Score`, highest first.
   */
  /** `score` holds every entity's weighted sum over the terms `ms`. */
  predicate ScoresAre(t: ZTable, score: seq<real>, ms: seq<Term>)
    requires WellFormed(t)
  {
    && |score| == |t.keys|
    && (forall i :: 0 <= i < |t.keys| ==> Fits(t.z[i], ms))
    && (forall i :: 0 <= i < |t.keys| ==> score[i] == Score(t.z[i], ms))
  }

  /** `df["E_Score"] += w * df[col]`. */
  function AddTerm(t: ZTable, score: seq<real>, w: real, c: nat): (r: seq<real>)
    requires WellFormed(t) && |score| == |t.keys| && c < |t.columns|
    ensures |r| == |score|
    ensures forall i :: 0 <= i < |r| ==> r[i] == score[i] + w * t.z[i][c]
  {
    seq(|score|, i requires 0 <= i < |score| => score[i] + w * t.z[i][c])
  }

  lemma AddTermStep(t: ZTable, score: seq<real>, ms: seq<Term>, w: real, c: nat)
    requires WellFormed(t) && ScoresAre(t, score, ms) && c < |t.columns|
    ensures ScoresAre(t, AddTerm(t, score, w, c), ms + [Term(w, c)])
  {
    forall i | 0 <= i < |t.keys|
      ensures Fits(t.z[i], ms + [Term(w, c)])
      ensures Score(t.z[i], ms + [Term(w, c)]) == Score(t.z[i], ms) + w * t.z[i][c]
    {
      ScoreSnoc(t.z[i], ms, Term(w, c));
    }
  }

  /** The terms of one more weight: those of the earlier ones, then its match if any. */
  lemma MatchesStep(columns: seq<string>, weights: seq<Weight>, k: int)
    requires 0 <= k < |weights|
    ensures Matches(columns, weights[..k + 1]) ==
      Matches(columns, weights[..k]) +
        match FirstMatch(columns, weights[k].lbl)
        case None => []
        case Some(c) => [Term(weights[k].w, c)]
  {
    assert weights[..k + 1][..k] == weights[..k];
  }

  method ComputePriority(t: ZTable, weights: seq<Weight>) returns (out: seq<RankedRow>)
    requires WellFormed(t)
    ensures IsEmpty(t) ==> out == []
    ensures !IsEmpty(t) ==> multiset(out) == multiset(Unranked(t, weights))
    ensures Descending(out)
    ensures forall r :: r in out ==> r.used == UsedText(UsedNames(t.columns, Matches(t.columns, weights)))
  {
    if |t.keys| == 0 || |t.columns| == 0 {
      return [];
    }
    var score: seq<real> := seq(|t.keys|, i => 0.0);
    var used: seq<string> := [];
    ghost var ms: seq<Term> := [];
    for k := 0 to |weights|
      invariant ms == Matches(t.columns, weights[..k])
      invariant used == UsedNames(t.columns, ms)
      invariant ScoresAre(t, score, ms)
    {
      MatchesStep(t.columns, weights, k);
      var col := FirstMatch(t.columns, weights[k].lbl);
      if col.Some? {
        var w, c := weights[k].w, col.value;
        AddTermStep(t, score, ms, w, c);
        score := AddTerm(t, score, w, c);
        used := used + [t.columns[c]];
        ms := ms + [Term(w, c)];
      }
    }
    assert weights[..|weights|] == weights;
    var text := UsedText(used);
    var rows := seq(|t.keys|, i requires 0 <= i < |t.keys| => RankedRow(t.keys[i], t.z[i], score[i], text));
    assert rows == Unranked(t, weights);
    out := SortDescending(rows);
    assert forall r :: r in out ==> r in multiset(rows);
  }

  // ---------------------------------------------------------------------
  // Properties of the score

  /** No term is added exactly when no weight label matches any column. */
  lemma {:induction false} MatchesEmpty(columns: seq<string>, weights: seq<Weight>)
    ensures Matches(columns, weights) == [] <==>
      forall k, j :: 0 <= k < |weights| && 0 <= j < |columns| ==> !LabelMatches(columns[j], weights[k].lbl)
  {
    if weights != [] {
      var n := |weights| - 1;
      MatchesEmpty(columns, weights[..n]);
      assert forall k :: 0 <= k < n ==> weights[..n][k] == weights[k];
    }
  }

  /**
   * When no weight label matches a column, every entity scores 0 and
   * `__used__` reads "(none)".
   */
  lemma NoMatchScoresZero(t: ZTable, weights: seq<Weight>)
    requires WellFormed(t)
    requires forall k, j :: 0 <= k < |weights| && 0 <= j < |t.columns| ==> !LabelMatches(t.columns[j], weights[k].lbl)
    ensures forall r :: r in Unranked(t, weights) ==> r.score == 0.0 && r.used == "(none)"
  {
    MatchesEmpty(t.columns, weights);
    assert Matches(t.columns, weights) == [];
  }

  /** What one entry of the weight map adds to entity `i`'s `E_Score`. */
  function Contribution(t: ZTable, wt: Weight, i: int): real
    requires WellFormed(t) && 0 <= i < |t.keys|
  {
    match FirstMatch(t.columns, wt.lbl)
    case None => 0.0
    case Some(c) => wt.w * t.z[i][c]
  }

  function Contributions(t: ZTable, weights: seq<Weight>, i: int): (r: seq<real>)
    requires WellFormed(t) && 0 <= i < |t.keys|
    ensures |r| == |weights|
    ensures forall k :: 0 <= k < |r| ==> r[k] == Contribution(t, weights[k], i)
  {
    seq(|weights|, k requires 0 <= k < |weights| => Contribution(t, weights[k], i))
  }

  /** `E_Score` is the sum of what each entry of the weight map contributes. */
  lemma {:induction false} EScoreIsSum(t: ZTable, weights: seq<Weight>, i: int)
    requires WellFormed(t) && 0 <= i < |t.keys|
    ensures EScore(t, weights, i) == Sum(Contributions(t, weights, i))
  {
    if weights != [] {
      var n := |weights| - 1;
      EScoreIsSum(t, weights[..n], i);
      assert Contributions(t, weights, i)[..n] == Contributions(t, weights[..n], i);
      MatchesStep(t.columns, weights, n);
      assert weights[..n + 1] == weights;
      var ms := Matches(t.columns, weights[..n]);
      assert Sum(Contributions(t, weights, i)) ==
        Sum(Contributions(t, weights[..n], i)) + Contribution(t, weights[n], i);
      match FirstMatch(t.columns, weights[n].lbl)
      case None =>
        assert Matches(t.columns, weights) == ms;
      case Some(c) =>
        ScoreSnoc(t.z[i], ms, Term(weights[n].w, c));
    }
  }

  lemma ContributionsAppend(t: ZTable, a: seq<Weight>, b: seq<Weight>, i: int)
    requires WellFormed(t) && 0 <= i < |t.keys|
    ensures Contributions(t, a + b, i) == Contributions(t, a, i) + Contributions(t, b, i)
  {
  }

  /** Taking weight `j` out of `ws` takes its contribution out of the multiset. */
  lemma ContributionsDrop(t: ZTable, ws: seq<Weight>, j: int, i: int)
    requires WellFormed(t) && 0 <= i < |t.keys| && 0 <= j < |ws|
    ensures multiset(Contributions(t, ws, i))
         == multiset(Contributions(t, ws[..j] + ws[j + 1..], i)) + multiset{Contribution(t, ws[j], i)}
  {
    var before, after := ws[..j], ws[j + 1..];
    assert ws == before + [ws[j]] + after;
    ContributionsAppend(t, before, [ws[j]], i);
    ContributionsAppend(t, before + [ws[j]], after, i);
    ContributionsAppend(t, before, after, i);
  }

  lemma ContributionsLast(t: ZTable, ws: seq<Weight>, i: int)
    requires WellFormed(t) && 0 <= i < |t.keys| && ws != []
    ensures multiset(Contributions(t, ws, i))
         == multiset(Contributions(t, ws[..|ws| - 1], i)) + multiset{Contribution(t, ws[|ws| - 1], i)}
  {
    var n := |ws| - 1;
    var c := Contributions(t, ws, i);
    SplitLast(c);
    assert c[..n] == Contributions(t, ws[..n], i);
  }

  lemma {:induction false} ContributionsPermutation(t: ZTable, xs: seq<Weight>, ys: seq<Weight>, i: int)
    requires WellFormed(t) && 0 <= i < |t.keys|
    requires multiset(xs) == multiset(ys)
    ensures multiset(Contributions(t, xs, i)) == multiset(Contributions(t, ys, i))
  {
    if xs == [] {
      assert |ys| == |multiset(ys)|;
    } else {
      var n := |xs| - 1;
      var j := PermutationLast(xs, ys);
      var rest := ys[..j] + ys[j + 1..];
      ContributionsPermutation(t, xs[..n], rest, i);
      ContributionsLast(t, xs, i);
      ContributionsDrop(t, ys, j, i);
    }
  }

  /**
   * The order of the weight map does not change any `E_Score` (only the
   * order of the names in `__used__`).
   */
  lemma WeightOrderIrrelevant(t: ZTable, xs: seq<Weight>, ys: seq<Weight>, i: int)
    requires WellFormed(t) && 0 <= i < |t.keys|
    requires multiset(xs) == multiset(ys)
    ensures EScore(t, xs, i) == EScore(t, ys, i)
  {
    EScoreIsSum(t, xs, i);
    EScoreIsSum(t, ys, i);
    ContributionsPermutation(t, xs, ys, i);
    SumPermutation(Contributions(t, xs, i), Contributions(t, ys, i));
  }

  /** A weight whose label matches no column changes no `E_Score`. */
  lemma UnmatchedWeightIgnored(t: ZTable, weights: seq<Weight>, extra: Weight, i: int)
    requires WellFormed(t) && 0 <= i < |t.keys|
    requires forall j :: 0 <= j < |t.columns| ==> !LabelMatches(t.columns[j], extra.lbl)
    ensures EScore(t, weights + [extra], i) == EScore(t, weights, i)
  {
    MatchesStep(t.columns, weights + [extra], |weights|);
    assert (weights + [extra])[..|weights| + 1] == weights + [extra];
    assert (weights + [extra])[..|weights|] == weights;
    assert FirstMatch(t.columns, extra.lbl) == None;
    assert Matches(t.columns, weights + [extra]) == Matches(t.columns, weights);
  }

  lemma {:induction false} MatchesNonNegative(columns: seq<string>, weights: seq<Weight>)
    requires forall k :: 0 <= k < |weights| ==> weights[k].w >= 0.0
    ensures forall k :: 0 <= k < |Matches(columns, weights)| ==> Matches(columns, weights)[k].w >= 0.0
  {
    if weights != [] {
      var n := |weights| - 1;
      assert forall k :: 0 <= k < n ==> weights[..n][k] == weights[k];
      MatchesNonNegative(columns, weights[..n]);
    }
  }

  lemma {:induction false} ScoreDominates(a: seq<real>, b: seq<real>, ms: seq<Term>)
    requires |a| == |b| && Fits(a, ms)
    requires forall k :: 0 <= k < |ms| ==> ms[k].w >= 0.0
    requires forall c :: 0 <= c < |a| ==> a[c] >= b[c]
    ensures Fits(b, ms) && Score(a, ms) >= Score(b, ms)
  {
    if ms != [] {
      var n := |ms| - 1;
      ScoreDominates(a, b, ms[..n]);
      var m := ms[n];
      assert m.w * a[m.col] >= m.w * b[m.col] by {
        assert m.w * (a[m.col] - b[m.col]) >= 0.0;
      }
    }
  }

  /**
   * With weights that are not negative, an entity whose z-value is at least
   * another's in every column scores at least as high.
   */
  lemma DominantEntityScoresHigher(t: ZTable, weights: seq<Weight>, i: int, j: int)
    requires WellFormed(t)
    requires forall k :: 0 <= k < |weights| ==> weights[k].w >= 0.0
    requires 0 <= i < |t.keys| && 0 <= j < |t.keys|
    requires forall c :: 0 <= c < |t.columns| ==> t.z[i][c] >= t.z[j][c]
    ensures EScore(t, weights, i) >= EScore(t, weights, j)
  {
    MatchesNonNegative(t.columns, weights);
    ScoreDominates(t.z[i], t.z[j], Matches(t.columns, weights));
  }

  // ---------------------------------------------------------------------
  // The average E_Score per state, drawn on the map

  /** One row of the per-state table: the state and its mean `E_Score`. */
  datatype StateScore = StateScore(state: string, mean: real)

  function StatesOf(rows: seq<RankedRow>): (ss: seq<string>)
    ensures |ss| == |rows|
    ensures forall i :: 0 <= i < |rows| ==> ss[i] == rows[i].key.state
  {
    seq(|rows|, i requires 0 <= i < |rows| => rows[i].key.state)
  }

  /** The `E_Score`s of the rows of `state`, in row order. */
  function ScoresOf(rows: seq<RankedRow>, state: string): seq<real> {
    if rows == [] then []
    else
      var n := |rows| - 1;
      ScoresOf(rows[..n], state) + (if rows[n].key.state == state then [rows[n].score] else [])
  }

  lemma {:induction false} ScoresOfNonEmpty(rows: seq<RankedRow>, state: string)
    ensures ScoresOf(rows, state) != [] <==> state in StatesOf(rows)
  {
    if rows != [] {
      var n := |rows| - 1;
      ScoresOfNonEmpty(rows[..n], state);
      assert StatesOf(rows) == StatesOf(rows[..n]) + [rows[n].key.state];
    }
  }

  function NamesOf(ms: seq<StateScore>): (ss: seq<string>)
    ensures |ss| == |ms|
    ensures forall i :: 0 <= i < |ms| ==> ss[i] == ms[i].state
  {
    seq(|ms|, i requires 0 <= i < |ms| => ms[i].state)
  }

  /**
   * `groupby("state")["E_Score"].mean()`: one row per state of the input,
   * states in ascending order, each with the mean `E_Score` of its rows.
   */
  function StateMeans(rows: seq<RankedRow>): (r: seq<StateScore>)
    ensures StrictlySorted(StrLess, NamesOf(r))
    ensures forall s :: s in NamesOf(r) <==> s in StatesOf(rows)
    ensures forall i :: 0 <= i < |r| ==>
              ScoresOf(rows, r[i].state) != [] && r[i].mean == Mean(ScoresOf(rows, r[i].state))
  {
    StrLessIsStrictTotalOrder();
    var states := SortedDistinct(StrLess, StatesOf(rows));
    assert forall i :: 0 <= i < |states| ==> ScoresOf(rows, states[i]) != [] by {
      forall i | 0 <= i < |states| {
        ScoresOfNonEmpty(rows, states[i]);
      }
    }
    var r := seq(|states|, i requires 0 <= i < |states| => StateScore(states[i], Mean(ScoresOf(rows, states[i]))));
    assert NamesOf(r) == states;
    r
  }

  /** Each state's mean lies between the lowest and the highest `E_Score` of its rows. */
  lemma StateMeanBounds(rows: seq<RankedRow>, i: int, lo: real, hi: real)
    requires 0 <= i < |StateMeans(rows)|
    requires forall r :: r in rows ==> lo <= r.score <= hi
    ensures lo <= StateMeans(rows)[i].mean <= hi
  {
    var s := StateMeans(rows)[i].state;
    ScoresOfBounds(rows, s, lo, hi);
    MeanBounds(ScoresOf(rows, s), lo, hi);
  }

  lemma {:induction false} ScoresOfBounds(rows: seq<RankedRow>, state: string, lo: real, hi: real)
    requires forall r :: r in rows ==> lo <= r.score <= hi
    ensures forall k :: 0 <= k < |ScoresOf(rows, state)| ==> lo <= ScoresOf(rows, state)[k] <= hi
  {
    if rows != [] {
      var n := |rows| - 1;
      assert forall r :: r in rows[..n] ==> r in rows;
      ScoresOfBounds(rows[..n], state, lo, hi);
    }
  }

  lemma {:induction false} ScoresOfAppend(a: seq<RankedRow>, b: seq<RankedRow>, state: string)
    ensures ScoresOf(a + b, state) == ScoresOf(a, state) + ScoresOf(b, state)
  {
    if b == [] {
      assert a + b == a;
    } else {
      var n := |b| - 1;
      assert (a + b)[..|a + b| - 1] == a + b[..n];
      ScoresOfAppend(a, b[..n], state);
    }
  }

  /** Reordering the rows reorders each state's scores and nothing more. */
  lemma {:induction false} ScoresOfPermutation(xs: seq<RankedRow>, ys: seq<RankedRow>, state: string)
    requires multiset(xs) == multiset(ys)
    ensures multiset(ScoresOf(xs, state)) == multiset(ScoresOf(ys, state))
  {
    if xs == [] {
      assert |ys| == |multiset(ys)|;
    } else {
      var n := |xs| - 1;
      var j := PermutationLast(xs, ys);
      var before, x, after := ys[..j], ys[j], ys[j + 1..];
      ScoresOfPermutation(xs[..n], before + after, state);
      ScoresOfAppend(before + [x], after, state);
      ScoresOfAppend(before, [x], state);
      ScoresOfAppend(before, after, state);
      var one := ScoresOf([x], state);
      assert one == (if x.key.state == state then [x.score] else []) by {
        assert [x][..0] == [];
      }
      assert ScoresOf(xs, state) == ScoresOf(xs[..n], state) + one;
      assert ScoresOf(ys, state) == ScoresOf(before, state) + one + ScoresOf(after, state);
    }
  }

  /**
   * The per-state means do not depend on the order of the rows: those of
   * the sorted priority table are those of the unsorted one, whatever the
   * order of ties.
   */
  lemma StateMeansPermutation(xs: seq<RankedRow>, ys: seq<RankedRow>)
    requires multiset(xs) == multiset(ys)
    ensures StateMeans(xs) == StateMeans(ys)
  {
    var a, b := StateMeans(xs), StateMeans(ys);
    forall s
      ensures s in StatesOf(xs) <==> s in StatesOf(ys)
    {
      if s in StatesOf(xs) {
        var i :| 0 <= i < |xs| && StatesOf(xs)[i] == s;
        assert xs[i] in multiset(ys);
      }
      if s in StatesOf(ys) {
        var i :| 0 <= i < |ys| && StatesOf(ys)[i] == s;
        assert ys[i] in multiset(xs);
      }
    }
    StrLessIsStrictTotalOrder();
    SortedUnique(StrLess, NamesOf(a), NamesOf(b));
    forall i | 0 <= i < |a|
      ensures a[i] == b[i]
    {
      var s := a[i].state;
      assert b[i].state == NamesOf(b)[i] == s;
      ScoresOfPermutation(xs, ys, s);
      MeanPermutation(ScoresOf(xs, s), ScoresOf(ys, s));
    }
  }

  /** The map's per-state means of a priority table equal those of its unsorted rows. */
  lemma PriorityStateMeans(t: ZTable, weights: seq<Weight>, out: seq<RankedRow>)
    requires WellFormed(t)
    requires multiset(out) == multiset(Unranked(t, weights))
    ensures StateMeans(out) == StateMeans(Unranked(t, weights))
    ensures forall s :: s in NamesOf(StateMeans(out)) <==> exists i :: 0 <= i < |t.keys| && t.keys[i].state == s
  {
    StateMeansPermutation(out, Unranked(t, weights));
    var rows := Unranked(t, weights);
    forall s
      ensures s in StatesOf(rows) <==> exists i :: 0 <= i < |t.keys| && t.keys[i].state == s
    {
      if exists i :: 0 <= i < |t.keys| && t.keys[i].state == s {
        var i :| 0 <= i < |t.keys| && t.keys[i].state == s;
        assert StatesOf(rows)[i] == s;
      }
    }
  }
}
