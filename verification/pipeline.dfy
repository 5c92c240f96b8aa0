/**
 * create_data: the whole dataset build, from the two tables as read to the
 * two named train/test tables, or the failure that stops it.
 */
module Pipeline {
  import opened Wrappers
  import opened Seqs
  import opened Fips
  import opened Counties
  import opened LagFacts
  import opened Frame
  import opened Split

  datatype Error =
    | NoFipsColumn                 // an empty census table yields no fips column to key on
    | FipsNotUnique(fips: string)  // the population table cannot be keyed by fips
    | NoDates                      // no row is left, so there is no date to split at

  /** The forecast horizon: the test table covers the last seven distinct dates. */
  const ForecastLen: nat := 7

  predicate NonZeroEstimates(population: seq<PopRecord>) {
    forall i :: 0 <= i < |population| ==> population[i].estimate != 0
  }

  /** The column names of both returned tables. */
  const OutputColumns: seq<string> :=
    WithoutNames(WithNames(WithNames(WithNames(BaseColumns, JoinColumns), LagColumns), DailyColumns), LagColumns)

  /** The rows as the join and deletion leave them: the input of the lag step. */
  function MatchedRows(obs: seq<Observation>, index: map<string, int>): seq<Row>
    requires NonZeroPopulations(index)
  {
    Matched(Joined(Initial(obs), index))
  }

  /** The table after every in-place step. */
  function Prepared(obs: seq<Observation>, index: map<string, int>): seq<Row>
    requires NonZeroPopulations(index)
  {
    Clamped(LagsDropped(Differenced(LagsFilled(Lagged(MatchedRows(obs, index))))))
  }

  /** The result create_data returns for the two tables and a forecast horizon. */
  function Build(obs: seq<Observation>, population: seq<PopRecord>, horizon: nat): Result<map<string, Table>, Error>
    requires NonZeroEstimates(population)
  {
    if population == [] then Failure(NoFipsColumn)
    else match PopIndex(population)
    case Failure(k) => Failure(FipsNotUnique(k))
    case Success(index) =>
      IndexNonZero(population);
      match Datasets(OutputColumns, Prepared(obs, index), horizon)
      case None => Failure(NoDates)
      case Some(m) => Success(m)
  }

  lemma IndexNonZero(population: seq<PopRecord>)
    requires NonZeroEstimates(population) && PopIndex(population).Success?
    ensures NonZeroPopulations(PopIndex(population).value)
  {
    PopIndexSpec(population);
    var index := PopIndex(population).value;
    forall k | k in index ensures index[k] != 0 {
      var i :| 0 <= i < |population| && RecordFips(population[i]) == k;
    }
  }

  lemma NotLagColumn(c: string)
    requires c in BaseColumns || c in JoinColumns || c in DailyColumns
    ensures c !in LagColumns
  {
    assert "cases100k_daily"[5] != "cases_yesterday"[5];
    assert "deaths100k_daily"[6] != "deaths_yesterday"[6];
  }

  /** Both returned tables have the case/death columns, the join columns and the daily columns, and no lag column. */
  lemma OutputColumnsSpec()
    ensures forall c :: c in OutputColumns <==> c in BaseColumns || c in JoinColumns || c in DailyColumns
    ensures forall c :: c in LagColumns ==> c !in OutputColumns
  {
    forall c ensures c in OutputColumns <==> c in BaseColumns || c in JoinColumns || c in DailyColumns {
      if c in BaseColumns || c in JoinColumns || c in DailyColumns {
        NotLagColumn(c);
      }
    }
  }

  /** A row of the case/death table finds a population record. */
  predicate RowMatches(o: Observation, index: map<string, int>) {
    o.fips.Some? && o.fips.value in index
  }

  /**
   * After the join and the deletion every row has the population recorded
   * under its fips and both per-100k counts, no more rows than were read
   * remain, and they keep their order.
   */
  lemma MatchedRowsJoined(obs: seq<Observation>, index: map<string, int>)
    requires NonZeroPopulations(index)
    ensures var m := MatchedRows(obs, index);
      && |m| <= |obs|
      && AllJoined(m)
      && (forall r :: r in m ==> r.fips.Some? && r.fips.value in index && r.pop == Some(index[r.fips.value]))
      && Subsequence(m, Joined(Initial(obs), index))
  {
    var joined := Joined(Initial(obs), index);
    var m := MatchedRows(obs, index);
    FilterIsSubsequence(joined, HasPopulation);
    forall i | 0 <= i < |m| ensures m[i].cases100k.Some? && m[i].deaths100k.Some? {
      assert m[i] in joined;
    }
  }

  /** A row with a population whose per-100k counts times that population give the counts times 100000. */
  predicate ExactPer100k(r: Row) {
    && r.pop.Some? && r.cases100k.Some? && r.deaths100k.Some?
    && r.cases100k.value * r.pop.value as real == r.cases as real * 100000.0
    && r.deaths100k.value * r.pop.value as real == r.deaths as real * 100000.0
  }

  /** Each remaining row carries its keyed population and per-100k counts that agree with it exactly. */
  lemma MatchedRowsPer100k(obs: seq<Observation>, index: map<string, int>, i: nat)
    requires NonZeroPopulations(index) && i < |MatchedRows(obs, index)|
    ensures var r := MatchedRows(obs, index)[i];
      && r.fips.Some? && r.fips.value in index && r.pop == Some(index[r.fips.value])
      && ExactPer100k(r)
  {
    var joined := Joined(Initial(obs), index);
    var r := MatchedRows(obs, index)[i];
    assert r in joined && HasPopulation(r);
    var t :| 0 <= t < |joined| && joined[t] == r;
    JoinRowExact(Initial(obs)[t], index);
  }

  lemma JoinRowExact(r: Row, index: map<string, int>)
    requires NonZeroPopulations(index)
    ensures var j := JoinRow(r, index);
      j.pop.Some? ==> j.fips.Some? && j.fips.value in index && j.pop == Some(index[j.fips.value]) && ExactPer100k(j)
  {
  }

  /** All rows remain exactly when every row matches, and none remains exactly when no row matches. */
  lemma MatchedRowsCount(obs: seq<Observation>, index: map<string, int>)
    requires NonZeroPopulations(index)
    ensures |MatchedRows(obs, index)| == |obs| <==> forall i :: 0 <= i < |obs| ==> RowMatches(obs[i], index)
    ensures MatchedRows(obs, index) == [] <==> forall i :: 0 <= i < |obs| ==> !RowMatches(obs[i], index)
  {
    var joined := Joined(Initial(obs), index);
    var m := MatchedRows(obs, index);
    FilterKeepsAll(joined, HasPopulation);
    assert forall i :: 0 <= i < |obs| ==> (HasPopulation(joined[i]) <==> RowMatches(obs[i], index));
    if m == [] {
      forall i | 0 <= i < |obs| ensures !RowMatches(obs[i], index) {
        assert joined[i] in joined;
      }
    } else {
      assert m[0] in joined;
    }
  }

  /**
   * The steps after the deletion change a row only in its daily columns: every
   * other value of a matched row (date, group, fips, counts, population and
   * per-100k counts) reaches the output unchanged, and no lag value remains.
   */
  lemma PreparedKeepsRow(obs: seq<Observation>, index: map<string, int>, i: nat)
    requires NonZeroPopulations(index) && i < |MatchedRows(obs, index)|
    ensures i < |Prepared(obs, index)|
    ensures Prepared(obs, index)[i].(casesDaily := None, deathsDaily := None,
                                      cases100kDaily := None, deaths100kDaily := None)
      == MatchedRows(obs, index)[i]
  {
    var m := MatchedRows(obs, index);
    var joined := Joined(Initial(obs), index);
    assert m[i] in joined;
    var t :| 0 <= t < |joined| && joined[t] == m[i];
    assert m[i] == JoinRow(InitialRow(obs[t]), index);
    var l := Lagged(m);
    var f := LagsFilled(l);
    var d := Differenced(f);
    var x := LagsDropped(d);
    var c := Clamped(x);
    assert l[i] == WithLag(m, i);
    assert f[i] == FillLag(l[i]);
    assert d[i] == DailyRow(f[i]);
    assert x[i] == DropLag(d[i]);
    assert c[i] == ClampRow(x[i]);
  }

  /**
   * The final daily cases and deaths are present and never negative; no row
   * keeps a lag value; every other value is the matched row's.
   */
  lemma PreparedRowsSpec(obs: seq<Observation>, index: map<string, int>)
    requires NonZeroPopulations(index)
    ensures |Prepared(obs, index)| == |MatchedRows(obs, index)|
    ensures forall i :: 0 <= i < |MatchedRows(obs, index)| ==>
      Prepared(obs, index)[i].(casesDaily := None, deathsDaily := None,
                               cases100kDaily := None, deaths100kDaily := None)
      == MatchedRows(obs, index)[i]
    ensures forall r :: r in Prepared(obs, index) ==>
      && r.casesDaily.Some? && r.casesDaily.value >= 0
      && r.deathsDaily.Some? && r.deathsDaily.value >= 0
      && r.cases100kDaily.Some? && r.deaths100kDaily.Some?
      && r.casesYesterday.None? && r.deathsYesterday.None?
      && r.cases100kYesterday.None? && r.deaths100kYesterday.None?
  {
    var m := MatchedRows(obs, index);
    MatchedRowsJoined(obs, index);
    var out := Prepared(obs, index);
    forall r | r in out
      ensures r.casesDaily.Some? && r.deathsDaily.Some? && r.cases100kDaily.Some? && r.deaths100kDaily.Some?
    {
      var i :| 0 <= i < |out| && out[i] == r;
      LagLockstep(m, i);
    }
    forall i | 0 <= i < |m|
      ensures out[i].(casesDaily := None, deathsDaily := None, cases100kDaily := None, deaths100kDaily := None)
        == m[i]
    {
      PreparedKeepsRow(obs, index, i);
    }
  }

  predicate PositivePopulations(index: map<string, int>) {
    forall k :: k in index ==> index[k] > 0
  }

  /** All rows of a (state, county) group carry the same population. */
  predicate OnePopulationPerGroup(rows: seq<Row>) {
    forall j, k :: 0 <= j < |rows| && 0 <= k < |rows| && SameGroup(rows[j], rows[k]) ==> rows[j].pop == rows[k].pop
  }

  lemma QuotientSign(x: real, p: real, c: real)
    requires p > 0.0 && x * p == c * 100000.0 && c >= 0.0
    ensures x >= 0.0
  {
  }

  /** The per-100k change between two rows of one population has the sign of the raw change. */
  lemma Per100kChangeSign(xi: real, xj: real, ci: int, cj: int, p: int)
    requires p > 0 && cj <= ci
    requires xi * p as real == ci as real * 100000.0 && xj * p as real == cj as real * 100000.0
    ensures xi - xj >= 0.0
  {
    assert (xi - xj) * p as real == xi * p as real - xj * p as real;
    QuotientSign(xi - xj, p as real, (ci - cj) as real);
  }

  /** With a positive population, a per-100k count is negative only when the raw count is. */
  lemma RowSign(a: Row)
    requires ExactPer100k(a) && a.pop.value > 0
    ensures a.cases >= 0 ==> a.cases100k.value >= 0.0
    ensures a.deaths >= 0 ==> a.deaths100k.value >= 0.0
  {
    if a.cases >= 0 {
      QuotientSign(a.cases100k.value, a.pop.value as real, a.cases as real);
    }
    if a.deaths >= 0 {
      QuotientSign(a.deaths100k.value, a.pop.value as real, a.deaths as real);
    }
  }

  /** Between two rows of one positive population, per-100k counts go down only when raw counts do. */
  lemma RowChangeSign(a: Row, b: Row)
    requires ExactPer100k(a) && ExactPer100k(b) && a.pop == b.pop && a.pop.value > 0
    ensures b.cases <= a.cases ==> a.cases100k.value - b.cases100k.value >= 0.0
    ensures b.deaths <= a.deaths ==> a.deaths100k.value - b.deaths100k.value >= 0.0
  {
    if b.cases <= a.cases {
      Per100kChangeSign(a.cases100k.value, b.cases100k.value, a.cases, b.cases, a.pop.value);
    }
    if b.deaths <= a.deaths {
      Per100kChangeSign(a.deaths100k.value, b.deaths100k.value, a.deaths, b.deaths, a.pop.value);
    }
  }

  /**
   * The clamp tests only the raw daily counts, so a per-100k daily value can be
   * negative: one (state, county) group whose rows carry two fips with
   * populations 100000 and 200000 and cumulative cases 10 then 12 gets a
   * daily case count of 2 and a per-100k daily value of 6 - 10 = -4.
   */
  lemma Per100kDailyCanBeNegative()
    ensures var obs := [Observation(20200301, "Autauga", "Alabama", Some("01001"), 10, 0),
                        Observation(20200302, "Autauga", "Alabama", Some("01003"), 12, 0)];
      var index := map["01001" := 100000, "01003" := 200000];
      && NonZeroPopulations(index)
      && |Prepared(obs, index)| == 2
      && Prepared(obs, index)[1].casesDaily == Some(2)
      && Prepared(obs, index)[1].cases100kDaily == Some(-4.0)
  {
    var obs := [Observation(20200301, "Autauga", "Alabama", Some("01001"), 10, 0),
                Observation(20200302, "Autauga", "Alabama", Some("01003"), 12, 0)];
    var index := map["01001" := 100000, "01003" := 200000];
    var joined := Joined(Initial(obs), index);
    assert HasPopulation(joined[0]) && HasPopulation(joined[1]);
    FilterKeepsAll(joined, HasPopulation);
    var m := MatchedRows(obs, index);
    assert m == joined;
    assert m[0].cases100k == Some(10.0) && m[1].cases100k == Some(6.0);
    assert Earlier(m, 1, 0);
    assert IsPredecessor(m, 1, 0);
    LaterRowFinal(obs, index, 1, 0);
  }

  /** A group's first row: its per-100k daily values are not negative when its population is positive. */
  lemma FirstRowPer100kNonNegative(obs: seq<Observation>, index: map<string, int>, i: nat)
    requires PositivePopulations(index)
    requires i < |MatchedRows(obs, index)| && IsGroupFirst(MatchedRows(obs, index), i)
    ensures i < |Prepared(obs, index)|
    ensures Prepared(obs, index)[i].cases100kDaily.Some? && Prepared(obs, index)[i].cases100kDaily.value >= 0.0
    ensures Prepared(obs, index)[i].deaths100kDaily.Some? && Prepared(obs, index)[i].deaths100kDaily.value >= 0.0
  {
    MatchedRowsPer100k(obs, index, i);
    RowSign(MatchedRows(obs, index)[i]);
    FirstRowFinal(obs, index, i);
  }

  /** A later row with the population of its predecessor: its per-100k daily values are not negative. */
  lemma LaterRowPer100kNonNegative(obs: seq<Observation>, index: map<string, int>, i: nat, j: int)
    requires PositivePopulations(index)
    requires i < |MatchedRows(obs, index)| && IsPredecessor(MatchedRows(obs, index), i, j)
    requires MatchedRows(obs, index)[i].pop == MatchedRows(obs, index)[j].pop
    ensures i < |Prepared(obs, index)|
    ensures Prepared(obs, index)[i].cases100kDaily.Some? && Prepared(obs, index)[i].cases100kDaily.value >= 0.0
    ensures Prepared(obs, index)[i].deaths100kDaily.Some? && Prepared(obs, index)[i].deaths100kDaily.value >= 0.0
  {
    var m := MatchedRows(obs, index);
    MatchedRowsPer100k(obs, index, i);
    MatchedRowsPer100k(obs, index, j);
    RowChangeSign(m[i], m[j]);
    LaterRowFinal(obs, index, i, j);
  }

  /**
   * When every population is positive and all rows of a group carry the same
   * population, the per-100k daily values are never negative either.
   */
  lemma Per100kDailyNonNegative(obs: seq<Observation>, index: map<string, int>)
    requires PositivePopulations(index) && OnePopulationPerGroup(MatchedRows(obs, index))
    ensures forall r :: r in Prepared(obs, index) ==>
      && r.cases100kDaily.Some? && r.cases100kDaily.value >= 0.0
      && r.deaths100kDaily.Some? && r.deaths100kDaily.value >= 0.0
  {
    var m := MatchedRows(obs, index);
    var out := Prepared(obs, index);
    PreparedRowsSpec(obs, index);
    forall r | r in out
      ensures r.cases100kDaily.Some? && r.cases100kDaily.value >= 0.0
      ensures r.deaths100kDaily.Some? && r.deaths100kDaily.value >= 0.0
    {
      var i :| 0 <= i < |out| && out[i] == r;
      NoPreviousIffFirst(m, i);
      match Previous(m, i)
      case None =>
        FirstRowPer100kNonNegative(obs, index, i);
      case Some(j) =>
        PreviousIsPredecessor(m, i, j);
        assert SameGroup(m[j], m[i]);
        LaterRowPer100kNonNegative(obs, index, i, j);
    }
  }

  /**
   * End to end, for the first row of a (state, county) group: each daily value
   * is the row's own cumulative value, set to 0 (with its 100k partner) when negative.
   */
  lemma FirstRowFinal(obs: seq<Observation>, index: map<string, int>, i: nat)
    requires NonZeroPopulations(index)
    requires i < |MatchedRows(obs, index)| && IsGroupFirst(MatchedRows(obs, index), i)
    ensures var m, r := MatchedRows(obs, index), Prepared(obs, index)[i];
      && r.casesDaily == Some(if m[i].cases < 0 then 0 else m[i].cases)
      && r.cases100kDaily == (if m[i].cases < 0 then Some(0.0) else m[i].cases100k)
      && r.deathsDaily == Some(if m[i].deaths < 0 then 0 else m[i].deaths)
      && r.deaths100kDaily == (if m[i].deaths < 0 then Some(0.0) else m[i].deaths100k)
  {
    MatchedRowsJoined(obs, index);
    FirstRowDaily(MatchedRows(obs, index), i);
  }

  /**
   * End to end, for a later row of a group: each daily value is the change
   * since the group's previous row, set to 0 (with its 100k partner) when the
   * raw count went down.
   */
  lemma LaterRowFinal(obs: seq<Observation>, index: map<string, int>, i: nat, j: int)
    requires NonZeroPopulations(index)
    requires i < |MatchedRows(obs, index)| && IsPredecessor(MatchedRows(obs, index), i, j)
    ensures var m, r := MatchedRows(obs, index), Prepared(obs, index)[i];
      var dc, dd := m[i].cases - m[j].cases, m[i].deaths - m[j].deaths;
      && r.casesDaily == Some(if dc < 0 then 0 else dc)
      && r.cases100kDaily == (if dc < 0 then Some(0.0) else MinusReal(m[i].cases100k, m[j].cases100k))
      && r.deathsDaily == Some(if dd < 0 then 0 else dd)
      && r.deaths100kDaily == (if dd < 0 then Some(0.0) else MinusReal(m[i].deaths100k, m[j].deaths100k))
  {
    MatchedRowsJoined(obs, index);
    LaterRowDaily(MatchedRows(obs, index), i, j);
  }

  /**
   * The build fails on keying an empty census table, fails on a population
   * table with a repeated fips, and otherwise fails with no dates exactly when
   * no row's fips has a population record.
   */
  lemma BuildFailures(obs: seq<Observation>, population: seq<PopRecord>, horizon: nat)
    requires NonZeroEstimates(population)
    ensures Build(obs, population, horizon) == Failure(NoFipsColumn) <==> population == []
    ensures Build(obs, population, horizon).Failure? && Build(obs, population, horizon).error.FipsNotUnique?
      <==> !UniqueFips(population)
    ensures Build(obs, population, horizon) == Failure(NoDates) <==>
      && population != []
      && UniqueFips(population)
      && forall i :: 0 <= i < |obs| ==> !(obs[i].fips.Some? && HasKey(population, obs[i].fips.value))
  {
    PopIndexSpec(population);
    if population != [] && PopIndex(population).Success? {
      var index := PopIndex(population).value;
      IndexNonZero(population);
      MatchedRowsCount(obs, index);
      PreparedRowsSpec(obs, index);
      assert forall i :: 0 <= i < |obs| ==>
        (RowMatches(obs[i], index) <==> obs[i].fips.Some? && HasKey(population, obs[i].fips.value));
    }
  }

  lemma DailyNamesPresent(cols: seq<string>)
    ensures "cases100k_daily" in WithNames(cols, DailyColumns)
    ensures "deaths100k_daily" in WithNames(cols, DailyColumns)
  {
    assert "cases100k_daily" in DailyColumns && "deaths100k_daily" in DailyColumns;
  }

  /**
   * The in-place steps in their order: join, deletion of unmatched rows,
   * lag, fill, difference, deletion of the lag columns, clamp.
   */
  method PrepareFrame(observations: seq<Observation>, index: map<string, int>) returns (frame: CountiesFrame)
    requires NonZeroPopulations(index)
    ensures fresh(frame) && frame.Valid()
    ensures frame.rows == Prepared(observations, index) && frame.columns == OutputColumns
  {
    frame := new CountiesFrame(observations);
    frame.Join(index);
    frame.DeleteUnmatched();
    assert frame.rows == MatchedRows(observations, index);
    frame.ShiftLags();
    assert forall c :: c in LagColumns ==> c in frame.columns;
    frame.FillMissingLags();
    ghost var lagged := frame.columns;
    frame.Differentiate();
    DailyNamesPresent(lagged);
    frame.DeleteLagColumns();
    NotLagColumn("cases100k_daily");
    NotLagColumn("deaths100k_daily");
    frame.ClampNegatives();
  }

  /**
   * Builds the dataset as create_data does: keys the population table, runs
   * every in-place step on the case/death table, then chooses the dates and
   * selects the train and test rows.
   */
  method CreateData(observations: seq<Observation>, population: seq<PopRecord>)
    returns (result: Result<map<string, Table>, Error>)
    requires NonZeroEstimates(population)
    ensures result == Build(observations, population, ForecastLen)
    ensures result == Failure(NoFipsColumn) <==> population == []
    ensures result.Failure? && result.error.FipsNotUnique? <==> !UniqueFips(population)
    ensures result == Failure(NoDates) <==>
      && population != []
      && UniqueFips(population)
      && forall i :: 0 <= i < |observations| ==>
           !(observations[i].fips.Some? && HasKey(population, observations[i].fips.value))
    ensures result.Success? ==> |result.value| == 2
    ensures result.Success? ==>
      forall name :: name in result.value ==> TableFits(result.value[name].rows, result.value[name].columns)
  {
    BuildFailures(observations, population, ForecastLen);
    if population == [] {
      return Failure(NoFipsColumn);
    }
    var keyed := PopIndex(population);
    if keyed.Failure? {
      return Failure(FipsNotUnique(keyed.error));
    }
    var index := keyed.value;
    IndexNonZero(population);
    var frame := PrepareFrame(observations, index);
    var datasets := Datasets(frame.columns, frame.rows, ForecastLen);
    DatasetsFit(frame.columns, frame.rows, ForecastLen);
    if datasets.None? {
      return Failure(NoDates);
    }
    return Success(datasets.value);
  }

  /**
   * A successful build returns exactly two tables, named after the split date
   * and the test date. Together they hold every prepared row once; train rows
   * are dated on or before the split date and test rows after it, each keeping
   * the table's row order; and every returned row has a non-negative daily
   * cases and deaths value.
   */
  lemma BuildSpec(obs: seq<Observation>, population: seq<PopRecord>, horizon: nat)
    requires NonZeroEstimates(population) && Build(obs, population, horizon).Success?
    ensures PopIndex(population).Success? && NonZeroPopulations(PopIndex(population).value)
    ensures var index := PopIndex(population).value;
      var rows := Prepared(obs, index);
      rows != [] &&
      var split, test := ChooseDates(rows, horizon).value.0, ChooseDates(rows, horizon).value.1;
      var m := Build(obs, population, horizon).value;
      && m.Keys == {TrainName(split), TestName(test)}
      && split <= test
      && m[TrainName(split)].columns == OutputColumns && m[TestName(test)].columns == OutputColumns
      && multiset(m[TrainName(split)].rows) + multiset(m[TestName(test)].rows) == multiset(rows)
      && (forall r :: r in m[TrainName(split)].rows ==> r.date <= split)
      && (forall r :: r in m[TestName(test)].rows ==> split < r.date)
      && Subsequence(m[TrainName(split)].rows, rows) && Subsequence(m[TestName(test)].rows, rows)
      && (forall r :: r in rows ==> r.casesDaily.Some? && r.casesDaily.value >= 0)
      && (forall r :: r in rows ==> r.deathsDaily.Some? && r.deathsDaily.value >= 0)
  {
    PopIndexSpec(population);
    IndexNonZero(population);
    var index := PopIndex(population).value;
    var rows := Prepared(obs, index);
    PreparedRowsSpec(obs, index);
    SplitDateRank(rows, horizon);
    SplitPartitions(rows, ChooseDates(rows, horizon).value.0);
  }
}
