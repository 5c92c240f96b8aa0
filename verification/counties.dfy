/**
 * The county case/death table and the table-wide steps applied to it: the
 * population join, removal of unmatched rows, the one-day lag within each
 * (state, county) group, the fill of missing lags, the daily differences, the
 * removal of the lag columns and the clamp of negative daily values.
 */
module Counties {
  import opened Wrappers
  import opened Seqs

  /** A calendar day written yyyymmdd as a number, so numeric order is the order of the ISO dates. */
  type Date = nat

  /** One line of the case/death table; fips is NA (None) where the table leaves it empty. */
  datatype Observation = Observation(
    date: Date, county: string, state: string, fips: Option<string>, cases: int, deaths: int)

  /**
   * A row of the working table. The columns after deaths are added by the
   * steps below; None is NA, which is also what a row holds in a column that
   * the table does not have.
   */
  datatype Row = Row(
    date: Date, county: string, state: string, fips: Option<string>, cases: int, deaths: int,
    pop: Option<int>, pop100k: Option<real>, cases100k: Option<real>, deaths100k: Option<real>,
    casesYesterday: Option<int>, deathsYesterday: Option<int>,
    cases100kYesterday: Option<real>, deaths100kYesterday: Option<real>,
    casesDaily: Option<int>, deathsDaily: Option<int>,
    cases100kDaily: Option<real>, deaths100kDaily: Option<real>)

  const BaseColumns: seq<string> := ["date", "county", "state", "fips", "cases", "deaths"]
  const JoinColumns: seq<string> := ["pop", "pop100k", "cases100k", "deaths100k"]
  const LagColumns: seq<string> :=
    ["cases_yesterday", "deaths_yesterday", "cases100k_yesterday", "deaths100k_yesterday"]
  const DailyColumns: seq<string> := ["cases_daily", "deaths_daily", "cases100k_daily", "deaths100k_daily"]

  /** Every added column in which r holds a value is one of cols. */
  predicate RowFits(r: Row, cols: seq<string>) {
    && (r.pop.Some? ==> "pop" in cols)
    && (r.pop100k.Some? ==> "pop100k" in cols)
    && (r.cases100k.Some? ==> "cases100k" in cols)
    && (r.deaths100k.Some? ==> "deaths100k" in cols)
    && (r.casesYesterday.Some? ==> "cases_yesterday" in cols)
    && (r.deathsYesterday.Some? ==> "deaths_yesterday" in cols)
    && (r.cases100kYesterday.Some? ==> "cases100k_yesterday" in cols)
    && (r.deaths100kYesterday.Some? ==> "deaths100k_yesterday" in cols)
    && (r.casesDaily.Some? ==> "cases_daily" in cols)
    && (r.deathsDaily.Some? ==> "deaths_daily" in cols)
    && (r.cases100kDaily.Some? ==> "cases100k_daily" in cols)
    && (r.deaths100kDaily.Some? ==> "deaths100k_daily" in cols)
  }

  /** Every row of the table holds values only in columns the table has. */
  predicate TableFits(rows: seq<Row>, cols: seq<string>) {
    forall i :: 0 <= i < |rows| ==> RowFits(rows[i], cols)
  }

  /** The column list after an update: names not yet present are appended in order. */
  function WithNames(cols: seq<string>, names: seq<string>): (r: seq<string>)
    ensures forall c :: c in r <==> c in cols || c in names
    ensures |cols| <= |r| && r[..|cols|] == cols
    decreases |names|
  {
    if names == [] then cols
    else
      var next := if names[0] in cols then cols else cols + [names[0]];
      var r := WithNames(next, names[1..]);
      assert r[..|next|][..|cols|] == cols;
      r
  }

  /** The column list after deleting the given columns. */
  function WithoutNames(cols: seq<string>, names: seq<string>): seq<string> {
    Filter(cols, c => c !in names)
  }

  function InitialRow(o: Observation): Row {
    Row(o.date, o.county, o.state, o.fips, o.cases, o.deaths,
        None, None, None, None, None, None, None, None, None, None, None, None)
  }

  function Initial(obs: seq<Observation>): seq<Row> {
    seq(|obs|, i requires 0 <= i < |obs| => InitialRow(obs[i]))
  }

  // ---- population join ----

  predicate NonZeroPopulations(index: map<string, int>) {
    forall k :: k in index ==> index[k] != 0
  }

  /** A count per 100000 inhabitants: the count divided by the population in units of 100000. */
  function Per100k(count: int, pop: int): real
    requires pop != 0
  {
    count as real / (pop as real / 100000.0)
  }

  /**
   * One row after the keyed left join: the matched population, pop100k (the
   * population divided by 10000, as written) and the two per-100k counts; NA in
   * all four when the row's fips is NA or has no population record.
   */
  function JoinRow(r: Row, index: map<string, int>): (j: Row)
    requires NonZeroPopulations(index)
    ensures j.pop.Some? <==> r.fips.Some? && r.fips.value in index
    ensures j.pop.Some? ==> j.pop.value == index[r.fips.value]
    ensures j.pop.Some? ==> j.pop100k.Some? && j.pop100k.value * 10000.0 == j.pop.value as real
    ensures j.pop.Some? ==>
      j.cases100k.Some? && j.cases100k.value * j.pop.value as real == r.cases as real * 100000.0
    ensures j.pop.Some? ==>
      j.deaths100k.Some? && j.deaths100k.value * j.pop.value as real == r.deaths as real * 100000.0
    ensures j.pop.None? ==> j.pop100k.None? && j.cases100k.None? && j.deaths100k.None?
    ensures j.(pop := r.pop, pop100k := r.pop100k, cases100k := r.cases100k, deaths100k := r.deaths100k) == r
  {
    if r.fips.Some? && r.fips.value in index then
      var p := index[r.fips.value];
      r.(pop := Some(p), pop100k := Some(p as real / 10000.0),
         cases100k := Some(Per100k(r.cases, p)), deaths100k := Some(Per100k(r.deaths, p)))
    else
      r.(pop := None, pop100k := None, cases100k := None, deaths100k := None)
  }

  function Joined(rows: seq<Row>, index: map<string, int>): seq<Row>
    requires NonZeroPopulations(index)
  {
    seq(|rows|, i requires 0 <= i < |rows| => JoinRow(rows[i], index))
  }

  predicate HasPopulation(r: Row) {
    r.pop.Some?
  }

  /** The rows whose pop is not NA, in order. */
  function Matched(rows: seq<Row>): seq<Row> {
    Filter(rows, HasPopulation)
  }

  // ---- one-day lag within (state, county) groups ----

  predicate SameGroup(a: Row, b: Row) {
    a.state == b.state && a.county == b.county
  }

  /**
   * Row j comes before row i once the table is sorted by date with a stable
   * sort: an earlier date, or the same date and an earlier position.
   */
  predicate Before(rows: seq<Row>, j: int, i: int)
    requires 0 <= j < |rows| && 0 <= i < |rows|
  {
    rows[j].date < rows[i].date || (rows[j].date == rows[i].date && j < i)
  }

  /** Row k is in row i's group and comes before it. */
  predicate Earlier(rows: seq<Row>, i: int, k: int)
    requires 0 <= i < |rows| && 0 <= k < |rows|
  {
    SameGroup(rows[k], rows[i]) && Before(rows, k, i)
  }

  /**
   * Among the first n rows, the last one of row i's group that comes before
   * row i in date order: the row a shift by one within the group reads.
   */
  function LatestBefore(rows: seq<Row>, i: nat, n: nat): (p: Option<nat>)
    requires i < |rows| && n <= |rows|
    ensures p.Some? ==> p.value < n && Earlier(rows, i, p.value)
    ensures p.Some? ==>
      forall k :: 0 <= k < n && Earlier(rows, i, k) ==> k == p.value || Before(rows, k, p.value)
    ensures p.None? <==> forall k :: 0 <= k < n ==> !Earlier(rows, i, k)
    decreases n
  {
    if n == 0 then None
    else
      var p := LatestBefore(rows, i, n - 1);
      if Earlier(rows, i, n - 1) && (p.None? || rows[p.value].date <= rows[n - 1].date) then Some(n - 1)
      else p
  }

  /** The index of the row before row i in its group, if any. */
  function Previous(rows: seq<Row>, i: nat): Option<nat>
    requires i < |rows|
  {
    LatestBefore(rows, i, |rows|)
  }

  /** The four yesterday columns read from the previous row of the group, NA when there is none. */
  function Shifted(r: Row, prev: Option<Row>): Row {
    match prev
    case None =>
      r.(casesYesterday := None, deathsYesterday := None,
         cases100kYesterday := None, deaths100kYesterday := None)
    case Some(q) =>
      r.(casesYesterday := Some(q.cases), deathsYesterday := Some(q.deaths),
         cases100kYesterday := q.cases100k, deaths100kYesterday := q.deaths100k)
  }

  function WithLag(rows: seq<Row>, i: nat): Row
    requires i < |rows|
  {
    var prev := Previous(rows, i);
    Shifted(rows[i], if prev.Some? then Some(rows[prev.value]) else None)
  }

  /** The table with the yesterday columns set; rows keep their positions. */
  function Lagged(rows: seq<Row>): seq<Row> {
    seq(|rows|, i requires 0 <= i < |rows| => WithLag(rows, i))
  }

  /** Where cases_yesterday is NA, all four yesterday columns become 0. */
  function FillLag(r: Row): Row {
    if r.casesYesterday.None? then
      r.(casesYesterday := Some(0), deathsYesterday := Some(0),
         cases100kYesterday := Some(0.0), deaths100kYesterday := Some(0.0))
    else r
  }

  function LagsFilled(rows: seq<Row>): seq<Row> {
    seq(|rows|, i requires 0 <= i < |rows| => FillLag(rows[i]))
  }

  // ---- daily differences ----

  /** Subtraction with NA: NA when either side is NA. */
  function MinusInt(a: Option<int>, b: Option<int>): Option<int> {
    if a.Some? && b.Some? then Some(a.value - b.value) else None
  }

  function MinusReal(a: Option<real>, b: Option<real>): Option<real> {
    if a.Some? && b.Some? then Some(a.value - b.value) else None
  }

  function DailyRow(r: Row): Row {
    r.(casesDaily := MinusInt(Some(r.cases), r.casesYesterday),
       deathsDaily := MinusInt(Some(r.deaths), r.deathsYesterday),
       cases100kDaily := MinusReal(r.cases100k, r.cases100kYesterday),
       deaths100kDaily := MinusReal(r.deaths100k, r.deaths100kYesterday))
  }

  function Differenced(rows: seq<Row>): seq<Row> {
    seq(|rows|, i requires 0 <= i < |rows| => DailyRow(rows[i]))
  }

  // ---- removal of the lag columns ----

  function DropLag(r: Row): Row {
    r.(casesYesterday := None, deathsYesterday := None,
       cases100kYesterday := None, deaths100kYesterday := None)
  }

  function LagsDropped(rows: seq<Row>): seq<Row> {
    seq(|rows|, i requires 0 <= i < |rows| => DropLag(rows[i]))
  }

  // ---- clamp of negative daily values ----

  predicate IsNegative(v: Option<int>) {
    v.Some? && v.value < 0
  }

  /**
   * The two masked assignments: a negative cases_daily sets cases_daily and
   * cases100k_daily to 0, then a negative deaths_daily sets deaths_daily and
   * deaths100k_daily to 0. The 100k columns are tested through the raw counts only.
   */
  function ClampRow(r: Row): (c: Row)
    ensures c.casesDaily.Some? ==> c.casesDaily.value >= 0
    ensures c.deathsDaily.Some? ==> c.deathsDaily.value >= 0
    ensures IsNegative(r.casesDaily) ==> c.casesDaily == Some(0) && c.cases100kDaily == Some(0.0)
    ensures !IsNegative(r.casesDaily) ==> c.casesDaily == r.casesDaily && c.cases100kDaily == r.cases100kDaily
    ensures IsNegative(r.deathsDaily) ==> c.deathsDaily == Some(0) && c.deaths100kDaily == Some(0.0)
    ensures !IsNegative(r.deathsDaily) ==>
      c.deathsDaily == r.deathsDaily && c.deaths100kDaily == r.deaths100kDaily
    ensures c.(casesDaily := r.casesDaily, cases100kDaily := r.cases100kDaily,
               deathsDaily := r.deathsDaily, deaths100kDaily := r.deaths100kDaily) == r
  {
    var afterCases :=
      if IsNegative(r.casesDaily) then r.(casesDaily := Some(0), cases100kDaily := Some(0.0)) else r;
    if IsNegative(afterCases.deathsDaily) then
      afterCases.(deathsDaily := Some(0), deaths100kDaily := Some(0.0))
    else afterCases
  }

  function Clamped(rows: seq<Row>): seq<Row> {
    seq(|rows|, i requires 0 <= i < |rows| => ClampRow(rows[i]))
  }

  // ---- each step keeps values inside the columns the table has ----

  lemma JoinedFits(rows: seq<Row>, cols: seq<string>, index: map<string, int>)
    requires TableFits(rows, cols) && NonZeroPopulations(index)
    ensures TableFits(Joined(rows, index), WithNames(cols, JoinColumns))
  {
    var cols' := WithNames(cols, JoinColumns);
    assert "pop" in cols' && "pop100k" in cols' && "cases100k" in cols' && "deaths100k" in cols';
    forall i | 0 <= i < |rows| ensures RowFits(Joined(rows, index)[i], cols') {
      assert RowFits(rows[i], cols);
    }
  }

  lemma MatchedFits(rows: seq<Row>, cols: seq<string>)
    requires TableFits(rows, cols)
    ensures TableFits(Matched(rows), cols)
  {
    var m := Matched(rows);
    forall i | 0 <= i < |m| ensures RowFits(m[i], cols) {
      assert m[i] in rows;
    }
  }

  lemma LaggedFits(rows: seq<Row>, cols: seq<string>)
    requires TableFits(rows, cols)
    ensures TableFits(Lagged(rows), WithNames(cols, LagColumns))
  {
    var cols' := WithNames(cols, LagColumns);
    assert "cases_yesterday" in cols' && "deaths_yesterday" in cols';
    assert "cases100k_yesterday" in cols' && "deaths100k_yesterday" in cols';
    forall i | 0 <= i < |rows| ensures RowFits(Lagged(rows)[i], cols') {
      var p := Previous(rows, i);
      ShiftedFits(rows[i], if p.Some? then Some(rows[p.value]) else None, cols, cols');
    }
  }

  lemma ShiftedFits(r: Row, prev: Option<Row>, cols: seq<string>, cols': seq<string>)
    requires RowFits(r, cols) && forall c :: c in cols ==> c in cols'
    requires "cases_yesterday" in cols' && "deaths_yesterday" in cols'
    requires "cases100k_yesterday" in cols' && "deaths100k_yesterday" in cols'
    ensures RowFits(Shifted(r, prev), cols')
  {
  }

  lemma LagsFilledFits(rows: seq<Row>, cols: seq<string>)
    requires TableFits(rows, cols)
    requires forall c :: c in LagColumns ==> c in cols
    ensures TableFits(LagsFilled(rows), cols)
  {
    assert "cases_yesterday" in cols && "deaths_yesterday" in cols;
    assert "cases100k_yesterday" in cols && "deaths100k_yesterday" in cols;
    forall i | 0 <= i < |rows| ensures RowFits(LagsFilled(rows)[i], cols) {
      assert RowFits(rows[i], cols);
    }
  }

  lemma DifferencedFits(rows: seq<Row>, cols: seq<string>)
    requires TableFits(rows, cols)
    ensures TableFits(Differenced(rows), WithNames(cols, DailyColumns))
  {
    var cols' := WithNames(cols, DailyColumns);
    assert "cases_daily" in cols' && "deaths_daily" in cols';
    assert "cases100k_daily" in cols' && "deaths100k_daily" in cols';
    forall i | 0 <= i < |rows| ensures RowFits(Differenced(rows)[i], cols') {
      assert RowFits(rows[i], cols);
    }
  }

  lemma LagsDroppedFits(rows: seq<Row>, cols: seq<string>)
    requires TableFits(rows, cols)
    ensures TableFits(LagsDropped(rows), WithoutNames(cols, LagColumns))
  {
    var cols' := WithoutNames(cols, LagColumns);
    forall i | 0 <= i < |rows| ensures RowFits(LagsDropped(rows)[i], cols') {
      assert RowFits(rows[i], cols);
      var r := LagsDropped(rows)[i];
      assert r.pop.Some? ==> "pop" in cols';
      assert r.pop100k.Some? ==> "pop100k" in cols';
      assert r.cases100k.Some? ==> "cases100k" in cols';
      assert r.deaths100k.Some? ==> "deaths100k" in cols';
      assert r.casesDaily.Some? ==> "cases_daily" in cols';
      assert r.deathsDaily.Some? ==> "deaths_daily" in cols';
      assert r.cases100kDaily.Some? ==> "cases100k_daily" in cols';
      assert r.deaths100kDaily.Some? ==> "deaths100k_daily" in cols';
    }
  }

  lemma ClampedFits(rows: seq<Row>, cols: seq<string>)
    requires TableFits(rows, cols)
    requires "cases100k_daily" in cols && "deaths100k_daily" in cols
    ensures TableFits(Clamped(rows), cols)
  {
    forall i | 0 <= i < |rows| ensures RowFits(Clamped(rows)[i], cols) {
      assert RowFits(rows[i], cols);
    }
  }
}
