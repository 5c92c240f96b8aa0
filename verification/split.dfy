/**
 * The date split: the distinct dates in ascending order, the split date and
 * the test date taken from them, the train and test row selections and the
 * names under which the two tables are returned.
 */
module Split {
  import opened Wrappers
  import opened Format
  import opened Seqs
  import opened Counties

  function DateSet(rows: seq<Row>): set<Date> {
    set r | r in rows :: r.date
  }

  predicate StrictlyIncreasing(s: seq<Date>) {
    forall i, j :: 0 <= i < j < |s| ==> s[i] < s[j]
  }

  /** Putting a date below every element in front keeps a sequence strictly increasing. */
  lemma PrependIncreasing(x: Date, s: seq<Date>)
    requires StrictlyIncreasing(s) && forall y :: y in s ==> x < y
    ensures StrictlyIncreasing([x] + s)
  {
    var r := [x] + s;
    forall a, b | 0 <= a < b < |r| ensures r[a] < r[b] {
      assert r[b] == s[b - 1] && s[b - 1] in s;
      if a > 0 {
        assert r[a] == s[a - 1];
      }
    }
  }

  /** Inserts d into an ascending sequence of distinct dates, unless it is there already. */
  function InsertDate(s: seq<Date>, d: Date): (r: seq<Date>)
    requires StrictlyIncreasing(s)
    ensures StrictlyIncreasing(r)
    ensures forall x :: x in r <==> x in s || x == d
    decreases |s|
  {
    if s == [] then [d]
    else if d < s[0] then
      assert forall y :: y in s ==> d < y by {
        forall y | y in s ensures d < y {
          var k :| 0 <= k < |s| && s[k] == y;
          assert k == 0 || s[0] < s[k];
        }
      }
      PrependIncreasing(d, s);
      [d] + s
    else if d == s[0] then s
    else
      var tail := InsertDate(s[1..], d);
      assert forall x :: x in tail ==> s[0] < x by {
        forall x | x in tail ensures s[0] < x {
          if x in s[1..] {
            var k :| 0 <= k < |s[1..]| && s[1..][k] == x;
            assert s[k + 1] == x;
          }
        }
      }
      assert forall x :: x in s <==> x == s[0] || x in s[1..] by {
        assert s == [s[0]] + s[1..];
      }
      PrependIncreasing(s[0], tail);
      [s[0]] + tail
  }

  /** The distinct dates of the table in ascending order (dt.unique of the date column). */
  function UniqueDates(rows: seq<Row>): (dates: seq<Date>)
    ensures StrictlyIncreasing(dates)
    ensures forall d :: d in dates <==> d in DateSet(rows)
    decreases |rows|
  {
    if rows == [] then []
    else
      var init, last := rows[..|rows| - 1], rows[|rows| - 1];
      assert rows == init + [last];
      assert forall d :: d in DateSet(rows) <==> d in DateSet(init) || d == last.date by {
        forall d ensures d in DateSet(rows) <==> d in DateSet(init) || d == last.date {
          if d in DateSet(rows) {
            var r :| r in rows && r.date == d;
            assert r in init || r == last;
          }
          if d in DateSet(init) {
            var r :| r in init && r.date == d;
            assert r in rows;
          }
        }
      }
      InsertDate(UniqueDates(init), last.date)
  }

  /** Where dates[-(horizon + 1):] starts: horizon + 1 from the end, or 0 when there are fewer dates. */
  function SplitIndex(n: nat, horizon: nat): nat {
    if n > horizon + 1 then n - (horizon + 1) else 0
  }

  /**
   * (split_date, test_date): the first of the last horizon + 1 distinct dates
   * and the last distinct date; None when the table has no rows, where taking
   * the first element of the empty date list fails.
   */
  function ChooseDates(rows: seq<Row>, horizon: nat): Option<(Date, Date)> {
    var dates := UniqueDates(rows);
    if dates == [] then None
    else Some((dates[SplitIndex(|dates|, horizon)], dates[|dates| - 1]))
  }

  /** The dates of a sequence, as a set. */
  function Elems(s: seq<Date>): set<Date> {
    set x | x in s
  }

  /** The dates of ds that come after d. */
  function DatesAfter(ds: set<Date>, d: Date): set<Date> {
    set x | x in ds && x > d
  }

  lemma {:induction false} IncreasingCard(s: seq<Date>)
    requires StrictlyIncreasing(s)
    ensures |Elems(s)| == |s|
    decreases |s|
  {
    if s != [] {
      var t := s[1..];
      assert StrictlyIncreasing(t) by {
        forall i, j | 0 <= i < j < |t| ensures t[i] < t[j] {
          assert t[i] == s[i + 1] && t[j] == s[j + 1];
        }
      }
      IncreasingCard(t);
      assert s == [s[0]] + t;
      assert Elems(s) == Elems(t) + {s[0]};
      assert s[0] !in Elems(t) by {
        forall k | 0 <= k < |t| ensures t[k] != s[0] {
          assert t[k] == s[k + 1];
        }
      }
    }
  }

  /** In an ascending sequence of distinct dates, exactly |s| - idx - 1 of them lie after s[idx]. */
  lemma LaterCount(s: seq<Date>, idx: nat)
    requires StrictlyIncreasing(s) && idx < |s|
    ensures |DatesAfter(Elems(s), s[idx])| == |s| - idx - 1
  {
    var later := s[idx + 1..];
    assert StrictlyIncreasing(later) by {
      forall i, j | 0 <= i < j < |later| ensures later[i] < later[j] {
        assert later[i] == s[idx + 1 + i] && later[j] == s[idx + 1 + j];
      }
    }
    IncreasingCard(later);
    assert DatesAfter(Elems(s), s[idx]) == Elems(later) by {
      forall x ensures x in DatesAfter(Elems(s), s[idx]) <==> x in Elems(later) {
        if x in DatesAfter(Elems(s), s[idx]) {
          var k :| 0 <= k < |s| && s[k] == x;
          assert later[k - idx - 1] == x;
        }
        if x in Elems(later) {
          var k :| 0 <= k < |later| && later[k] == x;
          assert s[idx + 1 + k] == x;
        }
      }
    }
  }

  /** The date set of the table is the set of its unique dates, with as many elements. */
  lemma DateSetOfUnique(rows: seq<Row>)
    ensures DateSet(rows) == Elems(UniqueDates(rows))
    ensures |DateSet(rows)| == |UniqueDates(rows)|
  {
    IncreasingCard(UniqueDates(rows));
  }

  /** Each row's date is among the unique dates, between the first and the last of them. */
  lemma RowDateBounds(rows: seq<Row>, r: Row)
    requires r in rows
    ensures UniqueDates(rows) != []
    ensures UniqueDates(rows)[0] <= r.date <= UniqueDates(rows)[|UniqueDates(rows)| - 1]
  {
    var dates := UniqueDates(rows);
    assert r.date in DateSet(rows);
    var j :| 0 <= j < |dates| && dates[j] == r.date;
    assert 0 < j ==> dates[0] < dates[j];
    assert j < |dates| - 1 ==> dates[j] < dates[|dates| - 1];
  }

  /** The first unique date is the earliest date of the table, the last one the latest. */
  lemma UniqueDatesBounds(rows: seq<Row>, k: nat)
    requires k < |UniqueDates(rows)|
    ensures UniqueDates(rows)[k] in DateSet(rows)
    ensures k == 0 ==> forall r :: r in rows ==> UniqueDates(rows)[k] <= r.date
    ensures k == |UniqueDates(rows)| - 1 ==> forall r :: r in rows ==> r.date <= UniqueDates(rows)[k]
  {
    var dates := UniqueDates(rows);
    assert dates[k] in dates;
    forall r | r in rows ensures dates[0] <= r.date <= dates[|dates| - 1] {
      RowDateBounds(rows, r);
    }
  }

  /** Dates can be chosen exactly when the table has rows. */
  lemma ChooseDatesDefined(rows: seq<Row>, horizon: nat)
    ensures ChooseDates(rows, horizon).Some? <==> rows != []
  {
    if rows != [] {
      assert rows[0].date in DateSet(rows);
    }
  }

  /** test_date is a date of the table and no row is dated later. */
  lemma TestDateIsLatest(rows: seq<Row>, horizon: nat)
    requires rows != []
    ensures ChooseDates(rows, horizon).Some?
    ensures ChooseDates(rows, horizon).value.1 in DateSet(rows)
    ensures forall r :: r in rows ==> r.date <= ChooseDates(rows, horizon).value.1
  {
    ChooseDatesDefined(rows, horizon);
    UniqueDatesBounds(rows, |UniqueDates(rows)| - 1);
  }

  /**
   * split_date is a date of the table, no later than test_date. When the table
   * has more than horizon distinct dates, exactly horizon of them lie after it;
   * otherwise it is the earliest date.
   */
  lemma SplitDateRank(rows: seq<Row>, horizon: nat)
    requires rows != []
    ensures ChooseDates(rows, horizon).Some?
    ensures var split := ChooseDates(rows, horizon).value.0;
      && split in DateSet(rows) && split <= ChooseDates(rows, horizon).value.1
      && (|DateSet(rows)| > horizon ==> |DatesAfter(DateSet(rows), split)| == horizon)
      && (|DateSet(rows)| <= horizon + 1 ==> forall r :: r in rows ==> split <= r.date)
  {
    ChooseDatesDefined(rows, horizon);
    var dates := UniqueDates(rows);
    var n, idx := |dates|, SplitIndex(|dates|, horizon);
    DateSetOfUnique(rows);
    UniqueDatesBounds(rows, idx);
    assert ChooseDates(rows, horizon).value == (dates[idx], dates[n - 1]);
    if n > horizon {
      LaterCount(dates, idx);
    }
  }

  /** The train rows: date on or before the split date, in table order. */
  function Train(rows: seq<Row>, split: Date): seq<Row> {
    Filter(rows, (r: Row) => r.date <= split)
  }

  /** The test rows: date after the split date, in table order. */
  function Test(rows: seq<Row>, split: Date): seq<Row> {
    Filter(rows, (r: Row) => r.date > split)
  }

  /**
   * Train and test partition the rows: together they hold each row exactly as
   * often as the table does, a row goes to train exactly when its date is on or
   * before the split date, and each keeps the table's row order.
   */
  lemma SplitPartitions(rows: seq<Row>, split: Date)
    ensures multiset(Train(rows, split)) + multiset(Test(rows, split)) == multiset(rows)
    ensures |Train(rows, split)| + |Test(rows, split)| == |rows|
    ensures forall r :: r in rows ==> (r in Train(rows, split) <==> r.date <= split)
    ensures forall r :: r in rows ==> (r in Test(rows, split) <==> split < r.date)
    ensures forall r :: r in Train(rows, split) ==> r.date <= split
    ensures forall r :: r in Test(rows, split) ==> split < r.date
    ensures Subsequence(Train(rows, split), rows) && Subsequence(Test(rows, split), rows)
  {
    FilterComplement(rows, (r: Row) => r.date <= split, (r: Row) => r.date > split);
    FilterIsSubsequence(rows, (r: Row) => r.date <= split);
    FilterIsSubsequence(rows, (r: Row) => r.date > split);
  }

  /** The test table is empty exactly when the split date is the latest date. */
  lemma TestEmptyIff(rows: seq<Row>, horizon: nat)
    requires rows != []
    ensures ChooseDates(rows, horizon).Some?
    ensures Test(rows, ChooseDates(rows, horizon).value.0) == [] <==>
      ChooseDates(rows, horizon).value.0 == ChooseDates(rows, horizon).value.1
  {
    TestDateIsLatest(rows, horizon);
    SplitDateRank(rows, horizon);
    var (split, test) := ChooseDates(rows, horizon).value;
    if split != test {
      var r :| r in rows && r.date == test;
      assert r in Test(rows, split);
    } else {
      FilterKeepsAll(rows, (r: Row) => r.date <= split);
      FilterComplement(rows, (r: Row) => r.date <= split, (r: Row) => r.date > split);
    }
  }

  /** A date as its ISO text yyyy-mm-dd. */
  function DateText(d: Date): string {
    FormatInt(d / 10000, 4) + "-" + FormatInt(d / 100 % 100, 2) + "-" + FormatInt(d % 100, 2)
  }

  lemma DateParts(d: Date)
    ensures (d / 10000) * 10000 + (d / 100 % 100) * 100 + d % 100 == d
  {
    var q := d / 100;
    assert q * 100 + d % 100 == d;
    assert (q / 100) * 100 + q % 100 == q;
    assert d / 10000 == q / 100;
  }

  /** For dates of at most eight digits, the text has the yyyy-mm-dd shape and reads back as the same date. */
  lemma DateTextRoundTrip(d: Date)
    requires d < 100000000
    ensures var t := DateText(d);
      && |t| == 10 && t[4] == '-' && t[7] == '-'
      && AllDigits(t[..4]) && AllDigits(t[5..7]) && AllDigits(t[8..])
      && ParseDigits(t[..4]) * 10000 + ParseDigits(t[5..7]) * 100 + ParseDigits(t[8..]) == d
  {
    var yn, mn, dn := d / 10000, d / 100 % 100, d % 100;
    assert Pow10(2) == 100 && Pow10(4) == 10000;
    assert yn < 10000;
    var y, m, dd := FormatInt(yn, 4), FormatInt(mn, 2), FormatInt(dn, 2);
    assert |y| == 4 && |m| == 2 && |dd| == 2;
    var t := y + "-" + m + "-" + dd;
    assert t[..4] == y && t[5..7] == m && t[8..] == dd;
    DateParts(d);
  }

  function TrainName(split: Date): string {
    "covid19_daily_" + DateText(split) + "_by_counties_train"
  }

  function TestName(test: Date): string {
    "covid19_daily_" + DateText(test) + "_by_counties_test"
  }

  /** A train name and a test name never coincide (they end in "train" and "test"). */
  lemma NamesDiffer(split: Date, test: Date)
    ensures TrainName(split) != TestName(test)
  {
    var a, b := TrainName(split), TestName(test);
    assert a[|a| - 1] == 'n' && b[|b| - 1] == 't';
  }

  /** A returned table: its column names and its rows. */
  datatype Table = Table(columns: seq<string>, rows: seq<Row>)

  /**
   * The returned mapping: the train rows under a name carrying the split
   * date and the test rows under a name carrying the test date; None when the
   * table is empty.
   */
  function Datasets(columns: seq<string>, rows: seq<Row>, horizon: nat): (r: Option<map<string, Table>>)
    ensures r.None? <==> rows == []
    ensures r.Some? ==>
      var split, test := ChooseDates(rows, horizon).value.0, ChooseDates(rows, horizon).value.1;
      && r.value.Keys == {TrainName(split), TestName(test)} && |r.value| == 2
      && r.value[TrainName(split)] == Table(columns, Train(rows, split))
      && r.value[TestName(test)] == Table(columns, Test(rows, split))
  {
    ChooseDatesDefined(rows, horizon);
    match ChooseDates(rows, horizon)
    case None => None
    case Some((split, test)) =>
      NamesDiffer(split, test);
      Some(map[TrainName(split) := Table(columns, Train(rows, split)),
               TestName(test) := Table(columns, Test(rows, split))])
  }

  /** Both returned tables hold values only in the columns they list, when the table they come from does. */
  lemma DatasetsFit(columns: seq<string>, rows: seq<Row>, horizon: nat)
    requires TableFits(rows, columns)
    ensures var r := Datasets(columns, rows, horizon);
      r.Some? ==> forall name :: name in r.value ==> TableFits(r.value[name].rows, r.value[name].columns)
  {
    if rows != [] {
      var split := ChooseDates(rows, horizon).value.0;
      TableFitsSelection(Train(rows, split), rows, columns);
      TableFitsSelection(Test(rows, split), rows, columns);
    }
  }

  /** A selection of a table's rows fits wherever the table does. */
  lemma TableFitsSelection(selected: seq<Row>, rows: seq<Row>, columns: seq<string>)
    requires TableFits(rows, columns) && forall x :: x in selected ==> x in rows
    ensures TableFits(selected, columns)
  {
    forall i | 0 <= i < |selected| ensures RowFits(selected[i], columns) {
      assert selected[i] in rows;
      var k :| 0 <= k < |rows| && rows[k] == selected[i];
    }
  }
}
