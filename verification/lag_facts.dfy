/**
 * What the lag, fill and difference steps compute for each row, stated
 * against the group order rather than against the scan that finds the
 * previous row.
 */
module LagFacts {
  import opened Wrappers
  import opened Counties

  /** Row j is the row immediately before row i in i's group, in the stable date order. */
  ghost predicate IsPredecessor(rows: seq<Row>, i: int, j: int)
    requires 0 <= i < |rows|
  {
    && 0 <= j < |rows|
    && Earlier(rows, i, j)
    && forall k :: 0 <= k < |rows| && Earlier(rows, i, k) ==> k == j || Before(rows, k, j)
  }

  /** No row of i's group comes before row i. */
  ghost predicate IsGroupFirst(rows: seq<Row>, i: int)
    requires 0 <= i < |rows|
  {
    forall k :: 0 <= k < |rows| ==> !Earlier(rows, i, k)
  }

  /** Every row carries both per-100k counts, as every row does once unmatched rows are removed. */
  predicate AllJoined(rows: seq<Row>) {
    forall i :: 0 <= i < |rows| ==> rows[i].cases100k.Some? && rows[i].deaths100k.Some?
  }

  /** Within a group no two rows share a date. */
  ghost predicate DistinctDatesInGroups(rows: seq<Row>) {
    forall j, k :: 0 <= j < |rows| && 0 <= k < |rows| && j != k && SameGroup(rows[j], rows[k]) ==>
      rows[j].date != rows[k].date
  }

  /** The row the shift reads is row j exactly when j is the group predecessor. */
  lemma PreviousIsPredecessor(rows: seq<Row>, i: nat, j: int)
    requires i < |rows|
    ensures Previous(rows, i) == Some(j) <==> IsPredecessor(rows, i, j)
  {
    var p := Previous(rows, i);
    if IsPredecessor(rows, i, j) {
      assert p.Some?;
      assert p.value == j || Before(rows, p.value, j);
    }
  }

  /** The shift reads no row exactly for the first row of a group. */
  lemma NoPreviousIffFirst(rows: seq<Row>, i: nat)
    requires i < |rows|
    ensures Previous(rows, i).None? <==> IsGroupFirst(rows, i)
  {
  }

  /**
   * With all per-100k counts present, the four yesterday columns are NA
   * together, and exactly for the first row of a group; so testing
   * cases_yesterday alone, as the fill does, covers all four.
   */
  lemma LagLockstep(rows: seq<Row>, i: nat)
    requires AllJoined(rows) && i < |rows|
    ensures Lagged(rows)[i].casesYesterday.None? <==> IsGroupFirst(rows, i)
    ensures Lagged(rows)[i].deathsYesterday.None? <==> IsGroupFirst(rows, i)
    ensures Lagged(rows)[i].cases100kYesterday.None? <==> IsGroupFirst(rows, i)
    ensures Lagged(rows)[i].deaths100kYesterday.None? <==> IsGroupFirst(rows, i)
  {
    NoPreviousIffFirst(rows, i);
  }

  /**
   * The first row of a group gets 0 in all four yesterday columns, so each
   * daily value equals the row's own cumulative value.
   */
  lemma FirstRowDaily(rows: seq<Row>, i: nat)
    requires AllJoined(rows) && i < |rows| && IsGroupFirst(rows, i)
    ensures var d := Differenced(LagsFilled(Lagged(rows)))[i];
      && d.casesYesterday == Some(0) && d.deathsYesterday == Some(0)
      && d.cases100kYesterday == Some(0.0) && d.deaths100kYesterday == Some(0.0)
      && d.casesDaily == Some(rows[i].cases) && d.deathsDaily == Some(rows[i].deaths)
      && d.cases100kDaily == rows[i].cases100k && d.deaths100kDaily == rows[i].deaths100k
  {
    NoPreviousIffFirst(rows, i);
  }

  /** Any later row's daily values are its values minus those of its group predecessor. */
  lemma LaterRowDaily(rows: seq<Row>, i: nat, j: int)
    requires AllJoined(rows) && i < |rows| && IsPredecessor(rows, i, j)
    ensures var d := Differenced(LagsFilled(Lagged(rows)))[i];
      && d.casesDaily == Some(rows[i].cases - rows[j].cases)
      && d.deathsDaily == Some(rows[i].deaths - rows[j].deaths)
      && d.cases100kDaily == Some(rows[i].cases100k.value - rows[j].cases100k.value)
      && d.deaths100kDaily == Some(rows[i].deaths100k.value - rows[j].deaths100k.value)
  {
    PreviousIsPredecessor(rows, i, j);
  }

  /** With distinct dates per group, the predecessor is the group's row with the latest earlier date. */
  lemma ChronologicalPredecessor(rows: seq<Row>, i: nat, j: int)
    requires DistinctDatesInGroups(rows) && i < |rows| && 0 <= j < |rows|
    ensures IsPredecessor(rows, i, j) <==>
      && SameGroup(rows[j], rows[i]) && rows[j].date < rows[i].date
      && forall k :: 0 <= k < |rows| && SameGroup(rows[k], rows[i]) && rows[k].date < rows[i].date ==>
           rows[k].date <= rows[j].date
  {
    if IsPredecessor(rows, i, j) {
      forall k | 0 <= k < |rows| && SameGroup(rows[k], rows[i]) && rows[k].date < rows[i].date
        ensures rows[k].date <= rows[j].date
      {
        assert Earlier(rows, i, k);
      }
    }
  }

  /** With distinct dates per group, a group's first row is its earliest-dated row. */
  lemma ChronologicalFirst(rows: seq<Row>, i: nat)
    requires DistinctDatesInGroups(rows) && i < |rows|
    ensures IsGroupFirst(rows, i) <==>
      forall k :: 0 <= k < |rows| && SameGroup(rows[k], rows[i]) ==> rows[i].date <= rows[k].date
  {
    if IsGroupFirst(rows, i) {
      forall k | 0 <= k < |rows| && SameGroup(rows[k], rows[i])
        ensures rows[i].date <= rows[k].date
      {
        assert !Earlier(rows, i, k);
      }
    }
  }
}
