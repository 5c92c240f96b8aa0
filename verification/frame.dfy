/**
 * The working table that the dataset builder changes in place: one method
 * per in-place statement (the join update, the row deletion, the grouped
 * lag update, the fill, the difference update, the column deletion and the
 * two masked assignments).
 */
module Frame {
  import opened Wrappers
  import opened Seqs
  import opened Counties

  class CountiesFrame {
    var columns: seq<string>
    var rows: seq<Row>

    /**
     * A row holds a value in an added column only when the table has that
     * column. Every method keeps it, so the tables built from the frame never
     * carry a value under a column they do not list (Split.DatasetsFit).
     */
    ghost predicate Valid()
      reads this
    {
      TableFits(rows, columns)
    }

    /** The table as read: the six columns of the case/death file, nothing added yet. */
    constructor (observations: seq<Observation>)
      ensures Valid()
      ensures columns == BaseColumns && rows == Initial(observations)
    {
      columns := BaseColumns;
      rows := Initial(observations);
    }

    /** Adds pop, pop100k, cases100k and deaths100k through the left join on fips. */
    method Join(index: map<string, int>)
      requires Valid() && NonZeroPopulations(index)
      modifies this
      ensures Valid()
      ensures columns == WithNames(old(columns), JoinColumns)
      ensures rows == Joined(old(rows), index)
      ensures |rows| == |old(rows)|
      ensures forall i :: 0 <= i < |rows| ==>
        (rows[i].pop.Some? <==> old(rows)[i].fips.Some? && old(rows)[i].fips.value in index)
    {
      JoinedFits(rows, columns, index);
      rows := Joined(rows, index);
      columns := WithNames(columns, JoinColumns);
    }

    /** Deletes the rows whose pop is NA. */
    method DeleteUnmatched()
      requires Valid()
      modifies this
      ensures Valid() && columns == old(columns)
      ensures rows == Matched(old(rows))
      ensures forall r :: r in rows <==> r in old(rows) && r.pop.Some?
      ensures Subsequence(rows, old(rows)) && |rows| <= |old(rows)|
    {
      FilterIsSubsequence(rows, HasPopulation);
      MatchedFits(rows, columns);
      rows := Matched(rows);
    }

    /** Sets the four yesterday columns from the previous row of each (state, county) group in date order. */
    method ShiftLags()
      requires Valid()
      modifies this
      ensures Valid()
      ensures columns == WithNames(old(columns), LagColumns)
      ensures rows == Lagged(old(rows))
    {
      LaggedFits(rows, columns);
      rows := Lagged(rows);
      columns := WithNames(columns, LagColumns);
    }

    /** Sets all four yesterday columns to 0 in the rows whose cases_yesterday is NA. */
    method FillMissingLags()
      requires Valid()
      requires forall c :: c in LagColumns ==> c in columns
      modifies this
      ensures Valid() && columns == old(columns)
      ensures rows == LagsFilled(old(rows))
      ensures forall r :: r in rows ==> r.casesYesterday.Some?
    {
      LagsFilledFits(rows, columns);
      rows := LagsFilled(rows);
    }

    /** Adds the four daily columns: each value minus its yesterday value. */
    method Differentiate()
      requires Valid()
      modifies this
      ensures Valid()
      ensures columns == WithNames(old(columns), DailyColumns)
      ensures rows == Differenced(old(rows))
    {
      DifferencedFits(rows, columns);
      rows := Differenced(rows);
      columns := WithNames(columns, DailyColumns);
    }

    /** Deletes the four yesterday columns. */
    method DeleteLagColumns()
      requires Valid()
      modifies this
      ensures Valid()
      ensures columns == WithoutNames(old(columns), LagColumns)
      ensures forall c :: c in columns <==> c in old(columns) && c !in LagColumns
      ensures rows == LagsDropped(old(rows))
    {
      LagsDroppedFits(rows, columns);
      rows := LagsDropped(rows);
      columns := WithoutNames(columns, LagColumns);
    }

    /** The two masked assignments that set negative daily cases and deaths (and their 100k partners) to 0. */
    method ClampNegatives()
      requires Valid()
      requires "cases100k_daily" in columns && "deaths100k_daily" in columns
      modifies this
      ensures Valid() && columns == old(columns)
      ensures rows == Clamped(old(rows))
      ensures forall r :: r in rows ==>
        (r.casesDaily.Some? ==> r.casesDaily.value >= 0) && (r.deathsDaily.Some? ==> r.deathsDaily.value >= 0)
    {
      ClampedFits(rows, columns);
      rows := Clamped(rows);
    }
  }
}
