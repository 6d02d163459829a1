/** A worked example: create the store "T", append 1, 2 and 3, query it, close
    it and open it again. It also pins down, on concrete numbers, where the
    source's moving average departs from the mean of the window. */
module Scenario {
  import opened ExtReal
  import opened Stats
  import opened Store
  import opened Aggregate
  import opened Window

  /** The store "T" created by a float build, with 1, 2 and 3 appended at
      timestamps 0, 1 and 2, every disk operation succeeding. */
  function ThreeSamples(): Handle {
    var s0 := Initialize(CLOSED, Absent, "T", Single, true, true).db;
    var s1 := Append(s0, 0, 1.0, true, true).db;
    var s2 := Append(s1, 1, 2.0, true, true).db;
    Append(s2, 2, 3.0, true, true).db
  }

  /** The example store is consistent, holds 1, 2, 3, and keeps the name and
      version it was created with. */
  lemma ThreeSamplesIsConsistent()
    ensures Consistent(ThreeSamples())
    ensures StoredValues(ThreeSamples()) == [1.0, 2.0, 3.0]
    ensures ThreeSamples().header.name == "T" && ThreeSamples().header.version == VERSION
  {
    var s0 := Initialize(CLOSED, Absent, "T", Single, true, true).db;
    CreatedIsConsistent(CLOSED, "T", Single, true, true);
    assert StoredValues(s0) == [];
    AppendKeepsConsistent(s0, 0, 1.0, true, true);
    var s1 := Append(s0, 0, 1.0, true, true).db;
    AppendKeepsConsistent(s1, 1, 2.0, true, true);
    var s2 := Append(s1, 1, 2.0, true, true).db;
    AppendKeepsConsistent(s2, 2, 3.0, true, true);
  }

  lemma TotalOneTwoThree(vs: seq<real>)
    requires vs == [1.0, 2.0, 3.0]
    ensures Total(vs) == 6.0 && MinOf(vs) == Fin(1.0) && MaxOf(vs) == Fin(3.0)
    ensures Total(vs[..1]) == 1.0 && Total(vs[1..3]) == 5.0 && Total(vs[2..3]) == 3.0
  {
    assert [1.0][..0] == [] && [2.0][..0] == [] && [3.0][..0] == [];
    assert Total([1.0]) == 1.0 && Total([2.0]) == 2.0 && Total([3.0]) == 3.0;
    assert [1.0, 2.0][..1] == [1.0] && [2.0, 3.0][..1] == [2.0];
    assert Total([1.0, 2.0]) == 3.0 && Total([2.0, 3.0]) == 5.0;
    assert MinOf([1.0]) == Fin(1.0) && MaxOf([1.0]) == Fin(1.0);
    assert MinOf([1.0, 2.0]) == Fin(1.0) && MaxOf([1.0, 2.0]) == Fin(2.0);
    assert vs[..2] == [1.0, 2.0] && vs[..1] == [1.0] && vs[1..3] == [2.0, 3.0] && vs[2..3] == [3.0];
  }

  /** The median of 1, 2, 3 is 2: the values are already sorted. */
  lemma MedianOneTwoThree(vs: seq<real>)
    requires vs == [1.0, 2.0, 3.0]
    ensures Median(vs) == 2.0
  {
    var r := Sort(vs);
    assert Sorted(vs) by {
      forall i, j | 0 <= i < j < |vs|
        ensures vs[i] <= vs[j]
      {
      }
    }
    SortedIsUnique(r, vs);
    assert MiddleOf(vs) == vs[1];
  }

  /** Any consistent store holding 1, 2, 3 has count 3, sum 6, average 2,
      min 1 and max 3 in its header. */
  lemma OneTwoThreeHeader(db: Handle)
    requires Consistent(db) && StoredValues(db) == [1.0, 2.0, 3.0]
    ensures Count(db) == 3 && Sum(db) == 6.0 && Average(db) == 2.0
    ensures Minimum(db) == Fin(1.0) && Maximum(db) == Fin(3.0)
  {
    TotalOneTwoThree(StoredValues(db));
    assert db.header.count == 3;
  }

  /** On a store holding 1, 2, 3 the window average of the last two values is 2.5. */
  lemma OneTwoThreeWindow(db: Handle)
    requires Consistent(db) && StoredValues(db) == [1.0, 2.0, 3.0]
    ensures WindowAverage(db, 2, 2) == 2.5
  {
    var vs := StoredValues(db);
    TotalOneTwoThree(vs);
    WindowAverageIsMean(db, 2, 2);
    var t := Total(vs[1..3]);
    assert t == 5.0;
    assert WindowAverage(db, 2, 2) == t / 2.0;
  }

  /** Any consistent store holding 1, 2, 3 answers the header's statistics
      above, a median of 2, and a window average of 2.5 over the last two
      values. */
  lemma OneTwoThreeStatistics(db: Handle)
    requires Consistent(db) && StoredValues(db) == [1.0, 2.0, 3.0]
    ensures Count(db) == 3 && Sum(db) == 6.0 && Average(db) == 2.0
    ensures Minimum(db) == Fin(1.0) && Maximum(db) == Fin(3.0)
    ensures MedianOf(db, true, true).value == Fin(2.0)
    ensures WindowAverage(db, 2, 2) == 2.5
  {
    var vs := StoredValues(db);
    OneTwoThreeHeader(db);
    MedianCorrect(db, true, true);
    MedianOneTwoThree(vs);
    OneTwoThreeWindow(db);
  }

  /** The example: the statistics above, and closing and reopening "T" gives
      back the same store. */
  lemma ExampleScenario()
    ensures var db := ThreeSamples();
            && Count(db) == 3 && Sum(db) == 6.0 && Average(db) == 2.0
            && Minimum(db) == Fin(1.0) && Maximum(db) == Fin(3.0)
            && MedianOf(db, true, true).value == Fin(2.0)
            && WindowAverage(db, 2, 2) == 2.5
            && Initialize(Finalize(db, true).db, Existing(db.file.value), "T", Single, true, true) == Step(true, db)
  {
    var db := ThreeSamples();
    ThreeSamplesIsConsistent();
    OneTwoThreeStatistics(db);
    ReopenRoundTrip(db, true, Single, true, true);
  }

  /** The source's moving average over the last two of 1, 2, 3 is 1.5, not
      the mean 2.5: the start record's value is subtracted away. */
  lemma SmaOffByOneExample(db: Handle)
    requires Consistent(db) && StoredValues(db) == [1.0, 2.0, 3.0]
    ensures Sma(db, 2, 2) == 1.5
    ensures WindowAverage(db, 2, 2) == 2.5
  {
    var vs := StoredValues(db);
    TotalOneTwoThree(vs);
    SmaAsWritten(db, 2, 2);
    var t := Total(vs[2..3]);
    assert t == 3.0;
    assert Sma(db, 2, 2) == t / 2.0;
    OneTwoThreeWindow(db);
  }

  /** A window reaching before the first record is not reported as 0: at index
      0 with frame 2 the start index wraps to 2³² − 1, reads as a zero record,
      and the result is 1/2. One past the end, the final record reads as a
      zero record and the result is negative. The corrected average is 0 in
      both cases. */
  lemma SmaOutOfRangeExample(db: Handle)
    requires Consistent(db) && StoredValues(db) == [1.0, 2.0, 3.0]
    ensures Sma(db, 0, 2) == 0.5 && WindowAverage(db, 0, 2) == 0.0
    ensures Sma(db, 3, 2) == -3.0 && WindowAverage(db, 3, 2) == 0.0
  {
    var vs := StoredValues(db);
    TotalOneTwoThree(vs);
    SmaShortWindow(db, 0, 2);
    RunningSum(db, 2);
    assert vs[..3] == vs;
    var a, b := GetData(db, 2), GetData(db, 3);
    assert a.ok && a.record.sum == 6.0 && b.ok && b.record.sum == 0.0;
    assert Sma(db, 3, 2) == (0.0 - 6.0) / 2.0;
  }

  /** Both discrepancies hold on the example store itself. */
  lemma SmaExamplesOnThreeSamples()
    ensures Sma(ThreeSamples(), 2, 2) == 1.5 && WindowAverage(ThreeSamples(), 2, 2) == 2.5
    ensures Sma(ThreeSamples(), 0, 2) == 0.5 && Sma(ThreeSamples(), 3, 2) == -3.0
  {
    ThreeSamplesIsConsistent();
    SmaOffByOneExample(ThreeSamples());
    SmaOutOfRangeExample(ThreeSamples());
  }

}
