/** The moving average of `kdb.h` (`kdb_sma`), which subtracts two running sums,
    and a corrected window average that divides the total of exactly `frame`
    values by `frame`. */
module Window {
  import opened Ints
  import opened Stats
  import opened Store
  import opened Aggregate

  /** The start index `index - frame + 1`, computed in `uint32_t`: it wraps
      around past zero. */
  function StartIndex(index: U32, frame: U32): (s: U32)
    requires frame > 0
    ensures frame <= index + 1 ==> s == index - frame + 1
    ensures index + 1 < frame ==> s == index - frame + 1 + U32_MOD
  {
    WrapU32(index - frame + 1);
    (index - frame + 1) % U32_MOD
  }

  /** Reduction modulo 2³² of a number less than 2³² away from zero. */
  lemma WrapU32(x: int)
    requires -U32_MOD < x < U32_MOD
    ensures x % U32_MOD == if x >= 0 then x else x + U32_MOD
  {
    var y := if x >= 0 then x else x + U32_MOD;
    assert 0 <= y < U32_MOD && (x == y || x == y - U32_MOD);
  }

  /** `kdb_sma` as the source computes it: 0 on a closed handle or an empty
      frame, 0 if a read fails, and otherwise the running sum at `index` minus
      the running sum at the start index, over `frame`. A record outside
      `[0, count)` reads as a zero record, so its running sum counts as 0. */
  function Sma(db: Handle, index: U32, frame: U32): (s: real)
    ensures !Ready(db) || frame == 0 ==> s == 0.0
    ensures Ready(db) && frame > 0 && !(GetData(db, StartIndex(index, frame)).ok && GetData(db, index).ok) ==>
              s == 0.0
    ensures Ready(db) && frame > 0 && GetData(db, StartIndex(index, frame)).ok && GetData(db, index).ok ==>
              s * frame as real == GetData(db, index).record.sum - GetData(db, StartIndex(index, frame)).record.sum
  {
    if !Ready(db) || frame == 0 then 0.0
    else
      var initial := GetData(db, StartIndex(index, frame));
      if !initial.ok then 0.0
      else
        var final := GetData(db, index);
        if !final.ok then 0.0
        else (final.record.sum - initial.record.sum) / frame as real
  }

  /** On a consistent store, a running sum is the total of the values up to it. */
  lemma RunningSum(db: Handle, i: nat)
    requires Consistent(db) && i < db.header.count
    ensures GetData(db, i).record.sum == Total(StoredValues(db)[..i + 1])
  {
  }

  /** The total of the values in `[lo, hi)` is the difference of two running
      totals. */
  lemma TotalOfSlice(vs: seq<real>, lo: nat, hi: nat)
    requires lo <= hi <= |vs|
    ensures Total(vs[..hi]) - Total(vs[..lo]) == Total(vs[lo..hi])
  {
    assert vs[..hi] == vs[..lo] + vs[lo..hi];
    TotalAppend(vs[..lo], vs[lo..hi]);
  }

  /** What `kdb_sma` returns for a window that lies inside the store: the total
      of the `frame - 1` values after the start record, divided by `frame`.
      The start record's own value is left out. */
  lemma SmaAsWritten(db: Handle, index: U32, frame: U32)
    requires Consistent(db) && 0 < frame && frame <= index + 1 && index < db.header.count
    ensures Sma(db, index, frame) ==
              Total(StoredValues(db)[index - frame + 2 .. index + 1]) / frame as real
  {
    var vs := StoredValues(db);
    var start := index - frame + 1;
    assert StartIndex(index, frame) == start;
    RunningSum(db, start);
    RunningSum(db, index);
    var a, b := GetData(db, start), GetData(db, index);
    assert a.ok && b.ok;
    assert Sma(db, index, frame) == (b.record.sum - a.record.sum) / frame as real;
    TotalOfSlice(vs, start + 1, index + 1);
  }

  /** What `kdb_sma` returns when the start index wraps to a record past the
      end: the zero record counts as a running sum of 0, so the result is the
      total of all values up to `index` divided by `frame`. */
  lemma SmaShortWindow(db: Handle, index: U32, frame: U32)
    requires Consistent(db) && index + 1 < frame && index < db.header.count
    requires StartIndex(index, frame) >= db.header.count
    ensures Sma(db, index, frame) == Total(StoredValues(db)[..index + 1]) / frame as real
  {
    RunningSum(db, index);
    var a, b := GetData(db, StartIndex(index, frame)), GetData(db, index);
    assert a.ok && a.record.sum == 0.0 && b.ok;
    assert Sma(db, index, frame) == (b.record.sum - 0.0) / frame as real;
  }

  /** The windowed average meant by the running-sum design: the mean of the
      `frame` values ending at `index`, and 0 for an empty frame or a window
      that does not lie inside the store. */
  function WindowAverage(db: Handle, index: U32, frame: U32): (s: real)
    ensures !Ready(db) || frame == 0 || index >= db.header.count || index + 1 < frame ==> s == 0.0
  {
    if !Ready(db) || frame == 0 || index >= db.header.count || index + 1 < frame then 0.0
    else
      var final := GetData(db, index);
      if !final.ok then 0.0
      else if index + 1 == frame then final.record.sum / frame as real
      else
        var before := GetData(db, index - frame);
        if !before.ok then 0.0
        else (final.record.sum - before.record.sum) / frame as real
  }

  /** On a consistent store, the corrected window average is the mean of the
      `frame` values ending at `index`. */
  lemma WindowAverageIsMean(db: Handle, index: U32, frame: U32)
    requires Consistent(db) && 0 < frame && frame <= index + 1 && index < db.header.count
    ensures WindowAverage(db, index, frame) ==
              Total(StoredValues(db)[index + 1 - frame .. index + 1]) / frame as real
  {
    var vs := StoredValues(db);
    var lo := index + 1 - frame;
    RunningSum(db, index);
    TotalOfSlice(vs, lo, index + 1);
    var b := GetData(db, index);
    assert b.ok;
    if index + 1 > frame {
      RunningSum(db, index - frame);
      var a := GetData(db, index - frame);
      assert a.ok;
      assert WindowAverage(db, index, frame) == (b.record.sum - a.record.sum) / frame as real;
    } else {
      assert vs[..0] == [];
      assert WindowAverage(db, index, frame) == b.record.sum / frame as real;
    }
  }

}
