/** The statistics of a store: the incremental update of the header on append
    (`kdb_add_ts`), the lazily computed and cached variance and median
    (`kdb_variance`, `kdb_median`), the standard deviation's propagation of an
    unknown variance (`kdb_stddev`), and the normalised fetches. `Consistent`
    says what a well-kept store looks like; the lemmas show that the operations
    keep it so and that the statistics then agree with their definitions over
    the stored values. */
module Aggregate {
  import opened Options
  import opened Ints
  import opened ExtReal
  import opened Stats
  import opened Store

  /** The values of the records, in order. */
  function Values(rs: seq<Record>): (vs: seq<real>)
    ensures |vs| == |rs|
    ensures forall i :: 0 <= i < |rs| ==> vs[i] == rs[i].value
  {
    seq(|rs|, i requires 0 <= i < |rs| => rs[i].value)
  }

  /** Read the values of records `0 .. n-1` through `GetData`, as the scans of
      `kdb_variance` and `kdb_median` do; `None` when a read fails. */
  function Scan(db: Handle, n: nat): (r: Option<seq<real>>)
    requires Ready(db) && n <= db.header.count
    ensures r.Some? ==> |r.value| == n
  {
    if n == 0 then Some([])
    else
      match Scan(db, n - 1)
      case None => None
      case Some(vs) =>
        var f := GetData(db, n - 1);
        if f.ok then Some(vs + [f.record.value]) else None
  }

  /** All values the header counts. */
  function Samples(db: Handle): (r: Option<seq<real>>)
    requires Ready(db)
    ensures r.Some? ==> |r.value| == db.header.count
  {
    Scan(db, db.header.count)
  }

  /** A scan succeeds exactly when the file holds the records it reads, and
      then it yields their values. */
  lemma {:induction false} ScanReadsRecords(db: Handle, n: nat)
    requires Ready(db) && n <= db.header.count
    ensures Scan(db, n).Some? <==> n == 0 || (db.file.Some? && n <= |db.file.value.records|)
    ensures Scan(db, n).Some? && db.file.Some? ==> Scan(db, n).value == Values(db.file.value.records[..n])
  {
    if n > 0 {
      ScanReadsRecords(db, n - 1);
      if Scan(db, n).Some? {
        var rs := db.file.value.records;
        assert Values(rs[..n]) == Values(rs[..n - 1]) + [rs[n - 1].value];
      }
    }
  }

  // ---------------------------------------------------------------------------
  // What a well-kept store looks like

  /** An open store whose file holds its header and exactly `count` records,
      each record's running sum is the total of the values up to it, the
      header's aggregates are those of the values, and a cache bit is set only
      when the cached statistic is the right one. */
  ghost predicate Consistent(db: Handle) {
    && Ready(db)
    && db.file.Some?
    && var h, rs := db.header, db.file.value.records;
       var vs := Values(rs);
       && db.file.value.header == Some(h)
       && |rs| == h.count
       && PrefixSums(rs)
       && h.sum == Total(vs)
       && h.average == (if h.count == 0 then 0.0 else h.sum / h.count as real)
       && h.min == MinOf(vs)
       && h.max == MaxOf(vs)
       && (h.flags & VARIANCE_CALCULATED != 0 ==>
             h.count > 0 && h.variance == Fin(PopulationVariance(vs)))
       && (h.flags & MEDIAN_CALCULATED != 0 ==>
             h.count > 0 && h.median == Fin(Median(vs)))
  }

  /** Every record's running sum is the total of the values up to and
      including it. */
  ghost predicate PrefixSums(rs: seq<Record>) {
    forall i :: 0 <= i < |rs| ==> rs[i].sum == Total(Values(rs)[..i + 1])
  }

  /** A record whose running sum extends the last total keeps the running
      sums right, and its value comes last. */
  lemma PrefixSumsExtend(rs: seq<Record>, rec: Record)
    requires PrefixSums(rs) && rec.sum == Total(Values(rs)) + rec.value
    ensures Values(rs + [rec]) == Values(rs) + [rec.value]
    ensures PrefixSums(rs + [rec])
  {
    var rs', vs, vs' := rs + [rec], Values(rs), Values(rs + [rec]);
    assert vs' == vs + [rec.value];
    assert vs'[..|vs'| - 1] == vs;
    forall i | 0 <= i < |rs'|
      ensures rs'[i].sum == Total(vs'[..i + 1])
    {
      if i < |rs| {
        assert vs'[..i + 1] == vs[..i + 1];
      } else {
        assert vs'[..i + 1] == vs';
      }
    }
  }

  /** The values a consistent store holds. */
  function StoredValues(db: Handle): seq<real>
    requires db.Db? && db.file.Some?
  {
    Values(db.file.value.records)
  }

  /** A consistent store's scan reads back all of its values. */
  lemma SamplesOfConsistent(db: Handle)
    requires Consistent(db)
    ensures Samples(db) == Some(StoredValues(db))
  {
    var rs := db.file.value.records;
    ScanReadsRecords(db, db.header.count);
    assert rs[..db.header.count] == rs;
  }

  /** A newly created store is consistent. */
  lemma CreatedIsConsistent(db: Handle, name: string, p: Precision, createOk: bool, writeOk: bool)
    requires db.Db? && !db.initialized
    requires Initialize(db, Absent, name, p, createOk, writeOk).ok
    ensures Consistent(Initialize(db, Absent, name, p, createOk, writeOk).db)
  {
    var r := Initialize(db, Absent, name, p, createOk, writeOk);
    assert r.db.file.value.records == [];
    assert Values([]) == [];
  }

  /** On a consistent store the accessors report the statistics of the stored
      values: their number, their total, their mean, and their extremes (+∞
      and −∞ when there are none). */
  lemma AccessorsOfConsistent(db: Handle)
    requires Consistent(db)
    ensures Count(db) == |StoredValues(db)|
    ensures Sum(db) == Total(StoredValues(db))
    ensures Average(db) == if Count(db) == 0 then 0.0 else Mean(StoredValues(db))
    ensures Minimum(db) == MinOf(StoredValues(db)) && Maximum(db) == MaxOf(StoredValues(db))
  {
  }

  // ---------------------------------------------------------------------------
  // Append

  /** `kdb_add_ts`. On an open handle: clear both cache bits, count the value,
      add it to the sum, recompute the average, widen min and max, mark
      variance and median unknown, write the header, then append the record
      carrying the new sum. If either write fails, the in-memory header goes
      back to what it was; a record write that fails after the header write
      leaves the file's header ahead of its records. */
  function Append(db: Handle, timestamp: U64, value: real, headerOk: bool, dataOk: bool): (r: Step)
    requires Ready(db) ==> db.header.count + 1 < U32_MOD
    ensures r.ok <==> Ready(db) && db.file.Some? && headerOk && dataOk
    ensures !r.ok ==> r.db.Db? == db.Db? && (db.Db? ==> r.db.header == db.header && r.db.initialized == db.initialized)
    ensures !Ready(db) || db.file.None? || !headerOk ==> r.db == db
    ensures r.ok ==> Ready(r.db)
    ensures r.ok ==>
              var h, h' := db.header, r.db.header;
              && h'.count == h.count + 1
              && h'.sum == h.sum + value
              && h'.average * (h'.count as real) == h'.sum
              && h'.min == Min(h.min, Fin(value)) && h'.max == Max(h.max, Fin(value))
              && h'.flags & (VARIANCE_CALCULATED | MEDIAN_CALCULATED) == 0
              && h'.flags & (USE_DOUBLE | USE_LONG_DOUBLE) == h.flags & (USE_DOUBLE | USE_LONG_DOUBLE)
              && h'.variance == PosInf && h'.median == PosInf
              && h'.version == h.version && h'.name == h.name
              && r.db.file == Some(File(Some(h'), db.file.value.records + [Record(timestamp, value, h'.sum)]))
    ensures Ready(db) && db.file.Some? && headerOk && !dataOk ==>
              && r.db.Db? && r.db.file.Some?
              && r.db.file.value.records == db.file.value.records
              && r.db.file.value.header.Some?
              && r.db.file.value.header.value.count == db.header.count + 1
  {
    if !Ready(db) then Step(false, db)
    else
      var h := db.header;
      var count := h.count + 1;
      var sum := h.sum + value;
      var h' := h.(flags := h.flags & !VARIANCE_CALCULATED & !MEDIAN_CALCULATED,
                   count := count,
                   sum := sum,
                   average := sum / count as real,
                   min := Min(h.min, Fin(value)),
                   max := Max(h.max, Fin(value)),
                   variance := PosInf,
                   median := PosInf);
      var w := WriteHeader(db.(header := h'), headerOk);
      if !w.ok then Step(false, db)
      else
        var d := WriteData(w.db, Record(timestamp, value, sum), dataOk);
        if !d.ok then Step(false, d.db.(header := h))
        else d
  }

  /** A successful append keeps a store consistent and adds the value at the
      end of its values; a failed header write leaves the store as it was. */
  lemma AppendKeepsConsistent(db: Handle, timestamp: U64, value: real, headerOk: bool, dataOk: bool)
    requires Consistent(db) && db.header.count + 1 < U32_MOD
    ensures var r := Append(db, timestamp, value, headerOk, dataOk);
            r.ok ==> Consistent(r.db) && StoredValues(r.db) == StoredValues(db) + [value]
    ensures !headerOk ==> Append(db, timestamp, value, headerOk, dataOk).db == db
  {
    if Append(db, timestamp, value, headerOk, dataOk).ok {
      AppendedRecords(db, timestamp, value, headerOk, dataOk);
      AppendedHeader(db, timestamp, value, headerOk, dataOk);
    }
  }

  /** After a successful append the records carry the values with the new
      value last, and every running sum is still the total up to its record. */
  lemma AppendedRecords(db: Handle, timestamp: U64, value: real, headerOk: bool, dataOk: bool)
    requires Consistent(db) && db.header.count + 1 < U32_MOD
    requires Append(db, timestamp, value, headerOk, dataOk).ok
    ensures var r := Append(db, timestamp, value, headerOk, dataOk);
            && StoredValues(r.db) == StoredValues(db) + [value]
            && |r.db.file.value.records| == r.db.header.count
            && PrefixSums(r.db.file.value.records)
  {
    var r := Append(db, timestamp, value, headerOk, dataOk);
    var rec := Record(timestamp, value, r.db.header.sum);
    assert r.db.file.value.records == db.file.value.records + [rec];
    PrefixSumsExtend(db.file.value.records, rec);
  }

  /** After a successful append the header holds the aggregates of the values
      with the new value last, in memory and on disk, and no cache bit. */
  lemma AppendedHeader(db: Handle, timestamp: U64, value: real, headerOk: bool, dataOk: bool)
    requires Consistent(db) && db.header.count + 1 < U32_MOD
    requires Append(db, timestamp, value, headerOk, dataOk).ok
    ensures var r := Append(db, timestamp, value, headerOk, dataOk);
            var h', vs' := r.db.header, StoredValues(db) + [value];
            && r.db.file.value.header == Some(h')
            && h'.sum == Total(vs')
            && h'.average == h'.sum / h'.count as real
            && h'.min == MinOf(vs') && h'.max == MaxOf(vs')
            && h'.flags & VARIANCE_CALCULATED == 0 && h'.flags & MEDIAN_CALCULATED == 0
  {
    var vs := StoredValues(db);
    var vs' := vs + [value];
    assert vs'[..|vs'| - 1] == vs;
  }

  // ---------------------------------------------------------------------------
  // Variance and standard deviation

  /** A statistic, and the handle after computing it. */
  datatype Query = Query(value: EReal, db: Handle)

  /** `kdb_variance`. +∞ on a closed or empty store (emptiness is checked
      before the cache), the cached value when its bit is set, and otherwise
      Σ(v − average)² / count over a scan of the records, cached and written
      out; +∞, with the header restored, if a read or the header write fails. */
  function Variance(db: Handle, writeOk: bool): (q: Query)
    ensures !Ready(db) || db.header.count == 0 ==> q == Query(PosInf, db)
    ensures Ready(db) && db.header.count > 0 && db.header.flags & VARIANCE_CALCULATED != 0 ==>
              q == Query(db.header.variance, db)
    ensures Ready(db) && db.header.flags & VARIANCE_CALCULATED == 0 && Samples(db).None? ==>
              q == Query(PosInf, db)
    ensures Ready(db) && db.header.count > 0 && db.header.flags & VARIANCE_CALCULATED == 0 &&
            Samples(db).Some? ==>
              var v := SquaredDeviations(Samples(db).value, db.header.average) / db.header.count as real;
              var h' := db.header.(flags := db.header.flags | VARIANCE_CALCULATED, variance := Fin(v));
              q == (if writeOk && db.file.Some?
                    then Query(Fin(v), db.(header := h', file := Some(File(Some(h'), db.file.value.records))))
                    else Query(PosInf, db))
  {
    if !Ready(db) || db.header.count == 0 then Query(PosInf, db)
    else if db.header.flags & VARIANCE_CALCULATED != 0 then Query(db.header.variance, db)
    else
      match Samples(db)
      case None => Query(PosInf, db)
      case Some(vs) =>
        var v := SquaredDeviations(vs, db.header.average) / db.header.count as real;
        var h' := db.header.(flags := db.header.flags | VARIANCE_CALCULATED, variance := Fin(v));
        var w := WriteHeader(db.(header := h'), writeOk);
        if !w.ok then Query(PosInf, db) else Query(Fin(v), w.db)
  }

  /** The summation loop of `kdb_variance`, one record at a time through
      `GetData`, stopping at the first failed read. */
  method VarianceScan(db: Handle) returns (ok: bool, summation: real)
    requires Ready(db)
    ensures ok <==> Samples(db).Some?
    ensures ok ==> summation == SquaredDeviations(Samples(db).value, db.header.average)
  {
    var count := db.header.count;
    var average := db.header.average;
    ScanReadsRecords(db, count);
    summation := 0.0;
    var i := 0;
    while i < count
      invariant 0 <= i <= count
      invariant Scan(db, i).Some?
      invariant summation == SquaredDeviations(Scan(db, i).value, average)
    {
      var f := GetData(db, i);
      if !f.ok {
        ScanReadsRecords(db, i + 1);
        return false, summation;
      }
      var vs := Scan(db, i).value;
      var difference := f.record.value - average;
      assert (vs + [f.record.value])[..i] == vs;
      summation := summation + difference * difference;
      i := i + 1;
    }
    return true, summation;
  }

  /** On a consistent store with samples, the variance is the population
      variance of the stored values, unless it had to be computed and the
      header write failed, which gives +∞. */
  lemma VarianceCorrect(db: Handle, writeOk: bool)
    requires Consistent(db) && db.header.count > 0
    ensures Variance(db, writeOk).value ==
              if db.header.flags & VARIANCE_CALCULATED != 0 || writeOk
              then Fin(PopulationVariance(StoredValues(db)))
              else PosInf
  {
    SamplesOfConsistent(db);
  }

  /** Computing the variance keeps a store consistent. */
  lemma VarianceKeepsConsistent(db: Handle, writeOk: bool)
    requires Consistent(db)
    ensures Consistent(Variance(db, writeOk).db)
    ensures StoredValues(Variance(db, writeOk).db) == StoredValues(db)
  {
    if db.header.count > 0 {
      SamplesOfConsistent(db);
      var f := db.header.flags;
      assert (f | VARIANCE_CALCULATED) & MEDIAN_CALCULATED == f & MEDIAN_CALCULATED;
    }
  }

  /** Once computed, the variance is cached: asking again returns the same
      value without touching the store. */
  lemma VarianceCachedIsStable(db: Handle, writeOk: bool, writeOk2: bool)
    requires Variance(db, writeOk).value != PosInf
    ensures var q := Variance(db, writeOk);
            Variance(q.db, writeOk2) == q
  {
    var f := db.header.flags;
    assert (f | VARIANCE_CALCULATED) & VARIANCE_CALCULATED != 0;
  }

  /** The variance a consistent store reports is the mean of the squared
      values minus the square of the header's average. */
  lemma VarianceFromSquares(db: Handle, writeOk: bool)
    requires Consistent(db) && db.header.count > 0
    requires Variance(db, writeOk).value.Fin?
    ensures var vs := StoredValues(db);
            Variance(db, writeOk).value.r ==
              SumOfSquares(vs) / |vs| as real - Average(db) * Average(db)
  {
    var vs := StoredValues(db);
    VarianceCorrect(db, writeOk);
    assert Average(db) == Mean(vs);
    assert Mean(vs) * (|vs| as real) == Total(vs);
    VarianceIsMeanSquareMinusSquaredMean(vs, Mean(vs));
  }

  /** The square of what `kdb_stddev` returns, and the handle after it: the
      standard deviation is the square root of `squared`, which is +∞ exactly
      when the deviation is. */
  datatype Deviation = Deviation(squared: EReal, db: Handle)

  /** `kdb_stddev`: +∞ on a closed or empty store and whenever the variance is
      +∞, otherwise the root of the variance. */
  function StdDev(db: Handle, writeOk: bool): (d: Deviation)
    ensures !Ready(db) || db.header.count == 0 ==> d == Deviation(PosInf, db)
    ensures Ready(db) && db.header.count > 0 ==>
              d == Deviation(Variance(db, writeOk).value, Variance(db, writeOk).db)
  {
    if !Ready(db) || db.header.count == 0 then Deviation(PosInf, db)
    else
      var q := Variance(db, writeOk);
      Deviation(q.value, q.db)
  }

  /** On a consistent store with samples and a working disk, the standard
      deviation is the root of a finite, non-negative number. */
  lemma StdDevIsRealRoot(db: Handle, writeOk: bool)
    requires Consistent(db) && db.header.count > 0 && writeOk
    ensures StdDev(db, writeOk).squared == Fin(PopulationVariance(StoredValues(db)))
    ensures PopulationVariance(StoredValues(db)) >= 0.0
  {
    VarianceCorrect(db, writeOk);
    VarianceNonNegative(StoredValues(db));
  }

  // ---------------------------------------------------------------------------
  // Median

  /** `kdb_median`. +∞ on a closed or empty store, the cached value when its
      bit is set, and otherwise the middle of the sorted values (the mean of
      the two middle ones for an even count), cached and written out; +∞ with
      nothing cached if the buffer cannot be allocated (`allocOk`) or a read
      fails, and +∞ with the header restored if the header write fails. */
  function MedianOf(db: Handle, allocOk: bool, writeOk: bool): (q: Query)
    ensures !Ready(db) || db.header.count == 0 ==> q == Query(PosInf, db)
    ensures Ready(db) && db.header.count > 0 && db.header.flags & MEDIAN_CALCULATED != 0 ==>
              q == Query(db.header.median, db)
    ensures Ready(db) && db.header.flags & MEDIAN_CALCULATED == 0 && (!allocOk || Samples(db).None?) ==>
              q == Query(PosInf, db)
    ensures Ready(db) && db.header.count > 0 && db.header.flags & MEDIAN_CALCULATED == 0 &&
            allocOk && Samples(db).Some? ==>
              var m := Median(Samples(db).value);
              var h' := db.header.(flags := db.header.flags | MEDIAN_CALCULATED, median := Fin(m));
              q == (if writeOk && db.file.Some?
                    then Query(Fin(m), db.(header := h', file := Some(File(Some(h'), db.file.value.records))))
                    else Query(PosInf, db))
  {
    if !Ready(db) || db.header.count == 0 then Query(PosInf, db)
    else if db.header.flags & MEDIAN_CALCULATED != 0 then Query(db.header.median, db)
    else if !allocOk then Query(PosInf, db)
    else
      match Samples(db)
      case None => Query(PosInf, db)
      case Some(vs) =>
        var m := MiddleOf(Sort(vs));
        var h' := db.header.(flags := db.header.flags | MEDIAN_CALCULATED, median := Fin(m));
        var w := WriteHeader(db.(header := h'), writeOk);
        if !w.ok then Query(PosInf, db) else Query(Fin(m), w.db)
  }

  /** On a consistent store with samples, the median is the median of the
      stored values unless it had to be computed and the buffer or the header
      write failed, which gives +∞. */
  lemma MedianCorrect(db: Handle, allocOk: bool, writeOk: bool)
    requires Consistent(db) && db.header.count > 0
    ensures MedianOf(db, allocOk, writeOk).value ==
              if db.header.flags & MEDIAN_CALCULATED != 0 || (allocOk && writeOk)
              then Fin(Median(StoredValues(db)))
              else PosInf
  {
    SamplesOfConsistent(db);
  }

  /** Computing the median keeps a store consistent. */
  lemma MedianKeepsConsistent(db: Handle, allocOk: bool, writeOk: bool)
    requires Consistent(db)
    ensures Consistent(MedianOf(db, allocOk, writeOk).db)
    ensures StoredValues(MedianOf(db, allocOk, writeOk).db) == StoredValues(db)
  {
    if db.header.count > 0 {
      SamplesOfConsistent(db);
      var f := db.header.flags;
      assert (f | MEDIAN_CALCULATED) & VARIANCE_CALCULATED == f & VARIANCE_CALCULATED;
    }
  }

  /** Once computed, the median is cached: asking again returns the same value
      without touching the store. */
  lemma MedianCachedIsStable(db: Handle, allocOk: bool, writeOk: bool, allocOk2: bool, writeOk2: bool)
    requires MedianOf(db, allocOk, writeOk).value != PosInf
    ensures var q := MedianOf(db, allocOk, writeOk);
            MedianOf(q.db, allocOk2, writeOk2) == q
  {
    var f := db.header.flags;
    assert (f | MEDIAN_CALCULATED) & MEDIAN_CALCULATED != 0;
  }

  /** The cached median splits the stored values in halves. */
  lemma MedianSplitsStore(db: Handle, allocOk: bool, writeOk: bool)
    requires Consistent(db) && db.header.count > 0
    requires MedianOf(db, allocOk, writeOk).value.Fin?
    ensures var m := MedianOf(db, allocOk, writeOk).value.r;
            var vs := StoredValues(db);
            Below(vs, m) <= |vs| / 2 && Above(vs, m) <= |vs| / 2
  {
    MedianCorrect(db, allocOk, writeOk);
    MedianSplitsSamples(StoredValues(db));
  }

  // ---------------------------------------------------------------------------
  // Normalised fetches

  /** `kdb_get_data_normalized`: the record at `index`, its value mapped from
      `[min, max]` to `[0, 1]`. The mapping is undefined when the header's min
      and max are not two distinct numbers, so that case is excluded whenever
      the fetch succeeds. */
  function GetDataNormalized(db: Handle, index: I64): (r: Fetch)
    requires GetData(db, index).ok ==>
               db.header.min.Fin? && db.header.max.Fin? && db.header.min != db.header.max
    ensures r.ok == GetData(db, index).ok
    ensures r.ok ==>
              var f := GetData(db, index).record;
              && r.record.timestamp == f.timestamp && r.record.sum == f.sum
              && MapValue(r.record.value, 0.0, 1.0, db.header.min.r, db.header.max.r) == f.value
  {
    var f := GetData(db, index);
    if !f.ok then f
    else
      MapValueRoundTrip(f.record.value, db.header.min.r, db.header.max.r, 0.0, 1.0);
      Fetch(true, f.record.(value := MapValue(f.record.value, db.header.min.r, db.header.max.r, 0.0, 1.0)))
  }

  /** `kdb_get_data_normalized_neg`: the same, onto `[-1, 1]`. */
  function GetDataNormalizedNeg(db: Handle, index: I64): (r: Fetch)
    requires GetData(db, index).ok ==>
               db.header.min.Fin? && db.header.max.Fin? && db.header.min != db.header.max
    ensures r.ok == GetData(db, index).ok
    ensures r.ok ==>
              var f := GetData(db, index).record;
              && r.record.timestamp == f.timestamp && r.record.sum == f.sum
              && MapValue(r.record.value, -1.0, 1.0, db.header.min.r, db.header.max.r) == f.value
  {
    var f := GetData(db, index);
    if !f.ok then f
    else
      MapValueRoundTrip(f.record.value, db.header.min.r, db.header.max.r, -1.0, 1.0);
      Fetch(true, f.record.(value := MapValue(f.record.value, db.header.min.r, db.header.max.r, -1.0, 1.0)))
  }

  /** On a consistent store, a stored value normalises into `[0, 1]`, and into
      `[-1, 1]` for the signed variant. */
  lemma NormalizedInRange(db: Handle, index: I64)
    requires Consistent(db) && 0 <= index < db.header.count
    requires db.header.min != db.header.max
    ensures 0.0 <= GetDataNormalized(db, index).record.value <= 1.0
    ensures -1.0 <= GetDataNormalizedNeg(db, index).record.value <= 1.0
  {
    var vs := StoredValues(db);
    MinOfIsLeast(vs);
    MaxOfIsGreatest(vs);
    var v := vs[index];
    assert v in vs;
    var lo, hi := db.header.min.r, db.header.max.r;
    MapValueInRange(v, lo, hi, 0.0, 1.0);
    MapValueInRange(v, lo, hi, -1.0, 1.0);
  }

}
