# KrakluniaDB store engine in Dafny

A model of KrakluniaDB's single-header engine (`kdb.h`) and of the generic
fixed-capacity hash map it instantiates (`kdb_hashmap.h`), with proofs about
the model.

The engine keeps one file per time series. The file holds a header: version
tag, name, flags, count, sum, average, min, max, variance and median. After the
header come fixed-size records of (timestamp, value, running sum).

- Appending a value updates the header incrementally, writes the header, and
  appends a record.
- Variance and median are computed on demand by scanning the records. They are
  then cached in the header behind two flag bits.
- The moving average subtracts two running sums.

The modules are:

- `HashMap` (`hashmap.dfy`): the linear-probing map over an explicit slot
  sequence. It covers the shared probe loop, `get`, `set` and `remove`, plus
  a loop-level `Lookup` as the source writes it.
- `Registry` (`registry.dfy`): the two instances `kdb.h` declares.
  - The handle registry `dbs` has 32 slots, keyed by name with the byte-sum
    hash.
  - The value cache `cache` has 64 slots, keyed by an unsigned integer.
- `Store` (`store.dfy`): the header and record layout, the handle, and these
  operations:
  - `kdb_initialize`: open or create, then validate;
  - `kdb_finalize`;
  - the two disk writes;
  - `kdb_get_data`;
  - the header accessors.
- `Stats` (`stats.dfy`): `kdb_compare_values` and `kdb_map_value`, plus the
  reference definitions the store is proved against:
  - total, minimum and maximum;
  - population variance;
  - sorting with the comparator, and the median.
- `Aggregate` (`aggregate.dfy`): `kdb_add_ts`, `kdb_variance`, `kdb_stddev`,
  `kdb_median` and the normalised fetches. It also defines `Consistent`, the
  invariant of a well-kept store: the header agrees with the records, and a
  cache bit is set only when its cached value is right.
- `Window` (`window.dfy`): `kdb_sma` as written, and a corrected window
  average.
- `Scenario` (`scenario.dfy`): a worked store "T" holding 1, 2, 3.

Modelling choices:

- Sample values are exact reals.
- Min, max, variance and median are extended reals (`EReal`), because the
  source uses ±∞ as its "unknown / empty" sentinel.
- `uint32_t` and `int64_t` are subset types of `int`. The start index of
  `kdb_sma` wraps around and is written as an explicit reduction modulo 2³².
  The record count, incremented by `kdb_add_ts`, can wrap too; that case is
  excluded (see "## Left out").
- The file is abstracted to an optional header followed by the records
  written so far.
- Every disk or allocation step is a boolean argument that says whether it
  succeeded. A failed write is taken to leave the file as it was (see
  "## Left out" for what that assumes).
- A record read fails exactly when the header counts a record that the file
  does not hold (a short read).

Where the code and the intended design differ, the model follows the code.
`kdb_sma` is the case in point: see "## Findings".

## Model

| member | source | states |
|---|---|---|
| HashMap.Empty | kdb_hashmap.h:38 | The buffer starts with `capacity` slots, all unoccupied. |
| HashMap.Locate | kdb_hashmap.h:112-138 | The probe stops on the key's slot (hit) or the first free slot (vacant), or gives up after `capacity` tries. Every slot it passes before stopping holds another key. |
| HashMap.Lookup | kdb_hashmap.h:99-142 | The loop with `hash = (hash + 1) % CAPACITY`, stopping at a free slot or at the key, returns exactly what `Get` specifies. |
| HashMap.Get | kdb_hashmap.h:99-142 | Returns the value of the slot where the probe finds the key. Returns the default when the probe finds no such slot. |
| HashMap.Set | kdb_hashmap.h:144-199 | Fails, leaving the table unchanged, exactly when every probed slot holds another key. Otherwise it writes the entry into the slot where the probe stops and changes nothing else. |
| HashMap.Remove | kdb_hashmap.h:201-265 | Empties exactly the slot where the probe finds the key, and succeeds. Fails without changing anything when the probe does not reach the key. |
| HashMap.LocateIsFirstStop | kdb_hashmap.h:112-138 | There is exactly one try at which the probe stops, and `Locate` finds it. It is a hit exactly when the slot there holds the key. |
| HashMap.GetAfterSet | kdb_hashmap.h:99-199 | When some slot is free or holds the key, `get` after `set` of that key returns the value just set, whatever the table held before. |
| HashMap.GetAfterRemove | kdb_hashmap.h:99-265 | After a successful `remove`, `get` of that key returns the default. |
| HashMap.OccupancyBounds | kdb_hashmap.h:185-264 | `set` raises occupancy by at most one and never lowers it. A successful `remove` lowers it by exactly one; a failed one leaves it. |
| HashMap.SetSucceedsExactlyWithRoom | kdb_hashmap.h:159-188 | `set` succeeds exactly when some slot is free or already holds the key: the probe tries every slot before reporting failure. |
| HashMap.StoredIsFound | kdb_hashmap.h:112-138 | In a well-formed table (keys distinct, every entry reachable from its home), the probe for a stored key reaches that key's slot. |
| HashMap.GetIsExact | kdb_hashmap.h:99-142 | In a well-formed table, `get` returns the stored value whenever some slot holds the key. It returns the default only when no slot does. |
| HashMap.EmptyIsWellformed | kdb_hashmap.h:38 | The zero-initialised buffer is well formed. |
| HashMap.SetKeepsWellformed | kdb_hashmap.h:144-199 | `set` keeps a table well formed: keys stay distinct and every entry stays reachable. |
| Registry.NameHash | kdb_hashmap.h:43-57 | The byte-sum hash always lands inside the registry's 32 slots. |
| Registry.KeyHash | kdb_hashmap.h:109 | The integer key's hash always lands inside the cache's 64 slots. |
| Registry.NameHashIgnoresOrder | kdb_hashmap.h:43-57 | Reordering a name's parts does not change its hash, so such names share a home slot. |
| Registry.RegisterName | kdb.h:115-119 | Registering a handle under a name succeeds in a well-formed 32-slot registry with room, and the registry stays well formed. The name then looks up to that handle, and every other name looks up to what it did before. The empty registry is well formed (`HashMap.EmptyIsWellformed`). |
| Registry.RemoveHidesEntry | kdb_hashmap.h:247-262 | `remove` leaves no tombstone. On the cache, keys 1 and 65 share a home; after removing 1, `get(65)` returns the default although slot 2 still holds 65. Setting 65 again then stores the key twice. |
| Stats.Compare | kdb.h:155-171 | The comparator returns −1, 0 or 1 exactly when a < b, a = b or a > b. |
| Stats.MapValue | kdb.h:173-179 | The rescaling sends the source range's ends to the target range's ends. |
| Stats.MapValueRoundTrip | kdb.h:173-179 | Rescaling to another range and back gives the value back. |
| Stats.MapValueInRange | kdb.h:173-179 | A value inside the source range lands inside the target range. |
| Stats.Insert | kdb.h:155-171 | Inserting with the comparator keeps a sequence ascending and adds exactly the new element to its multiset. |
| Stats.Sort | kdb.h:943 | `qsort` with `kdb_compare_values` yields an ascending permutation of the values. |
| Stats.SortedIsUnique | kdb.h:943 | Any two ascending arrangements of the same multiset are equal, so the median does not depend on the sorting algorithm. |
| Stats.TotalAppend | kdb.h:750 | The sum of a concatenation is the sum of the parts, which is what makes running sums and window totals agree. |
| Stats.MinOfIsLeast | kdb.h:753-756 | The folded minimum belongs to the samples and lies below every sample. |
| Stats.MaxOfIsGreatest | kdb.h:758-761 | The folded maximum belongs to the samples and lies above every sample. |
| Stats.VarianceNonNegative | kdb.h:851-863 | The population variance of a non-empty sample sequence is non-negative. |
| Stats.VarianceIsMeanSquareMinusSquaredMean | kdb.h:851-863 | For the mean m, Σ(v − m)²/n equals Σv²/n − m², and it is non-negative. |
| Stats.MiddleOf | kdb.h:945-957 | On an ascending sequence, the value taken lies between the two middle elements, which coincide for an odd count. |
| Stats.MedianSplitsSamples | kdb.h:945-957 | At most half the samples lie strictly below the median, and at most half strictly above. |
| Stats.MiddleSplits | kdb.h:945-957 | The middle of an ascending sequence, or the mean of its two middle elements, splits it into halves. |
| ExtReal.Min | kdb.h:753-756 | The widened minimum is one of its two arguments and no greater than either, with ±∞ ordered as the C comparisons order them. |
| ExtReal.Max | kdb.h:758-761 | The widened maximum is one of its two arguments and no smaller than either. |
| Store.Compatible | kdb.h:542-558 | A build accepts a file exactly when the file's flags carry the build's own precision bit. A float build has no bit and accepts every file. |
| Store.Fresh | kdb.h:444-456 | A created header carries the current version, the name and the build's precision bit, which that build accepts. Its precision bits are exactly the build's own. It has no cache bit, count 0, sum 0, average 0, min +∞, max −∞, and variance and median +∞ (unknown). |
| Store.Finalize | kdb.h:642-683 | A null handle succeeds unchanged. The call fails, changing nothing, exactly when an open file does not close. Otherwise the handle becomes the cleared, closed handle. |
| Store.FinalizeIsIdempotent | kdb.h:642-683 | Closing a closed handle changes nothing. |
| Store.Parse | kdb.h:482-630 | An existing file is accepted exactly when its header is present in full, has the magic `KDB` and version 1, holds exactly the requested name, and carries the build's precision bit. Its header is then taken unchanged. |
| Store.Initialize | kdb.h:400-639 | Null fails and an open handle stays open. A longer-than-10 name fails. A missing file is created with a fresh header when creating and writing succeed, and an existing file opens exactly when `Parse` accepts it. Every failure leaves the handle closed and cleared. |
| Store.WriteHeader | kdb.h:324-362 | Succeeds exactly when there is a handle with an open file and the write succeeds. The file's header then becomes the in-memory header and the records are untouched. A failure changes nothing. |
| Store.WriteData | kdb.h:364-397 | Succeeds exactly on an initialized handle with an open file when the write succeeds. The record is then appended after the existing ones. A failure changes nothing. |
| Store.GetData | kdb.h:685-713 | A closed handle fails. An index outside `[0, count)` succeeds with a zeroed record. Otherwise the read succeeds exactly when the file holds that record, and returns it. |
| Aggregate.AccessorsOfConsistent | kdb.h:797-830 | On a consistent store, `kdb_count`, `kdb_sum`, `kdb_average`, `kdb_min` and `kdb_max` report the number, total, mean, least and greatest of the stored values. With no values, they report 0, 0, 0, +∞ and −∞. |
| Store.Count | kdb.h:797-802 | 0 on a handle that is not open. |
| Store.Sum | kdb.h:804-809 | 0 on a handle that is not open. |
| Store.Average | kdb.h:811-816 | 0 on a handle that is not open. |
| Store.Minimum | kdb.h:818-823 | +∞ on a handle that is not open. |
| Store.Maximum | kdb.h:825-830 | −∞ on a handle that is not open. |
| Store.ClosedAndFreshAreNeutral | kdb.h:660-680 | A closed handle and a newly created store both answer count 0, sum 0, average 0, min +∞ and max −∞. |
| Store.CreatedFileReopens | kdb.h:444-456 | A file a build creates passes that build's own validation. |
| Store.PrecisionMismatchIsRejected | kdb.h:542-558 | Double and long double builds reject each other's files. A float build accepts both. |
| Store.ReopenRoundTrip | kdb.h:612-632 | Closing a store and opening it again under its name gives back the same handle: the same header and the same records. |
| Aggregate.Scan | kdb.h:851-856 | The read loop of `kdb_variance` (and the same loop at kdb.h:933-941 in `kdb_median`): when every read succeeds it yields one value per counted record. |
| Aggregate.ScanReadsRecords | kdb.h:851-856 | Reading records `0..n-1` through `kdb_get_data` succeeds exactly when the file holds them, and yields their values in order. |
| Aggregate.CreatedIsConsistent | kdb.h:430-467 | A newly created store satisfies the store invariant. |
| Aggregate.Append | kdb.h:739-788 | Succeeds exactly on an open handle when both writes succeed. The new header has count + 1, sum + value, average = sum / count, min and max widened, both cache bits cleared, the precision bits kept, and variance and median unknown. The file gets that header and one more record carrying the new running sum. A failure restores the in-memory header, and a failed header write changes nothing. |
| Aggregate.AppendKeepsConsistent | kdb.h:739-788 | A successful append keeps the store invariant and adds the value at the end. A failed header write leaves the store as it was. |
| Aggregate.AppendedRecords | kdb.h:771-780 | After an append, every record's running sum is still the total of the values up to it. |
| Aggregate.AppendedHeader | kdb.h:743-760 | After an append, the header on disk and in memory holds the total, mean, minimum and maximum of all values, and no cache bit. |
| Aggregate.PrefixSumsExtend | kdb.h:771-775 | A record whose running sum extends the previous total keeps every running sum right. |
| Aggregate.SamplesOfConsistent | kdb.h:851-856 | A scan of a consistent store reads back exactly its values. |
| Aggregate.Variance | kdb.h:832-878 | +∞ on a closed or empty store. The cached value when its bit is set. Otherwise Σ(v − average)²/count over the scanned records, cached and written out. +∞ with the header restored if a read or the header write fails. |
| Aggregate.VarianceScan | kdb.h:851-861 | The summation loop succeeds exactly when every read succeeds. It then yields Σ(v − average)² over all records. |
| Aggregate.VarianceCorrect | kdb.h:832-878 | On a consistent non-empty store, the variance is the population variance of the stored values. The exception is +∞ when it had to be computed and the header write failed. |
| Aggregate.VarianceKeepsConsistent | kdb.h:865-875 | Computing the variance keeps the store invariant and the stored values. |
| Aggregate.VarianceFromSquares | kdb.h:851-863 | The variance a consistent store reports is the mean of the squared stored values minus the square of the header's average. |
| Aggregate.VarianceCachedIsStable | kdb.h:841-844 | On any handle, once a variance has been obtained, asking again returns it unchanged without touching the store. |
| Aggregate.StdDev | kdb.h:880-905 | +∞ on a closed or empty store. Otherwise it carries the variance's value, +∞ included, and the handle after computing it. |
| Aggregate.StdDevIsRealRoot | kdb.h:880-905 | On a consistent non-empty store with a working disk, the standard deviation is the root of the population variance, a non-negative number. |
| Aggregate.MedianOf | kdb.h:907-977 | +∞ on a closed or empty store. The cached value when its bit is set. +∞ if the buffer cannot be allocated or a read fails. Otherwise the middle of the sorted values (mean of the two middle ones for an even count), cached and written out. +∞ with the header restored if the write fails. |
| Aggregate.MedianCorrect | kdb.h:907-977 | On a consistent non-empty store, the median is the median of the stored values. The exception is +∞ when it had to be computed and the allocation or the header write failed. |
| Aggregate.MedianKeepsConsistent | kdb.h:959-972 | Computing the median keeps the store invariant and the stored values. |
| Aggregate.MedianCachedIsStable | kdb.h:916-919 | On any handle, once a median has been obtained, asking again returns it unchanged without touching the store. |
| Aggregate.MedianSplitsStore | kdb.h:907-977 | The median a store reports has at most half of its values strictly below it, and at most half strictly above. |
| Aggregate.GetDataNormalized | kdb.h:715-725 | Succeeds exactly when `kdb_get_data` does, keeps timestamp and running sum, and rescales the value from [min, max] to [0, 1]. Rescaling back gives the stored value. |
| Aggregate.GetDataNormalizedNeg | kdb.h:727-737 | The same as `GetDataNormalized`, but onto [−1, 1]. |
| Aggregate.NormalizedInRange | kdb.h:715-737 | On a consistent store, every stored value normalises into [0, 1], and into [−1, 1] for the signed variant. |
| Window.StartIndex | kdb.h:991 | `index - frame + 1` in `uint32_t`: the plain difference when it is non-negative, otherwise that plus 2³². |
| Window.Sma | kdb.h:979-1005 | 0 on a closed handle, for frame 0, or when either read fails. Otherwise (sum at `index` − sum at the start index) / frame. |
| Window.RunningSum | kdb.h:771-775 | On a consistent store, the running sum read at an index is the total of the values up to it. |
| Window.SmaAsWritten | kdb.h:979-1005 | For a window inside the store, `kdb_sma` returns the total of only `frame − 1` values, divided by `frame`. |
| Window.SmaShortWindow | kdb.h:979-1005 | When the start index wraps past the end, `kdb_sma` returns the total of the values up to `index`, over `frame`, instead of 0. |
| Window.WindowAverage | kdb.h:979-1005 | Corrected moving average: 0 on a closed handle, for frame 0, and for a window not inside the store. |
| Window.WindowAverageIsMean | kdb.h:979-1005 | The corrected moving average is the mean of exactly the `frame` values ending at `index`. |
| Scenario.ThreeSamplesIsConsistent | kdb.h:739-788 | Creating "T" and appending 1, 2, 3 gives a consistent store holding exactly those values under its name and version. |
| Scenario.OneTwoThreeStatistics | kdb.h:797-977 | A consistent store holding 1, 2, 3 reports count 3, sum 6, average 2, min 1, max 3 and median 2, and its corrected window average over the last two values is 2.5. |
| Scenario.ExampleScenario | kdb.h:400-977 | On the worked store, the statistics above hold, and closing and reopening "T" gives the same store back. |
| Scenario.SmaOffByOneExample | kdb.h:979-1005 | On 1, 2, 3, `kdb_sma(index 2, frame 2)` is 1.5, while the mean of the last two values is 2.5. |
| Scenario.SmaOutOfRangeExample | kdb.h:979-1005 | On 1, 2, 3, `kdb_sma(0, 2)` is 0.5 and `kdb_sma(3, 2)` is −3, while the corrected average is 0 for both. |
| Scenario.SmaExamplesOnThreeSamples | kdb.h:979-1005 | Both discrepancies occur on the worked store itself. |

## Left out

- File I/O is modelled, not performed. There is no byte layout, `fseek`, `fflush` or `errno`. Each disk step is a success flag, and a file that cannot be opened for another reason than "does not exist" is the `Inaccessible` case.
- Floating point is not modelled: values are exact reals. Rounding, NaN and infinite sample values are outside the model, as is the choice among `float`, `double` and `long double` beyond the precision flag.
- `Aggregate.StdDev` does not compute the square root of `kdb_stddev`. It returns the squared value, and `Aggregate.StdDevIsRealRoot` shows that it is a finite non-negative number.
- `kdb_add` is `kdb_add_ts` with the timestamp from `time(NULL)`. The clock is an input, so `Aggregate.Append` with that timestamp covers it.
- `malloc` and `free` in `kdb_median` are reduced to the `allocOk` flag. The `qsort` call is modelled by its result: the ascending arrangement, which is unique.
- The dump functions (`kdb_dump*`, the map's `dump`) only print. They are not modelled, nor are the viewer program and the file tests.
- Stored filenames and handle addresses are not modelled. A registry value is a handle identity, and string keys are compared by content, as `strcmp` does.
- `Registry.NameHash` sums characters as non-negative numbers. On a platform with signed `char`, a name with bytes above 127 hashes differently.
- `Store.Initialize` and `Registry.NameHash` take each character of a name to stand for one byte. The source measures names with `strlen` and hashes their bytes, so a name with characters outside one byte (such as "é" in UTF-8, two bytes) is longer and hashes differently there than here.
- `Store.Initialize` treats the `kdb_finalize` calls inside `kdb_initialize` as always closing. A close failure there is not modelled.
- `Store.Name`: a name is at most 10 characters. The stored name has no terminator when it is exactly 10 long; that is modelled only as the length bound.
- `Store.Name` may contain a NUL character. The source compares names as C strings, so a stored name such as "A\0x" opens under "A" there, but `Store.Parse` compares the whole name and rejects it.
- `Store.GetData` treats an initialized handle without a file as a failed read. In the source that state cannot arise, and the read would dereference a null file.
- A short read that fills part of a record is modelled as a failed read that returns a zero record.
- `Store.ReopenRoundTrip` and `Store.Parse` hold for the abstract header only. The source writes the header as one raw struct but reads it back field by field with no padding. Only in float builds do the two layouts agree. In double and long double builds on common 64-bit ABIs, `sum` lies 4 or 12 padding bytes after `count`, so every value field is misread and reopening does not give the same header back.
- `Aggregate.Append` assumes that a failed disk write leaves the file unchanged. The source guarantees only that the in-memory header is rolled back. If `kdb_write_header` fails at `fflush` after `fwrite` has buffered the header, or after a partial `fwrite`, the file may hold the new count with no new record. `Aggregate.AppendKeepsConsistent`'s claim that a failed header write leaves the store as it was rests on the same assumption.
- `Aggregate.Append` requires that the count does not wrap: `count + 1 < 2³²`. At 2³² − 1 records the `uint32_t` count wraps to 0, and the average divides by zero.
- `Aggregate.GetDataNormalized` and `Aggregate.GetDataNormalizedNeg` require that a successful fetch sees a finite min and max that differ. Otherwise the source divides by a zero or infinite range, and the result is NaN or infinite.
- `Stats.MapValue` requires distinct range ends, for the same reason.
- `Registry`'s hash maps are shared global buffers in the source, one per instantiation. Here a table is a value passed in and returned.

## Findings

| source | as written | input that shows it | evidently intended | confidence | as-written member | corrected member |
|---|---|---|---|---|---|---|
| kdb.h:979-1005 | `kdb_sma` subtracts the running sum at `index - frame + 1`, which already includes that record's value, so a window holds only `frame - 1` values yet is divided by `frame` | values 1, 2, 3; `kdb_sma(db, 2, 2)` = (6 − 3) / 2 = 1.5 | the mean of the last `frame` values, 2.5: subtract the running sum at `index - frame` | not executed | Scenario.SmaOffByOneExample | Window.WindowAverageIsMean |
| kdb.h:991-1000 | a window that starts before record 0 or ends past the last record is not rejected. The `uint32_t` start index wraps, and an index outside `[0, count)` reads as a zero record | values 1, 2, 3; `kdb_sma(db, 0, 2)` = 0.5 and `kdb_sma(db, 3, 2)` = −3 | 0 for a window that does not lie inside the store | not executed | Scenario.SmaOutOfRangeExample | Window.WindowAverage |
