# CountCovariates: the covariate-counting engine

This project models the counting half of the base-quality recalibration walker
`CovariateCounterWalker` (walker name `CountCovariates`). For every reference
locus, the walker looks at the reads that cover it. Each read that passes the
filters has its base at the locus counted under three covariates:

- the machine cycle, meaning the position in sequencing order;
- the reported quality;
- the dinucleotide, meaning the previous base and this base.

Counting happens in the table of the read's read group. Each bucket of a table
holds N, the number of bases counted, and B, the number of those that differ
from the reference. At the end of the traversal, the buckets with `N > 0` are
written out as rows.

Modules:

- `Covariates` (covariates.dfy): the values.
  - Reads, read-group records, keys and bucket counters.
  - The Java byte/char casts, written out explicitly.
  - The per-base rule `Observe`: cycle by strand, complementing on the reverse strand, and the dinucleotide key.
  - Get-or-create on a table (`GetOrCreate`, `Bump`) and bucket validity.
- `Platforms` (platforms.dfy): the platform allow-list.
  - Java's `trim()` and ASCII `equalsIgnoreCase`.
  - `isSupportedReadGroup` as a loop with an early return.
  - The set of ids that `initialize` registers.
- `Aggregation` (aggregation.dfy): what `map` does to the registry and to `counted_bases`, as values.
  - The read filters.
  - `UpdateData`, for one base.
  - `ProcessRead` / `ProcessReads`, for the reads at one locus.
  - `FirstAbort`, the read that aborts the locus: either it is too long, or it passes the filters but has no quality byte at its offset.
  - Lemmas about these.
- `Ledger` (ledger.dfy): what the counters mean.
  - Every bucket is the histogram of the bases counted under its group and key.
  - `counted_bases` grows by exactly the number of those bases.
- `Walker` (walker.dfy): the walker object as a class.
  - It holds the registry `data` and the counters `countedSites`, `countedBases` and `skippedSites`.
  - Its `Initialize`, `GetRecalData`, `UpdateDataFromRead` and `Map` methods update them in place.
  - `Initialize` is proved to register exactly the ids of `Platforms.RegisteredIds`.
  - `GetRecalData` is proved to perform `Covariates.GetOrCreate`.
  - `UpdateDataFromRead` and `Map` are proved to produce exactly the values of `UpdateData` and `ProcessReads`.
  - Every method except `GetRecalData`, which only `UpdateDataFromRead` calls, keeps every bucket valid.
- `Report` (report.dfy): the `N > 0` row filter of `writeRecalTable`, and the finding below.

The inputs that the Java code fetches from the engine are parameters here:

- the header's read groups (`header`);
- the dbSNP lookup (`isSnp`);
- the reads and offsets of the locus context (`locusReads`, `offsets`);
- the command-line arguments (`Config`, with the source's defaults in `DEFAULT_CONFIG`).

`BaseUtils.simpleComplement` is not shown. It is the uninterpreted function `complement: char -> char`. The strand-symmetry lemma assumes that it is an involution.

A read's quality array may be shorter than its bases; a record without qualities has an empty one. The Java code looks up the quality only of a read that passes the filters and has an interior offset. When that lookup falls outside the array, the lookup throws and abandons the locus. The model returns this as `Err(QualityMissing(i))`, next to `Err(ReadTooLong(i))`. Other reads are never required to have qualities.

The model assumes three things about its inputs:

- The read's RG attribute resolves to a header read group, and the model's `Read.group` is that record. With a non-empty platform list, `isSupportedReadGroup` would dereference a null group.
- The RG attribute equals the id of that record.
- A counted read's group has a table (`Admissible`). `getRecalData` (line 91) calls `data.get(rg)` for it, and `initialize` registers every supported header group. `Map` asks this only at sites that are not SNPs, and only of the reads before the first one that aborts the locus.

## Model

| member | source | states |
|---|---|---|
| Covariates.ByteCharRoundTrip | java/src/org/broadinstitute/sting/gatk/walkers/recalibration/CovariateCounterWalker.java:89 | Casting a read byte to `char` and back to `byte`, as the dinucleotide key does, gives the original byte, negative bytes included |
| Covariates.RecalDatum.Inc | java/src/org/broadinstitute/sting/gatk/walkers/recalibration/CovariateCounterWalker.java:168 | After `inc(base, ref)` N is at least 1 and a bucket with `B <= N` keeps `B <= N`; N - B, the matches, grows by one exactly when the base equals the reference |
| Covariates.CycleMirror | java/src/org/broadinstitute/sting/gatk/walkers/recalibration/CovariateCounterWalker.java:151-162 | Offset `o` on one strand and offset `L-1-o` on the other are given the same machine cycle |
| Covariates.Observe | java/src/org/broadinstitute/sting/gatk/walkers/recalibration/CovariateCounterWalker.java:150-165 | Under the interior guard, with a quality byte at the offset, the machine cycle lies in `[1, L-2]` and the quality is the byte `quals[offset]`; every `offset-1` / `offset+1` access is in bounds |
| Covariates.ForwardDinucIsReadBytes | java/src/org/broadinstitute/sting/gatk/walkers/recalibration/CovariateCounterWalker.java:155-156 | On the forward strand the cycle is the offset, and the dinucleotide key is exactly the read bytes at `offset-1` and `offset` |
| Covariates.ReverseComplementSameObservation | java/src/org/broadinstitute/sting/gatk/walkers/recalibration/CovariateCounterWalker.java:158-163 | For an involutive complement, the reverse-complemented record gives the same cycle, quality, dinucleotide, base and reference at the mirrored offset as the forward record does, so the same bucket and the same outcome |
| Covariates.GetOrCreate | java/src/org/broadinstitute/sting/gatk/walkers/recalibration/CovariateCounterWalker.java:75-91 | After a lookup the key is present; a missing key is created with an empty bucket; existing buckets are unchanged; no key is removed |
| Covariates.GetOrCreateIdempotent | java/src/org/broadinstitute/sting/gatk/walkers/recalibration/CovariateCounterWalker.java:75-91 | Looking up the same key twice gives the same table and bucket as looking it up once |
| Covariates.Bump | java/src/org/broadinstitute/sting/gatk/walkers/recalibration/CovariateCounterWalker.java:167-168 | Get-or-create then `inc`: adds key `k`, raises its N by one and its B by one on a mismatch, and leaves every other bucket alone |
| Covariates.BumpKeepsValid | java/src/org/broadinstitute/sting/gatk/walkers/recalibration/CovariateCounterWalker.java:166-168 | Counting under a well-formed key keeps every bucket at `N >= 1` and `B <= N` |
| Platforms.TrimStart | java/src/org/broadinstitute/sting/gatk/walkers/recalibration/CovariateCounterWalker.java:255 | `trim()` at the front: the result is a suffix, it starts with a char above U+0020, and every removed char is at or below U+0020 |
| Platforms.TrimEnd | java/src/org/broadinstitute/sting/gatk/walkers/recalibration/CovariateCounterWalker.java:255 | `trim()` at the back: the result is a prefix, it ends with a char above U+0020, and every removed char is at or below U+0020 |
| Platforms.IsSupportedReadGroup | java/src/org/broadinstitute/sting/gatk/walkers/recalibration/CovariateCounterWalker.java:253-263 | True if and only if some allow-list entry matches: PL unset, trimmed entry `*`, or trimmed entry equal to PL ignoring case |
| Platforms.EmptyAllowListSupportsNothing | java/src/org/broadinstitute/sting/gatk/walkers/recalibration/CovariateCounterWalker.java:254-262 | An empty platform list supports no read group, even one whose PL is unset |
| Platforms.UnsetPlatformSupportedIffNonEmpty | java/src/org/broadinstitute/sting/gatk/walkers/recalibration/CovariateCounterWalker.java:256 | A group without PL is supported if and only if the platform list is non-empty |
| Platforms.DefaultAllowListSupportsAll | java/src/org/broadinstitute/sting/gatk/walkers/recalibration/CovariateCounterWalker.java:38 | The default platform list `["*"]` supports every read group |
| Platforms.RegisteredIdsSnoc | java/src/org/broadinstitute/sting/gatk/walkers/recalibration/CovariateCounterWalker.java:62-71 | One more header group adds its id to the registered ids if and only if it is supported |
| Aggregation.UpdateData | java/src/org/broadinstitute/sting/gatk/walkers/recalibration/CovariateCounterWalker.java:150-173 | Only table `rg` may change, and it must exist only when the quality is positive; no group is added or removed; `counted_bases` grows by one exactly when `quals[offset] > 0` |
| Aggregation.UpdateDataBucket | java/src/org/broadinstitute/sting/gatk/walkers/recalibration/CovariateCounterWalker.java:165-172 | A base of positive quality changes exactly the one bucket keyed (cycle, qual, dinuc) of table `rg`: N+1, and B+1 on a mismatch; otherwise no table changes |
| Aggregation.ProcessRead | java/src/org/broadinstitute/sting/gatk/walkers/recalibration/CovariateCounterWalker.java:117-125 | One read that does not abort never adds or removes a read group; only a counted read needs its group registered |
| Aggregation.ProcessReads | java/src/org/broadinstitute/sting/gatk/walkers/recalibration/CovariateCounterWalker.java:110-127 | The loop over the reads of a locus never adds or removes a read group |
| Aggregation.ProcessReadsStep | java/src/org/broadinstitute/sting/gatk/walkers/recalibration/CovariateCounterWalker.java:110-127 | The first `i+1` reads are processed as the first `i` reads, then read `i` |
| Aggregation.FirstAbort | java/src/org/broadinstitute/sting/gatk/walkers/recalibration/CovariateCounterWalker.java:110-165 | The index of the first read that aborts the locus: it is longer than `buggyMaxReadLen` (line 113), or it passes the filters with an interior offset but has no quality byte there (line 165). No earlier read aborts, and the read at that index does |
| Aggregation.AdmissibleBeforeAbort | java/src/org/broadinstitute/sting/gatk/walkers/recalibration/CovariateCounterWalker.java:110-127 | A read that comes before the first aborting one, and does not abort, extends the prefix of reads `map` can process |
| Aggregation.ShortReadChangesNothing | java/src/org/broadinstitute/sting/gatk/walkers/recalibration/CovariateCounterWalker.java:121-125 | A read of fewer than 3 bases never aborts on its quality, and changes no bucket and not `counted_bases` |
| Aggregation.FilteredReadNeedsNoQualities | java/src/org/broadinstitute/sting/gatk/walkers/recalibration/CovariateCounterWalker.java:118-120 | A read the filters reject, even one with no qualities, never aborts on its quality and changes nothing |
| Aggregation.ProcessReadCount | java/src/org/broadinstitute/sting/gatk/walkers/recalibration/CovariateCounterWalker.java:118-125 | A read adds one counted base exactly when it is supported, selected by READ_GROUP, has enough mapping quality, has an interior offset and has positive quality; otherwise it changes nothing |
| Aggregation.CountedBasesBound | java/src/org/broadinstitute/sting/gatk/walkers/recalibration/CovariateCounterWalker.java:110-127 | At a locus `counted_bases` grows by at least 0 and at most the number of reads |
| Aggregation.NoContributorChangesNothing | java/src/org/broadinstitute/sting/gatk/walkers/recalibration/CovariateCounterWalker.java:118-125 | When no read meets all conditions, the registry and `counted_bases` are unchanged |
| Aggregation.OtherGroupsUntouched | java/src/org/broadinstitute/sting/gatk/walkers/recalibration/CovariateCounterWalker.java:117-124 | The table of a group with no counted read at the locus is unchanged |
| Aggregation.BucketsOnlyGrow | java/src/org/broadinstitute/sting/gatk/walkers/recalibration/CovariateCounterWalker.java:110-127 | No key is ever removed, and no N or B ever decreases |
| Aggregation.ProcessReadsKeepsValid | java/src/org/broadinstitute/sting/gatk/walkers/recalibration/CovariateCounterWalker.java:110-127 | Every bucket stays valid: `N >= 1`, `B <= N`, cycle and quality at least 1, a two-byte dinucleotide |
| Ledger.HistogramBump | java/src/org/broadinstitute/sting/gatk/walkers/recalibration/CovariateCounterWalker.java:166-168 | Counting one base in a bucket records one more sighting (group, key, mismatch) in the histogram the tables equal |
| Ledger.CountKeepsConsistent | java/src/org/broadinstitute/sting/gatk/walkers/recalibration/CovariateCounterWalker.java:166-168 | Counting one base keeps the tables valid and equal to the histogram of the counted bases |
| Ledger.EmptyTablesConsistent | java/src/org/broadinstitute/sting/gatk/walkers/recalibration/CovariateCounterWalker.java:62-71 | The freshly registered empty tables are the histogram of no bases |
| Ledger.Sighted | java/src/org/broadinstitute/sting/gatk/walkers/recalibration/CovariateCounterWalker.java:118-125 | A read makes one sighting when it contributes and none otherwise |
| Ledger.Sightings | java/src/org/broadinstitute/sting/gatk/walkers/recalibration/CovariateCounterWalker.java:110-127 | The reads of a locus make at most one sighting each |
| Ledger.ProcessReadHistogram | java/src/org/broadinstitute/sting/gatk/walkers/recalibration/CovariateCounterWalker.java:117-125 | One read keeps every bucket the histogram of its bases, and adds to `counted_bases` exactly the number of bases it counted |
| Ledger.ProcessReadsHistogram | java/src/org/broadinstitute/sting/gatk/walkers/recalibration/CovariateCounterWalker.java:110-127 | After a locus, every bucket's N and B count exactly the bases (and mismatches) recorded under it. Every recorded base has its bucket, and `counted_bases` has grown by exactly the number of bases recorded |
| Walker.WriteBack | java/src/org/broadinstitute/sting/gatk/walkers/recalibration/CovariateCounterWalker.java:166-168 | Get-or-create, then writing the incremented bucket back under its key, is the per-base update `UpdateData` and keeps every bucket valid |
| Walker.CovariateCounterWalker.constructor | java/src/org/broadinstitute/sting/gatk/walkers/recalibration/CovariateCounterWalker.java:47-51 | An empty registry and all three counters at 0 |
| Walker.CovariateCounterWalker.Initialize | java/src/org/broadinstitute/sting/gatk/walkers/recalibration/CovariateCounterWalker.java:62-71 | Afterwards the registry keys are exactly the supported header read groups, each with an empty table |
| Walker.CovariateCounterWalker.GetRecalData | java/src/org/broadinstitute/sting/gatk/walkers/recalibration/CovariateCounterWalker.java:88-91 | The registry becomes the get-or-create of key `(pos, qual, (byte) prevBase (byte) base)` in table `rg`, and the returned bucket is the one stored there |
| Walker.CovariateCounterWalker.UpdateDataFromRead | java/src/org/broadinstitute/sting/gatk/walkers/recalibration/CovariateCounterWalker.java:150-173 | Fails, changing nothing, exactly when the quality array has no entry at `offset`. Otherwise it returns 1 when `quals[offset] > 0` and 0 otherwise, and the registry becomes `UpdateData` of the old one. Every bucket stays valid |
| Walker.CovariateCounterWalker.CountRead | java/src/org/broadinstitute/sting/gatk/walkers/recalibration/CovariateCounterWalker.java:117-125 | One pass of the loop body fails, changing nothing, exactly when the read passes the filters but lacks its quality byte. Otherwise it moves the registry and `counted_bases` exactly as `ProcessRead` says. Every bucket stays valid |
| Walker.CovariateCounterWalker.Map | java/src/org/broadinstitute/sting/gatk/walkers/recalibration/CovariateCounterWalker.java:104-134 | At a SNP site, only `skipped_sites` moves (+1) and 1 is returned. Elsewhere the reads before the first aborting read are processed as `ProcessReads` says. An aborting read ends the locus with `ReadTooLong` or `QualityMissing`; nothing is rolled back and `counted_sites` is unchanged. Otherwise `counted_sites` moves (+1) and 1 is returned |
| Report.GroupRows | java/src/org/broadinstitute/sting/gatk/walkers/recalibration/CovariateCounterWalker.java:237-239 | A group's rows are exactly its buckets with `N > 0` |
| Report.GroupRowsRemove | java/src/org/broadinstitute/sting/gatk/walkers/recalibration/CovariateCounterWalker.java:237-239 | Removing a bucket with `N > 0` removes exactly its row |
| Report.ValidTableRowCount | java/src/org/broadinstitute/sting/gatk/walkers/recalibration/CovariateCounterWalker.java:238 | In a valid table the `N > 0` filter drops nothing: one row per bucket |
| Report.RecalTableAsWritten | java/src/org/broadinstitute/sting/gatk/walkers/recalibration/CovariateCounterWalker.java:235-241 | As written: succeeds if and only if every header read group has a table, and then lists each group's filtered rows in header order |
| Report.RecalTable | java/src/org/broadinstitute/sting/gatk/walkers/recalibration/CovariateCounterWalker.java:235-241 | Corrected: one row set per header group, in header order |
| Report.CorrectedAgreesWhenDefined | java/src/org/broadinstitute/sting/gatk/walkers/recalibration/CovariateCounterWalker.java:235-241 | Whenever the as-written report succeeds, the corrected one writes the same rows |
| Report.AsWrittenDefinedIffAllSupported | java/src/org/broadinstitute/sting/gatk/walkers/recalibration/CovariateCounterWalker.java:235-237 | With the registry built by `initialize` from distinct header ids, the as-written report succeeds if and only if the allow-list supports every header group |
| Report.SolidNotOnIlluminaList | java/src/org/broadinstitute/sting/gatk/walkers/recalibration/CovariateCounterWalker.java:253-263 | A SOLID read group is not supported by the allow-list `ILLUMINA` |
| Report.AsWrittenFailsOnFilteredGroup | java/src/org/broadinstitute/sting/gatk/walkers/recalibration/CovariateCounterWalker.java:101 | With header groups RG1 (ILLUMINA) and RG2 (SOLID) and the allow-list `ILLUMINA`, the as-written report fails on RG2 |
| Report.RecalTableWritesEveryBucket | java/src/org/broadinstitute/sting/gatk/walkers/recalibration/CovariateCounterWalker.java:235-239 | The corrected report writes every bucket of every registered header group as a row of that group |

## Left out

- Output: opening the output file, the CSV header line, `toCSVString` formatting, and closing the stream. These are I/O. The model gives the rows each header group would print, as a set, because the order of `RecalData.sort` is not part of this model.
- `printInfo` is left out: a clock reading plus a floating-point ratio of the site counters.
- `writeLogisticRecalibrationTable` is left out. It is output that is no longer called.
- `reduceInit` and `reduce` are left out. They return 0.
- `onTraversalDone` is left out. It only prints and calls `writeRecalTable`.
- `Utils.warnUser` for a group without PL is left out. It is logging only.
- `RecalData` and `RecalDataManager` are not part of this model. A table is a map from key to (N, B).
  - Collapsing by position or dinucleotide (`collapsePos`, `collapseDinuc`) is not modelled. The flags are only carried in `Config`.
  - The empirical quality is not modelled.
- `getRecalData(String)` (`getAll`) is modelled only by reading the map.
- The `datum != null` test is not modelled, because get-or-create always yields a bucket here.
- Walker.CovariateCounterWalker.UpdateDataFromRead: in Java the bucket is an object shared by reference, and `inc` changes it in place. The model writes the incremented value back under its key. The effect on the registry is the same, but aliasing is not modelled.
- The dinucleotide bytes become a `String` through the platform default charset. The model keys on the two bytes themselves, which is the same as long as the charset maps distinct byte pairs to distinct strings.
- Platforms.EqualsIgnoreCase folds only the ASCII letters. Java also folds other letters.
- The counters are Java `long`s. The model's counters are unbounded, so 64-bit overflow is not modelled.
- dbSNP lookup, `RefMetaDataTracker`, `RodBinding`, `LocusContext` and the engine header are inputs (`isSnp`, `locusReads`, `offsets`, `header`). `RodBinding` is not part of this model.
- Walker.CovariateCounterWalker.Map: the two aborts are returned as errors instead of being thrown. They are the `RuntimeException` for a too-long read and the out-of-bounds quality lookup. The message text is left out.
- Walker.CovariateCounterWalker.Map: a counted read whose group has no table is a precondition (`Admissible`), not a modelled error. Java throws a `NullPointerException` for it in `getRecalData`, but this cannot happen after `initialize`, because counted reads pass the same allow-list.
- A read whose RG attribute resolves to no header group is not modelled. `Read.group` is always a record.
- Walker.CovariateCounterWalker.Valid: the class invariant keeps every bucket valid. The stronger fact that the tables are the histogram of the counted bases, with `countedBases` their number, is proved about the values `Map` is tied to (`Ledger.ProcessReadsHistogram`). It is not carried as ghost state of the object.
- Walker.CovariateCounterWalker.Initialize requires an empty registry, as it is on a fresh walker. Running `initialize` twice is not modelled.
- `Report.AsWrittenDefinedIffAllSupported` requires distinct header read-group ids. With a repeated id, a supported entry can register an id that an unsupported entry with the same id also names.

## Findings

| source | as written | input that shows it | evidently intended | confidence | as-written member | corrected member |
|---|---|---|---|---|---|---|
| java/src/org/broadinstitute/sting/gatk/walkers/recalibration/CovariateCounterWalker.java:235-237 | `writeRecalTable` iterates over every header read group and calls `data.get(id).getAll()`, but `initialize` registers only groups that pass the platform allow-list, so `data.get` returns null for a filtered group | header groups RG1 with PL ILLUMINA and RG2 with PL SOLID, run with `-pl ILLUMINA`: RG2 has no table, so the report dereferences null | Groups that were never registered contribute no rows; the report lists every counted bucket of every registered group | high (not executed) | Report.AsWrittenFailsOnFilteredGroup | Report.RecalTableWritesEveryBucket |
