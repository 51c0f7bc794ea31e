# Commodity projection histograms, modelled in Dafny

The back end serves histograms over a table of commodity projections. Each
row has six text columns (`attribute`, `commodity`, `commodityType`, `units`,
`yearType`, `year`) and one numeric column, `value`.

- `GET /:dimension/histogram` trims and lower-cases the dimension, then looks it up in a fixed table of the seven columns.
- The service asks the repository for one of two histograms:
  - a **category histogram** for a text column: one bucket per distinct value with its number of occurrences, sorted by value;
  - a **numeric histogram** for `value`: `bucketCount` equal-width groups from the minimum to the maximum, plus an overflow ordinal `bucketCount + 1` that only values equal to the maximum fall into. Only non-empty groups are returned.
- For numeric results, the service then merges that overflow ordinal into ordinal `bucketCount` and fills the gaps with zero counts. The caller always gets exactly `bucketCount` dense buckets.

The model covers the following:

- The in-memory repository, which is the reference implementation of the SQL:
  - a class holding the `records` store, with `Clear`, `Insert`, `Delete` and the numeric histogram as a method with the source's nested counting loop;
  - pure specifications of both histogram computations.
- The argument validators of the SQL repository and the contract of its queries.
- The service's dispatch and numeric normaliser.
- The controller's dimension resolution.
- `buildVersionRange`.

Modules follow the source files:

| module | file | models |
|---|---|---|
| `Wrappers`, `Entities` | `wrappers.dfy`, `entities.dfy` | `Option`/`Result`; rows, buckets, histograms, errors |
| `ProjectionRepo` | `projection_repo.dfy` | `commodity-projection.repo.ts`: validators, the query contract |
| `NumericBucketing` | `numeric_bucketing.dfy` | the numeric grouping of `repo.fake.ts` as functions |
| `CategoryAggregation` | `category_aggregation.dfy` | the filter / reduce / sort of `repo.fake.ts` |
| `FakeRepo` | `fake_repo.dfy` | `repo.fake.ts`: the `records` store class and its histograms |
| `Decimal` | `decimal.dfy` | `Number#toString` on integers below 10^21 in magnitude |
| `ProjectionService` | `projection_service.dfy` | `getHistogram` and the normaliser |
| `ProjectionController` | `projection_controller.dfy` | trim, lower-case, table lookup, not-found |
| `Constants` | `constants.dfy` | `buildVersionRange`, `SUPPORTED_VERSIONS` |

Values are integers, and the group check is exact. With `n` buckets over
`[lo, hi]`, the check `lo + w·i <= v < lo + w·(i+1)` with `w = (hi - lo)/n` is
written as `n·(v - lo) >= (hi - lo)·i && n·(v - lo) < (hi - lo)·(i + 1)`.
`InGroupIsRealCheck` proves that this agrees with the real-valued check.

A throw is an `Err` value of `HistogramError` (or `RangeError`).

The model makes three choices where the source leaves room for more than
one reading:

- **Service.** `getHistogram` in `src/services/commodity-projection.service.ts:33-53` takes no bucket count. It calls `getNumericHistogram(prop)` without one, and it calls a `getCategoricalHistogramBuckets` that the repository does not have. Its unit and integration tests call `getHistogram(prop, bucketCount)` and expect dense numeric buckets and unchanged category buckets. The model follows the tests.
- **Controller.** The controller passes no bucket count (`src/controllers/commodity-projection.controller.ts:38`). The model passes 10 (`DefaultBucketCount`).
- **Bucket count.** The code floors a fractional count and refuses only a floored value below 1 (`src/repositories/commodity-projection.repo.ts:55-58`). The model does the same.

## Model

| member | source | states |
|---|---|---|
| ProjectionRepo.IsNumericProperty | src/repositories/commodity-projection.repo.ts:38-40 | only `value` is numeric; its contract is stated by ValidatorsPartitionProperties |
| ProjectionRepo.ValidateCategoryHistogramArgs | src/repositories/commodity-projection.repo.ts:42-46 | stated by CategoryValidatorRejectsOnlyNumeric and ValidatorsPartitionProperties |
| ProjectionRepo.ValidateNumericHistogramArgs | src/repositories/commodity-projection.repo.ts:48-59 | over a finite or NaN count; stated by NumericValidatorCases, ValidatorsPartitionProperties, FlooringExamples and MissingCountPasses |
| ProjectionRepo.CategoryValidatorRejectsOnlyNumeric | src/repositories/commodity-projection.repo.ts:42-46 | the category validator fails exactly for the numeric column, with the numeric-property error |
| ProjectionRepo.NumericValidatorCases | src/repositories/commodity-projection.repo.ts:48-59 | a text column is refused whatever the count; for `value`, the validator passes iff bucketCount >= 1, else fails with the floored count |
| ProjectionRepo.ValidatorsPartitionProperties | src/repositories/commodity-projection.repo.ts:38-59 | with a usable count exactly one validator accepts a column, and the numeric one accepts exactly the columns `isNumericProperty` names |
| ProjectionRepo.FlooringExamples | src/repositories/commodity-projection.repo.ts:55-58 | the count is floored only for the check: 1.5 passes, 0.5 fails with 0, -2.5 fails with -3 |
| ProjectionRepo.MissingCountPasses | src/repositories/commodity-projection.repo.ts:55-58 | a call without a count floors `undefined` to NaN, and `NaN < 1` is false: `value` passes, a text column is still refused |
| ProjectionRepo.FromAggregateRows | src/repositories/commodity-projection.repo.ts:137-142 | no row, or a null bucket aggregate, gives `{buckets: []}` without a range; otherwise the row's buckets and range; what the service makes of it is ProjectionService.AggregateRowsNormalize |
| NumericBucketing.InGroupIsRealCheck | src/repositories/commodity-projection.repo.fake.ts:107-117 | the cross-multiplied integer check equals `bottom <= v < top` with `bottom = min + w·i`, `top = bottom + w` over the reals |
| NumericBucketing.GroupsDisjoint | src/repositories/commodity-projection.repo.fake.ts:108-119 | no value passes the check of two different groups |
| NumericBucketing.FirstGroup | src/repositories/commodity-projection.repo.fake.ts:123-128 | the inner loop with `break`: the group found passes its check and every earlier group fails it; none found means every group fails |
| NumericBucketing.GroupOf | src/repositories/commodity-projection.repo.fake.ts:122-129 | the group a value is counted in; stated by FirstGroup, GroupOfInRange and GroupOfDefined |
| NumericBucketing.GroupOfInRange | src/repositories/commodity-projection.repo.fake.ts:106-129 | a value in [min, max) lands in group n·(v−min) div (max−min), which is below n; the maximum lands in the extra group n (ordinal n + 1) |
| NumericBucketing.GroupOfDefined | src/repositories/commodity-projection.repo.fake.ts:106-129 | every value in [min, max] is counted in exactly one group, at most n |
| NumericBucketing.OverflowCountsMaximum | src/repositories/commodity-projection.repo.fake.ts:108-119 | the extra group counts exactly the occurrences of the maximum |
| NumericBucketing.CountInGroup | src/repositories/commodity-projection.repo.fake.ts:121-130 | the count of one group after the loop; stated by GroupCountsSnoc, GroupCountsTotal and OverflowCountsMaximum |
| NumericBucketing.GroupCountsSnoc | src/repositories/commodity-projection.repo.fake.ts:122-130 | counting one more value adds one to its own group's count and changes no other |
| NumericBucketing.GroupCountsTotal | src/repositories/commodity-projection.repo.fake.ts:121-130 | over values within [min, max] the group counts add up to the number of values |
| NumericBucketing.NonEmptyBuckets | src/repositories/commodity-projection.repo.fake.ts:131-134 | the map / filter / sort of the groups; stated by the four NonEmptyBuckets lemmas below |
| NumericBucketing.NonEmptyBucketsCounts | src/repositories/commodity-projection.repo.fake.ts:131-134 | each returned bucket has count > 0 and it is the count of the group its ordinal names |
| NumericBucketing.NonEmptyBucketsAscending | src/repositories/commodity-projection.repo.fake.ts:131-134 | returned ordinals strictly ascend, so the sort by ordinal leaves the order unchanged |
| NumericBucketing.NonEmptyBucketsComplete | src/repositories/commodity-projection.repo.fake.ts:131-134 | every group with a non-zero count has its bucket |
| NumericBucketing.NonEmptyBucketsTotal | src/repositories/commodity-projection.repo.fake.ts:131-134 | dropping the empty groups keeps the total count |
| NumericBucketing.SparseBucketsAreGroupSizes | src/repositories/commodity-projection.repo.fake.ts:105-134 | over values spanning [min, max], each bucket's ordinal is in 1..n+1 and its count is its group's size; the bucket (n + 1, occurrences of max) is present |
| NumericBucketing.SparseBucketsComplete | src/repositories/commodity-projection.repo.fake.ts:121-134 | every group that holds a value has its bucket |
| CategoryAggregation.LessIrreflexive | src/repositories/commodity-projection.repo.fake.ts:65 | the value order never puts a string before itself |
| CategoryAggregation.LessTransitive | src/repositories/commodity-projection.repo.fake.ts:65 | the value order is transitive |
| CategoryAggregation.LessTotal | src/repositories/commodity-projection.repo.fake.ts:65 | any two different values are ordered one way or the other |
| CategoryAggregation.Present | src/repositories/commodity-projection.repo.fake.ts:53 | the defined values, exactly those that occur as `Some`, each kept as often as it occurs |
| CategoryAggregation.BumpKeys | src/repositories/commodity-projection.repo.fake.ts:55-59 | one reduce step adds the value to the accumulator's keys |
| CategoryAggregation.BumpDistinct | src/repositories/commodity-projection.repo.fake.ts:55-59 | one reduce step never creates a second entry for a value |
| CategoryAggregation.BumpCount | src/repositories/commodity-projection.repo.fake.ts:57 | `acc[v] = (acc[v] \|\| 0) + 1`: v's count goes up by one and every other count is unchanged |
| CategoryAggregation.TallySpec | src/repositories/commodity-projection.repo.fake.ts:52-61 | after the reduce: no value twice, the keys are exactly the present values, and each count is the value's number of occurrences |
| CategoryAggregation.InsertByValuePermutes | src/repositories/commodity-projection.repo.fake.ts:65 | inserting adds exactly the one entry (multiset) |
| CategoryAggregation.InsertByValueSorted | src/repositories/commodity-projection.repo.fake.ts:65 | inserting a new value into a sorted list keeps it strictly sorted |
| CategoryAggregation.SortByValueSpec | src/repositories/commodity-projection.repo.fake.ts:63-65 | the sort gives a strictly ascending permutation of the entries |
| CategoryAggregation.CategoryBuckets | src/repositories/commodity-projection.repo.fake.ts:52-65 | the filter / reduce / entries / sort pipeline; stated by CategoryBucketsSpec |
| CategoryAggregation.CategoryBucketsSpec | src/repositories/commodity-projection.repo.fake.ts:47-68 | buckets strictly ascending by value; each count = the value's occurrences among the input entries, > 0; every defined value has a bucket; no buckets iff no defined value |
| CategoryAggregation.CategoryBucketsCounts | src/repositories/commodity-projection.repo.fake.ts:52-65 | strictly ascending by value; each bucket's count is its value's number of occurrences, > 0 |
| CategoryAggregation.CategoryBucketsCover | src/repositories/commodity-projection.repo.fake.ts:52-65 | every present value has a bucket; no buckets iff no value is present |
| Decimal.IntToDecimal | src/constants.ts:21 | `i.toString()` for an integer below 10^21 in magnitude; stated by IntToDecimalRoundTrip and IntToDecimalInjective |
| Decimal.NatToDecimal | src/constants.ts:21 | the numeral is digits only, with a leading zero only for 0 |
| Decimal.IntToDecimalRoundTrip | src/constants.ts:21 | reading back `i.toString()` gives i |
| Decimal.IntToDecimalInjective | src/constants.ts:21 | different integers have different numerals |
| FakeRepo.NumericValues | src/repositories/commodity-projection.repo.fake.ts:81-86 | the values are exactly those of the records that define `value`, none added |
| FakeRepo.NumericValuesCounts | src/repositories/commodity-projection.repo.fake.ts:81-86 | each value occurs as often as records carry it, and there is one value per record that defines `value` |
| FakeRepo.MinOf | src/repositories/commodity-projection.repo.fake.ts:87 | lodash `min`: undefined iff no values, else a value below or equal to all |
| FakeRepo.MaxOf | src/repositories/commodity-projection.repo.fake.ts:88 | lodash `max`: undefined iff no values, else a value above or equal to all |
| FakeRepo.NumericHistogramOf | src/repositories/commodity-projection.repo.fake.ts:70-141 | succeeds iff the column is `value` and the count is at least 1 |
| FakeRepo.CategoryHistogramOf | src/repositories/commodity-projection.repo.fake.ts:47-68 | fails iff the column is numeric |
| FakeRepo.FakeCommodityProjectionRepo.constructor | src/repositories/commodity-projection.repo.fake.ts:22 | the store starts empty |
| FakeRepo.FakeCommodityProjectionRepo.Clear | src/repositories/commodity-projection.repo.fake.ts:24-26 | the store is emptied |
| FakeRepo.FakeCommodityProjectionRepo.Insert | src/repositories/commodity-projection.repo.fake.ts:28-45 | the entity, or the entities in order, are appended to the store |
| FakeRepo.FakeCommodityProjectionRepo.Delete | src/repositories/commodity-projection.repo.fake.ts:143-163 | criteria with any key are refused and the store is untouched; otherwise the store is emptied and `DELETE <previous count>` returned |
| FakeRepo.FakeCommodityProjectionRepo.GetNumericHistogram | src/repositories/commodity-projection.repo.fake.ts:70-141 | the nested counting loop with `break` yields NumericHistogramOf of the store |
| FakeRepo.EmptyStoreHasNoBuckets | src/repositories/commodity-projection.repo.fake.ts:77-79 | an empty store gives `{buckets: []}` without a range |
| FakeRepo.AllEqualValuesGiveOneBucket | src/repositories/commodity-projection.repo.fake.ts:90-97 | all defined values equal to m give one bucket (1, number of values) and range [m, m] |
| FakeRepo.NoDefinedValuesGiveZeroBucket | src/repositories/commodity-projection.repo.fake.ts:81-97 | records that all lack `value` take the equal-bounds branch: one bucket (1, 0), no range |
| FakeRepo.ValuesWithinRange | src/repositories/commodity-projection.repo.fake.ts:84-88 | every value lies between the minimum and the maximum |
| FakeRepo.SpreadHistogram | src/repositories/commodity-projection.repo.fake.ts:99-140 | when min and max differ, the buckets are the non-empty groups of the values over [min, max] |
| FakeRepo.NumericBucketsAreGroupSizes | src/repositories/commodity-projection.repo.fake.ts:105-134 | each bucket's count is the size of its group; the maximum's occurrences form the bucket of ordinal bucketCount + 1 |
| FakeRepo.NumericBucketsComplete | src/repositories/commodity-projection.repo.fake.ts:121-134 | every non-empty group has its bucket |
| FakeRepo.NumericHistogramMeetsContract | src/repositories/commodity-projection.repo.ts:77-87 | strictly ascending ordinals in 1..bucketCount+1, total = number of defined values, no empty bucket and range [min, max] when there are values, no range otherwise |
| FakeRepo.CategoryHistogramMeetsContract | src/repositories/commodity-projection.repo.ts:61-69 | sorted by value, one bucket per distinct defined value with its occurrences, no other values, empty store gives no buckets |
| FakeRepo.CategoryHistogramCounts | src/repositories/commodity-projection.repo.fake.ts:52-65 | sorted by value; each bucket counts the records that carry its value, and is non-empty |
| FakeRepo.CategoryHistogramCovers | src/repositories/commodity-projection.repo.fake.ts:52-65 | every defined value has a bucket, every bucket's value is carried by a record, an empty store has no buckets |
| ProjectionService.Normalize | src/services/commodity-projection.service.spec.ts:93-127 | exactly n buckets with ordinals 1..n; all zero for empty input |
| ProjectionService.NormalizeConservesTotal | src/services/commodity-projection.service.spec.ts:28-68 | with ordinals in 1..n+1 the total count is unchanged (31 in, 31 out) |
| ProjectionService.CountAtAbsent | src/services/commodity-projection.service.spec.ts:93-127 | an ordinal with no sparse bucket counts 0 |
| ProjectionService.CountAtUnique | src/services/commodity-projection.service.spec.ts:28-68 | with strictly ascending ordinals, a bucket's ordinal counts exactly that bucket's count |
| ProjectionService.NormalizeKeepsBucket | src/services/commodity-projection.service.spec.ts:93-127 | a bucket with ordinal below n stays at its ordinal with its count |
| ProjectionService.NormalizeFillsGap | src/services/commodity-projection.service.spec.ts:93-127 | a missing ordinal gets count 0 (for ordinal n, only when n + 1 is missing too) |
| ProjectionService.NormalizeMergesOverflow | src/services/commodity-projection.service.spec.ts:28-68 | buckets (n, a) and (n + 1, b) become the single bucket (n, a + b) |
| ProjectionService.NormalizeRelabelsOverflow | src/services/commodity-projection.service.int.spec.ts:86-109 | with no ordinal n, the overflow (n + 1, b) becomes (n, b) |
| ProjectionService.NormalizeIdempotent | src/services/commodity-projection.service.spec.ts:28-68 | normalising a normalised histogram changes nothing |
| ProjectionService.NormalizeFillsMissingBucketsExample | src/services/commodity-projection.service.spec.ts:93-127 | ordinals 1, 7, 10, 11 with counts 2, 1, 3, 1 give the ten buckets the test expects |
| ProjectionService.GapExampleKept | src/services/commodity-projection.service.spec.ts:93-127 | in that example buckets 1 and 7 keep their counts and bucket 10 also takes the overflow: 3 + 1 |
| ProjectionService.GapExampleFilled | src/services/commodity-projection.service.spec.ts:93-127 | in that example ordinals 2-6, 8 and 9 get count 0 |
| ProjectionService.HistogramOf | src/services/commodity-projection.service.ts:33-53 | succeeds unless the count is below 1 for `value`; tagged numeric iff the column is numeric; category buckets passed through unchanged |
| ProjectionService.GetHistogram | src/services/commodity-projection.service.ts:33-53 | over the in-memory repository, answers HistogramOf of its store |
| ProjectionService.NumericHistogramIsDense | src/services/commodity-projection.service.spec.ts:70-91 | numeric answer: exactly bucketCount buckets, ordinals 1..bucketCount, total = defined values, range [min, max] or none |
| ProjectionService.DenseBucketsAreGroupSizes | src/services/commodity-projection.service.int.spec.ts:36-84 | dense bucket i + 1 holds group i's values; the last also holds the values equal to the maximum |
| ProjectionService.SparseMatchesGroupCounts | src/repositories/commodity-projection.repo.fake.ts:106-134 | the repository's count of ordinal i + 1 is the size of group i, for every group including the extra one, empty or not |
| ProjectionService.CountAtNonEmptyBuckets | src/repositories/commodity-projection.repo.fake.ts:131-134 | reading the sparse buckets back by ordinal gives the group counts, 0 for empty groups |
| ProjectionService.NoValuesGiveZeroBuckets | src/services/commodity-projection.service.int.spec.ts:111-123 | a store without defined values answers bucketCount zero buckets and no range, as an empty store does |
| ProjectionService.AggregateRowsNormalize | src/repositories/commodity-projection.repo.ts:137-142 | over Postgres: a row keeping the query's promise becomes bucketCount dense buckets with the row's total and range; no row or a null aggregate becomes bucketCount zero buckets without a range |
| ProjectionService.EmptyAnswersAgree | src/repositories/commodity-projection.repo.ts:137-142 | a store without values in memory and an empty aggregate from Postgres get the same answer from the service |
| ProjectionService.DenseFromGroupCounts | src/services/commodity-projection.service.int.spec.ts:36-84 | over values spanning a range the answer is fixed by the group counts: bucket i + 1 holds group i, the last also the extra group, range [min, max] |
| ProjectionService.MissingBucketsValues | src/services/commodity-projection.service.int.spec.ts:87-94 | the inserted rows carry the values 0, 5, 6, 25, 50 |
| ProjectionService.NumericValuesOfValueRows | src/services/commodity-projection.service.int.spec.ts:87-94 | rows that set only `value` give back their values, in order |
| ProjectionService.MissingBucketsRange | src/services/commodity-projection.service.int.spec.ts:87-94 | their minimum is 0 and their maximum 50 |
| ProjectionService.MissingBucketsGroupCounts | src/services/commodity-projection.service.int.spec.ts:86-109 | over [0, 50] with 5 buckets the groups 0..5 count 3, 0, 1, 0, 0, 1 |
| ProjectionService.MissingBucketsAnswer | src/services/commodity-projection.service.int.spec.ts:96-108 | those counts and that range give the dense buckets (1, 3), (2, 0), (3, 1), (4, 0), (5, 1) |
| ProjectionService.MissingBucketsDense | src/services/commodity-projection.service.int.spec.ts:96-108 | group counts 3, 0, 1, 0, 0, 1 give the dense buckets (1, 3), (2, 0), (3, 1), (4, 0), (5, 1) |
| ProjectionService.MissingBucketsScenario | src/services/commodity-projection.service.int.spec.ts:86-109 | the test's rows with bucketCount 5 give exactly the answer the test expects, range [0, 50] |
| ProjectionController.TrimStartSpec | src/controllers/commodity-projection.controller.ts:35 | trimStart keeps a suffix not starting with white space and drops only white space |
| ProjectionController.TrimEndSpec | src/controllers/commodity-projection.controller.ts:35 | trimEnd keeps a prefix not ending with white space and drops only white space |
| ProjectionController.TrimSpec | src/controllers/commodity-projection.controller.ts:35 | `trim()` keeps a slice with white space on neither end and drops only white space around it |
| ProjectionController.TrimPadded | src/controllers/commodity-projection.controller.ts:35 | surrounding white space makes no difference to `trim()` |
| ProjectionController.ToLowerChar | src/controllers/commodity-projection.controller.ts:35 | A–Z map to a–z, every other character is kept |
| ProjectionController.ToLower | src/controllers/commodity-projection.controller.ts:35 | same length, each character lower-cased |
| ProjectionController.ResolveDimension | src/controllers/commodity-projection.controller.ts:35-36 | trim, lower-case, look up; stated by KeysAreCanonical, ResolveIgnoresCase and ResolveIgnoresPadding |
| ProjectionController.GetHistogram | src/controllers/commodity-projection.controller.ts:31-43 | unknown dimension gives NotFound carrying the dimension; otherwise the service's answer for the mapped column, unchanged |
| ProjectionController.DimensionTableRoundTrip | src/controllers/commodity-projection.controller.ts:13-22 | the table and its inverse round-trip: every column under exactly one key |
| ProjectionController.KeysAreCanonical | src/controllers/commodity-projection.controller.ts:13-22 | every key is trimmed lower-case text and resolves to its own column |
| ProjectionController.ResolveIgnoresCase | src/controllers/commodity-projection.controller.ts:35-36 | dimensions equal after lower-casing resolve alike |
| ProjectionController.ResolveIgnoresPadding | src/controllers/commodity-projection.controller.ts:35-36 | surrounding white space does not change the resolved column |
| ProjectionController.ResolvePaddedAttribute | src/controllers/commodity-projection.controller.spec.ts:17-20 | " AtTribute " resolves to `attribute` |
| ProjectionController.ResolvePaddedValue | src/controllers/commodity-projection.controller.spec.ts:17-20 | "  VaLue " resolves to `value` |
| ProjectionController.ResolveUnknownDimension | src/controllers/commodity-projection.controller.spec.ts:22-30 | "unknown dimension" resolves to nothing (NotFound) |
| Constants.VersionRange | src/constants.ts:15-24 | what `buildVersionRange` returns as written; stated by VersionRangeNumbers, BasicVersionRange and InvertedRangeGivesNoVersions |
| Constants.BuildVersionRange | src/constants.ts:15-24 | the loop yields VersionRange: numerals of start..end, none if the end is omitted or below the start |
| Constants.VersionRangeNumbers | src/constants.ts:20-21 | end − start + 1 versions; element k reads back as start + k, so they ascend numerically |
| Constants.BasicVersionRange | src/constants.spec.ts:4-6 | 1 to 3 gives "1", "2", "3" |
| Constants.InvertedRangeGivesNoVersions | src/constants.ts:20-23 | as written, 1 to 0 gives [] instead of failing |
| Constants.CheckedVersionRange | src/constants.spec.ts:8-10 | fails iff the end is given and below the start; otherwise the same versions |
| Constants.BuildCheckedVersionRange | src/constants.spec.ts:8-10 | the checked loop yields CheckedVersionRange |
| Constants.SupportedVersionsIsEmpty | src/constants.ts:27 | `buildVersionRange(V1)` with the end omitted gives no versions |

## Left out

- FakeRepo.NumericHistogramOf / NumericBucketing.GroupOf: values are integers of magnitude below 10^21, and exact only below 2^53. `bucketSize` is a float division, and the check re-reads each value with `parseInt` of its string, while min and max use the raw values. For such integers the re-reading is the identity, and the model uses exact cross-multiplied comparisons. Float rounding at group boundaries is not modelled. From 10^21 on, the string has an exponent (`1e+21`) and `parseInt` keeps only its leading digits. For example, values 0 and 1e21 with 5 buckets give `[(1, 2)]` in the source and `[(1, 1), (6, 1)]` in the model.
- FakeRepo.NumericHistogramOf: the bucket count is an integer here. A fractional count would also change the number of groups the loop builds; only the validator (`ValidateNumericHistogramArgs`) takes it as a real.
- ValidateNumericHistogramArgs: the count is a finite number or NaN (`CountArg`). An infinite count is not modelled: `floor(Infinity)` passes, and `floor(-Infinity)` would be thrown as the count. What the repositories compute once a NaN count has passed the check is not modelled either. The histogram functions take an integer count, and the controller passes 10 (`ProjectionController.GetHistogram`).
- CategoryAggregation.Less: `localeCompare` is locale-sensitive. The model uses plain lexicographic order by character code.
- CategoryAggregation.Tally: the accumulator is a plain object. Keys such as `__proto__` or `constructor` would hit its prototype, and that is not modelled.
- ProjectionController.ToLower: lower-cases only A–Z. `toLowerCase` also maps non-ASCII letters, which the model keeps unchanged.
- The SQL queries and their execution by Postgres, and `HistogramSchema.parse`: foreign calls. Their results appear only as a contract (`NumericHistogramMeetsContract`, `CategoryHistogramMeetsContract`). The handling of the aggregate row (`FromAggregateRows`) is modelled, with what the service makes of it (`AggregateRowsNormalize`, `EmptyAnswersAgree`).
- The two sources differ on records without `value`. The SQL returns no bucket for them. The in-memory repository takes the equal-bounds branch and returns the bucket (1, 0), and the model follows it (`NoDefinedValuesGiveZeroBucket`). Both give the same dense answer after normalisation (`NoValuesGiveZeroBuckets`).
- Fake ids: `idSeq` is never initialised, so its ids are NaN. The insert results are placeholders. Records carry no id in the model.
- FakeRepo.FakeCommodityProjectionRepo.Delete: criteria are modelled by their number of own keys. A number has none, so `delete(5)` empties the store. `Date` and `ObjectId` criteria are not modelled.
- Promises and `async`: every call is synchronous in the model.
- The service's `DataSource` constructor and the call to the missing `getCategoricalHistogramBuckets` are not modelled. The service is modelled over the in-memory repository (`GetHistogram`), and its answer is stated for any store (`HistogramOf`).
- ProjectionController.GetHistogram: the controller passes no bucket count, and the service has none to default to. The model passes 10 (`DefaultBucketCount`); the missing count itself reaches the validator as NaN and passes (`MissingCountPasses`).
- `buildVersionRange` over non-integer numbers: start and end are integers in the model.
- Decimal.IntToDecimal / Constants.BuildVersionRange / Constants.VersionRange: integers are unbounded here. JavaScript prints a number of magnitude 10^21 or more with an exponent (`1e+21`), which `IntToDecimal` does not, and `i++` stops advancing past 2^53, so `buildVersionRange(0, 2 ** 53)` never ends, while the model returns 2^53 + 1 numerals.
- NestJS wiring, bootstrap, metrics, logging, exception filters, configuration, migrations, DTO copy functions and the load test are plumbing without histogram logic.

## Findings

| source | as written | input that shows it | evidently intended | confidence | as-written member | corrected member |
|---|---|---|---|---|---|---|
| src/constants.ts:20-23 | an end below the start skips the loop and returns an empty list | `buildVersionRange(1, 0)` returns `[]`, while the test at src/constants.spec.ts:8-10 expects a throw | an inverted range is refused | high (not executed) | Constants.InvertedRangeGivesNoVersions | Constants.CheckedVersionRange |
