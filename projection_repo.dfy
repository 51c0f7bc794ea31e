/** Field classification and argument validation of the repository extension
    (src/repositories/commodity-projection.repo.ts), and the contract its
    SQL queries promise about their results. */
module ProjectionRepo {
  import opened Wrappers
  import opened Entities

  /** Only `value` can be binned numerically; every other column is categorical. */
  predicate IsNumericProperty(prop: Property) {
    prop == Value
  }

  /** Throws when the numeric column is asked for a category histogram. */
  function ValidateCategoryHistogramArgs(prop: Property): Outcome<HistogramError> {
    if prop == Value then Fail(NumericPropertyForCategory(prop)) else Pass
  }

  /** The bucket count as the validator receives it: a finite number, or NaN,
      which is what lodash `floor(undefined)` makes of a call without a count. */
  datatype CountArg = Finite(x: real) | NaN

  /** Throws for a non-numeric column first; then floors the bucket count and
      throws when it is below 1. The floored count is used only for the check.
      `NaN < 1` is false, so a NaN count passes. */
  function ValidateNumericHistogramArgs(prop: Property, bucketCount: CountArg): Outcome<HistogramError> {
    if prop != Value then Fail(NonNumericPropertyForNumeric(prop))
    else
      match bucketCount
      case NaN => Pass
      case Finite(x) =>
        var floored := x.Floor;
        if floored < 1 then Fail(NonPositiveBucketCount(floored)) else Pass
  }

  /** The category validator fails exactly for the numeric column. */
  lemma CategoryValidatorRejectsOnlyNumeric(prop: Property)
    ensures ValidateCategoryHistogramArgs(prop).Fail? <==> IsNumericProperty(prop)
    ensures ValidateCategoryHistogramArgs(prop).Fail? ==>
              ValidateCategoryHistogramArgs(prop).error == NumericPropertyForCategory(prop)
  {
  }

  /** The numeric validator fails for a text column whatever the count, and for
      `value` exactly when the floored count is below 1. */
  lemma NumericValidatorCases(prop: Property, bucketCount: real)
    ensures !IsNumericProperty(prop) ==>
              ValidateNumericHistogramArgs(prop, Finite(bucketCount)) == Fail(NonNumericPropertyForNumeric(prop))
    ensures IsNumericProperty(prop) ==>
              (ValidateNumericHistogramArgs(prop, Finite(bucketCount)).Pass? <==> bucketCount >= 1.0)
    ensures IsNumericProperty(prop) && bucketCount < 1.0 ==>
              ValidateNumericHistogramArgs(prop, Finite(bucketCount)) == Fail(NonPositiveBucketCount(bucketCount.Floor))
  {
  }

  /** With a usable bucket count, exactly one of the two validators accepts a
      column, and the numeric one accepts exactly the numeric column. */
  lemma ValidatorsPartitionProperties(prop: Property, bucketCount: real)
    requires bucketCount >= 1.0
    ensures ValidateNumericHistogramArgs(prop, Finite(bucketCount)).Pass? <==> IsNumericProperty(prop)
    ensures ValidateCategoryHistogramArgs(prop).Pass? <==> !IsNumericProperty(prop)
    ensures ValidateNumericHistogramArgs(prop, Finite(bucketCount)).Pass? != ValidateCategoryHistogramArgs(prop).Pass?
  {
  }

  /** A fractional count is floored only for the check: 1.5 passes, 0.5 does not. */
  lemma FlooringExamples()
    ensures ValidateNumericHistogramArgs(Value, Finite(1.5)) == Pass
    ensures ValidateNumericHistogramArgs(Value, Finite(0.5)) == Fail(NonPositiveBucketCount(0))
    ensures ValidateNumericHistogramArgs(Value, Finite(-2.5)) == Fail(NonPositiveBucketCount(-3))
  {
  }

  /** A call without a bucket count floors `undefined` to NaN, which is not
      below 1: for `value` the check passes, and a text column is still refused. */
  lemma MissingCountPasses(prop: Property)
    ensures ValidateNumericHistogramArgs(prop, NaN).Pass? <==> IsNumericProperty(prop)
    ensures !IsNumericProperty(prop) ==> ValidateNumericHistogramArgs(prop, NaN) == Fail(NonNumericPropertyForNumeric(prop))
  {
  }

  /** The promise of the numeric query: ordered by ordinal with no ordinal twice,
      empty buckets absent, ordinals between 1 and bucketCount + 1 (the last one
      holding the values equal to the maximum). */
  ghost predicate SparseContract(buckets: seq<NumericBucket>, bucketCount: int) {
    && (forall j :: 0 <= j < |buckets| ==> 1 <= buckets[j].ordinal <= bucketCount + 1 && buckets[j].count > 0)
    && StrictlyAscending(buckets)
  }

  /** The aggregate row the numeric query returns: `buckets` is null when no row matched. */
  datatype AggregateRow = AggregateRow(buckets: Option<seq<NumericBucket>>, start: Option<int>, end: Option<int>)

  /** Turns the query's rows into a histogram: no row, or a row whose bucket
      aggregate is null, gives `{ buckets: [] }` with no range. */
  function FromAggregateRows(rows: seq<AggregateRow>): (h: NumericHistogram)
    ensures (|rows| == 0 || rows[0].buckets.None?) ==> h == NumericHistogram([], None, None)
    ensures |rows| > 0 && rows[0].buckets.Some? ==>
              h.buckets == rows[0].buckets.value && h.start == rows[0].start && h.end == rows[0].end
  {
    if |rows| > 0 && rows[0].buckets.Some? then
      NumericHistogram(rows[0].buckets.value, rows[0].start, rows[0].end)
    else
      NumericHistogram([], None, None)
  }
}
