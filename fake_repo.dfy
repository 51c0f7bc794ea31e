/** The in-memory repository (src/repositories/commodity-projection.repo.fake.ts):
    a record store changed in place, and the two histogram computations over
    it. It is the reference for the contract the SQL of the Postgres
    repository implements. */
module FakeRepo {
  import opened Wrappers
  import opened Entities
  import opened ProjectionRepo
  import opened NumericBucketing
  import opened CategoryAggregation
  import opened Decimal

  /** The `value` column of the store: `cp[prop]` of every record, undefined as `None`. */
  function ValueColumn(records: seq<CommodityProjection>): seq<Option<int>> {
    seq(|records|, k requires 0 <= k < |records| => records[k].value)
  }

  /** The values of the records that define `value`, in record order. */
  function NumericValues(records: seq<CommodityProjection>): (vs: seq<int>)
    ensures |vs| <= |records|
    ensures forall v :: v in vs <==> exists k :: 0 <= k < |records| && records[k].value == Some(v)
  {
    if records == [] then []
    else
      var init := records[..|records| - 1];
      var last := records[|records| - 1];
      var vs := NumericValues(init);
      assert forall k :: 0 <= k < |init| ==> init[k] == records[k];
      if last.value.Some? then vs + [last.value.value] else vs
  }

  /** The filter keeps each value as often as the records carry it, and one
      value for every record that does not miss it. */
  lemma {:induction false} NumericValuesCounts(records: seq<CommodityProjection>)
    ensures |NumericValues(records)| == |records| - multiset(ValueColumn(records))[None]
    ensures forall v :: multiset(NumericValues(records))[v] == multiset(ValueColumn(records))[Some(v)]
  {
    if records != [] {
      var init := records[..|records| - 1];
      NumericValuesCounts(init);
      assert ValueColumn(records) == ValueColumn(init) + [records[|records| - 1].value];
    }
  }

  /** lodash `min`: undefined for no values, else the least one. */
  function MinOf(vs: seq<int>): (m: Option<int>)
    ensures m.None? <==> vs == []
    ensures m.Some? ==> m.value in vs && forall v :: v in vs ==> m.value <= v
  {
    if vs == [] then None
    else
      var rest := MinOf(vs[1..]);
      assert vs == [vs[0]] + vs[1..];
      if rest.Some? && rest.value < vs[0] then rest else Some(vs[0])
  }

  /** lodash `max`: undefined for no values, else the greatest one. */
  function MaxOf(vs: seq<int>): (m: Option<int>)
    ensures m.None? <==> vs == []
    ensures m.Some? ==> m.value in vs && forall v :: v in vs ==> v <= m.value
  {
    if vs == [] then None
    else
      var rest := MaxOf(vs[1..]);
      assert vs == [vs[0]] + vs[1..];
      if rest.Some? && rest.value > vs[0] then rest else Some(vs[0])
  }

  /** What `_getNumericHistogram` returns for the store `records`. */
  function NumericHistogramOf(records: seq<CommodityProjection>, prop: Property, bucketCount: int)
    : (r: Result<NumericHistogram, HistogramError>)
    ensures r.Ok? <==> prop == Value && bucketCount >= 1
  {
    var check := ValidateNumericHistogramArgs(prop, Finite(bucketCount as real));
    if check.Fail? then Err(check.error)
    else if |records| == 0 then Ok(NumericHistogram([], None, None))
    else
      var values := NumericValues(records);
      var minimum, maximum := MinOf(values), MaxOf(values);
      if minimum == maximum then
        Ok(NumericHistogram([NumericBucket(1, |values|)], minimum, maximum))
      else
        Ok(NumericHistogram(NonEmptyBuckets(GroupCounts(values, minimum.value, maximum.value, bucketCount)), minimum, maximum))
  }

  /** `cp[prop]` of every record, for a text column. */
  function TextValues(records: seq<CommodityProjection>, prop: Property): (vs: seq<Option<string>>)
    requires prop != Value
    ensures |vs| == |records| && forall k :: 0 <= k < |records| ==> vs[k] == TextField(records[k], prop)
  {
    seq(|records|, k requires 0 <= k < |records| => TextField(records[k], prop))
  }

  /** What `_getCategoryHistogram` returns for the store `records`. */
  function CategoryHistogramOf(records: seq<CommodityProjection>, prop: Property)
    : (r: Result<CategoryHistogram, HistogramError>)
    ensures r.Err? <==> IsNumericProperty(prop)
  {
    var check := ValidateCategoryHistogramArgs(prop);
    if check.Fail? then Err(check.error)
    else Ok(CategoryHistogram(CategoryBuckets(TextValues(records, prop))))
  }

  /** The argument of `_insert`: one entity or an array of them. */
  datatype InsertArg = One(entity: CommodityProjection) | Many(entities: seq<CommodityProjection>)

  function InsertedRows(arg: InsertArg): seq<CommodityProjection> {
    match arg
    case One(e) => [e]
    case Many(es) => es
  }

  /** The argument of `_delete`, by the number of own keys it has:
      `Object.keys` of a number is empty, of a string or array one key per
      element, of a where-object one per field. */
  datatype DeleteCriteria = ById(id: int) | ByText(text: string) | ByIds(ids: seq<int>) | Where(fields: set<string>)

  function KeyCount(criteria: DeleteCriteria): nat {
    match criteria
    case ById(_) => 0
    case ByText(t) => |t|
    case ByIds(ids) => |ids|
    case Where(fields) => |fields|
  }

  datatype DeleteResult = DeleteResult(raw: string)

  class FakeCommodityProjectionRepo {
    var records: seq<CommodityProjection>

    constructor ()
      ensures records == []
    {
      records := [];
    }

    /** `_clear`: empties the store. */
    method Clear()
      modifies this
      ensures records == []
    {
      records := [];
    }

    /** `_insert`: appends the entities, in order. */
    method Insert(arg: InsertArg)
      modifies this
      ensures records == old(records) + InsertedRows(arg)
    {
      match arg {
        case Many(es) => records := records + es;
        case One(e) => records := records + [e];
      }
    }

    /** `_delete`: only deleting everything is supported; any criteria with a
        key throws and leaves the store alone. */
    method Delete(criteria: DeleteCriteria) returns (r: Result<DeleteResult, HistogramError>)
      modifies this
      ensures KeyCount(criteria) > 0 ==> r == Err(OnlyDeleteAllSupported) && records == old(records)
      ensures KeyCount(criteria) == 0 ==>
                r == Ok(DeleteResult("DELETE " + NatToDecimal(|old(records)|))) && records == []
    {
      if KeyCount(criteria) > 0 {
        return Err(OnlyDeleteAllSupported);
      }
      var count := |records|;
      records := [];
      r := Ok(DeleteResult("DELETE " + NatToDecimal(count)));
    }

    /** `_getNumericHistogram`: one counting group per ordinal 1..bucketCount + 1,
        each value counted in the first group whose check accepts it. */
    method GetNumericHistogram(prop: Property, bucketCount: int) returns (r: Result<NumericHistogram, HistogramError>)
      ensures r == NumericHistogramOf(records, prop, bucketCount)
    {
      var check := ValidateNumericHistogramArgs(prop, Finite(bucketCount as real));
      if check.Fail? {
        return Err(check.error);
      }
      if |records| == 0 {
        return Ok(NumericHistogram([], None, None));
      }
      var values := NumericValues(records);
      var minimum, maximum := MinOf(values), MaxOf(values);
      if minimum == maximum {
        return Ok(NumericHistogram([NumericBucket(1, |values|)], minimum, maximum));
      }
      var lo, hi := minimum.value, maximum.value;
      var n: nat := bucketCount;
      // counts[i] is the count of the group with ordinal i + 1
      var counts := new nat[n + 1](i => 0);
      assert counts[..] == GroupCounts([], lo, hi, n);
      var k := 0;
      while k < |values|
        invariant 0 <= k <= |values|
        invariant counts.Length == n + 1
        invariant counts[..] == GroupCounts(values[..k], lo, hi, n)
      {
        var v := values[k];
        ghost var before := counts[..];
        var i := 0;
        while i <= n
          invariant 0 <= i <= n + 1
          invariant counts[..] == before
          invariant GroupOf(v, lo, hi, n) == FirstGroup(v, lo, hi, n, i)
        {
          if InGroup(v, lo, hi, n, i) {
            counts[i] := counts[i] + 1;
            break;
          }
          i := i + 1;
        }
        assert values[..k + 1] == values[..k] + [v];
        GroupCountsSnoc(values[..k], v, lo, hi, n);
        k := k + 1;
      }
      assert values[..k] == values;
      r := Ok(NumericHistogram(NonEmptyBuckets(counts[..]), minimum, maximum));
    }
  }

  /** With no records at all the numeric histogram is `{ buckets: [] }`, without a range. */
  lemma EmptyStoreHasNoBuckets(bucketCount: int)
    requires bucketCount >= 1
    ensures NumericHistogramOf([], Value, bucketCount) == Ok(NumericHistogram([], None, None))
  {
  }

  /** When every defined value is m, there is one bucket, ordinal 1, holding
      all of them, and the range is [m, m]. */
  lemma AllEqualValuesGiveOneBucket(records: seq<CommodityProjection>, bucketCount: int, m: int)
    requires bucketCount >= 1
    requires NumericValues(records) != []
    requires forall v :: v in NumericValues(records) ==> v == m
    ensures NumericHistogramOf(records, Value, bucketCount)
            == Ok(NumericHistogram([NumericBucket(1, |NumericValues(records)|)], Some(m), Some(m)))
  {
  }

  /** Records that all lack `value` take the same branch (min and max are both
      undefined): one bucket of ordinal 1 with count 0, and no range. */
  lemma NoDefinedValuesGiveZeroBucket(records: seq<CommodityProjection>, bucketCount: int)
    requires bucketCount >= 1
    requires records != [] && NumericValues(records) == []
    ensures NumericHistogramOf(records, Value, bucketCount) == Ok(NumericHistogram([NumericBucket(1, 0)], None, None))
  {
  }

  /** Every value lies between the minimum and the maximum. */
  lemma ValuesWithinRange(values: seq<int>)
    requires values != []
    ensures MinOf(values).Some? && MaxOf(values).Some?
    ensures forall k :: 0 <= k < |values| ==> MinOf(values).value <= values[k] <= MaxOf(values).value
  {
    assert forall k :: 0 <= k < |values| ==> values[k] in values;
  }

  /** Over values that span a range, each bucket holds the number of values
      whose first matching group is its ordinal - 1; every non-empty group has
      its bucket; the values equal to the maximum make up the bucket with the
      extra ordinal bucketCount + 1. */
  lemma NumericBucketsAreGroupSizes(records: seq<CommodityProjection>, bucketCount: int)
    requires bucketCount >= 1
    requires MinOf(NumericValues(records)) != MaxOf(NumericValues(records))
    ensures var values := NumericValues(records);
      var lo, hi := MinOf(values).value, MaxOf(values).value;
      var bs := NumericHistogramOf(records, Value, bucketCount).value.buckets;
      && lo < hi
      && BucketsAreGroupSizes(bs, values, lo, hi, bucketCount)
      && HasBucket(bs, NumericBucket(bucketCount + 1, multiset(values)[hi]))
  {
    var values := NumericValues(records);
    SpreadHistogram(records, bucketCount);
    ValuesWithinRange(values);
    var lo, hi := MinOf(values).value, MaxOf(values).value;
    assert hi in values;
    var bs := NumericHistogramOf(records, Value, bucketCount).value.buckets;
    assert bs == NonEmptyBuckets(GroupCounts(values, lo, hi, bucketCount));
    SparseBucketsAreGroupSizes(values, lo, hi, bucketCount);
  }

  /** Every group of the spread that holds a value has its bucket. */
  lemma NumericBucketsComplete(records: seq<CommodityProjection>, bucketCount: int)
    requires bucketCount >= 1
    requires MinOf(NumericValues(records)) != MaxOf(NumericValues(records))
    ensures var values := NumericValues(records);
      var lo, hi := MinOf(values).value, MaxOf(values).value;
      forall i :: 0 <= i <= bucketCount && CountInGroup(values, lo, hi, bucketCount, i) > 0 ==>
        HasOrdinal(NumericHistogramOf(records, Value, bucketCount).value.buckets, i + 1)
  {
    var values := NumericValues(records);
    SpreadHistogram(records, bucketCount);
    SparseBucketsComplete(values, MinOf(values).value, MaxOf(values).value, bucketCount);
  }

  /** The buckets of a histogram over values that span a range. */
  lemma SpreadHistogram(records: seq<CommodityProjection>, bucketCount: int)
    requires bucketCount >= 1
    requires MinOf(NumericValues(records)) != MaxOf(NumericValues(records))
    ensures var values := NumericValues(records);
      && values != []
      && MinOf(values).value < MaxOf(values).value
      && NumericHistogramOf(records, Value, bucketCount).value.buckets
         == NonEmptyBuckets(GroupCounts(values, MinOf(values).value, MaxOf(values).value, bucketCount))
  {
  }

  /** The contract of the numeric query, met by the in-memory computation:
      ordinals strictly ascending within 1..bucketCount + 1, the counts adding
      up to the number of records that define `value` (the others are
      ignored), and, when there are values, no empty bucket and the range
      [minimum, maximum]. */
  lemma NumericHistogramMeetsContract(records: seq<CommodityProjection>, bucketCount: int)
    requires bucketCount >= 1
    ensures var values := NumericValues(records);
      var h := NumericHistogramOf(records, Value, bucketCount).value;
      && StrictlyAscending(h.buckets)
      && (forall j :: 0 <= j < |h.buckets| ==> 1 <= h.buckets[j].ordinal <= bucketCount + 1)
      && TotalCount(h.buckets) == |values|
      && (values != [] ==> SparseContract(h.buckets, bucketCount) && h.start == MinOf(values) && h.end == MaxOf(values))
      && (values == [] ==> h.start.None? && h.end.None?)
  {
    var values := NumericValues(records);
    var h := NumericHistogramOf(records, Value, bucketCount).value;
    if records != [] && MinOf(values) != MaxOf(values) {
      var lo, hi := MinOf(values).value, MaxOf(values).value;
      var counts := GroupCounts(values, lo, hi, bucketCount);
      NonEmptyBucketsCounts(counts);
      NonEmptyBucketsAscending(counts);
      NonEmptyBucketsTotal(counts);
      ValuesWithinRange(values);
      GroupCountsTotal(values, lo, hi, bucketCount);
    } else if records != [] {
      assert TotalCount(h.buckets) == TotalCount([]) + |values|;
    }
  }

  /** The in-memory category histogram: the numeric column is refused; for a
      text column there is one bucket per distinct defined value, holding its
      number of occurrences, strictly ascending by value; records without the
      column are skipped, and an empty store gives no buckets. */
  lemma CategoryHistogramMeetsContract(records: seq<CommodityProjection>, prop: Property)
    requires prop != Value
    ensures CategoryHistogramOf(records, prop).Ok?
    ensures var bs := CategoryHistogramOf(records, prop).value.buckets;
      && SortedByValue(bs)
      && (forall j :: 0 <= j < |bs| ==> bs[j].count == multiset(TextValues(records, prop))[Some(bs[j].value)] > 0)
      && (forall k :: 0 <= k < |records| && TextField(records[k], prop).Some? ==>
            exists j :: 0 <= j < |bs| && bs[j].value == TextField(records[k], prop).value)
      && (forall j :: 0 <= j < |bs| ==> exists k :: 0 <= k < |records| && TextField(records[k], prop) == Some(bs[j].value))
      && (records == [] ==> bs == [])
  {
    CategoryHistogramCounts(records, prop);
    CategoryHistogramCovers(records, prop);
  }

  /** Sorted by value, each bucket counting the records that carry its value. */
  lemma CategoryHistogramCounts(records: seq<CommodityProjection>, prop: Property)
    requires prop != Value
    ensures CategoryHistogramOf(records, prop).Ok?
    ensures var bs := CategoryHistogramOf(records, prop).value.buckets;
      && SortedByValue(bs)
      && (forall j :: 0 <= j < |bs| ==> bs[j].count == multiset(TextValues(records, prop))[Some(bs[j].value)] > 0)
  {
    CategoryBucketsSpec(TextValues(records, prop));
  }

  /** Every defined value of the column has a bucket, every bucket's value
      occurs in some record, and an empty store has no buckets. */
  lemma CategoryHistogramCovers(records: seq<CommodityProjection>, prop: Property)
    requires prop != Value
    ensures var bs := CategoryHistogramOf(records, prop).value.buckets;
      && (forall k :: 0 <= k < |records| && TextField(records[k], prop).Some? ==>
            exists j :: 0 <= j < |bs| && bs[j].value == TextField(records[k], prop).value)
      && (forall j :: 0 <= j < |bs| ==> exists k :: 0 <= k < |records| && TextField(records[k], prop) == Some(bs[j].value))
      && (records == [] ==> bs == [])
  {
    var values := TextValues(records, prop);
    var bs := CategoryBuckets(values);
    assert CategoryHistogramOf(records, prop).value.buckets == bs;
    CategoryBucketsSpec(values);
    ColumnValues(records, prop);
  }

  /** A value is in the column exactly when some record carries it. */
  lemma ColumnValues(records: seq<CommodityProjection>, prop: Property)
    requires prop != Value
    ensures forall v :: Some(v) in TextValues(records, prop) <==>
      exists k :: 0 <= k < |records| && TextField(records[k], prop) == Some(v)
  {
    var values := TextValues(records, prop);
    forall v | Some(v) in values ensures exists k :: 0 <= k < |records| && TextField(records[k], prop) == Some(v) {
      var k :| 0 <= k < |values| && values[k] == Some(v);
    }
  }
}
