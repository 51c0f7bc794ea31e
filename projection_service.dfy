/** The histogram service (src/services/commodity-projection.service.ts): it
    picks the numeric or the category histogram by the kind of property and
    turns the sparse numeric buckets of the repository into exactly
    `bucketCount` dense ones, the overflow ordinal merged into the last. */
module ProjectionService {
  import opened Wrappers
  import opened Entities
  import opened ProjectionRepo
  import opened NumericBucketing
  import opened CategoryAggregation
  import opened FakeRepo

  /** The tagged answer: `{ type: 'numeric', buckets, start?, end? }` or
      `{ type: 'category', buckets }`. */
  datatype HistogramDto =
    | Numeric(buckets: seq<NumericBucket>, start: Option<int>, end: Option<int>)
    | Category(categories: seq<CategoryBucket>)

  /** The bucket count used when the caller supplies none. */
  const DefaultBucketCount: int := 10

  /** The count the sparse buckets hold for one ordinal, 0 when it is absent. */
  function CountAt(sparse: seq<NumericBucket>, ordinal: int): nat {
    if sparse == [] then 0
    else
      var last := sparse[|sparse| - 1];
      CountAt(sparse[..|sparse| - 1], ordinal) + (if last.ordinal == ordinal then last.count else 0)
  }

  /** The normaliser: n dense buckets, position i holding ordinal i + 1; the
      last one also takes the overflow ordinal n + 1, and an ordinal with no
      sparse bucket gets count 0. */
  function Normalize(sparse: seq<NumericBucket>, n: nat): (dense: seq<NumericBucket>)
    ensures |dense| == n
    ensures forall i :: 0 <= i < n ==> dense[i].ordinal == i + 1
    ensures sparse == [] ==> forall i :: 0 <= i < n ==> dense[i].count == 0
  {
    seq(n, i requires 0 <= i < n =>
      NumericBucket(i + 1, CountAt(sparse, i + 1) + if i == n - 1 then CountAt(sparse, n + 1) else 0))
  }

  /** The sparse counts of the ordinals 1..m, in order. */
  function OrdinalCounts(sparse: seq<NumericBucket>, m: nat): seq<nat> {
    seq(m, i requires 0 <= i < m => CountAt(sparse, i + 1))
  }

  /** The counts of a bucket sequence, in order. */
  function BucketCounts(bs: seq<NumericBucket>): seq<nat> {
    seq(|bs|, i requires 0 <= i < |bs| => bs[i].count)
  }

  lemma {:induction false} TotalCountIsSum(bs: seq<NumericBucket>)
    ensures TotalCount(bs) == Sum(BucketCounts(bs))
  {
    if bs != [] {
      TotalCountIsSum(bs[..|bs| - 1]);
      assert BucketCounts(bs)[..|bs| - 1] == BucketCounts(bs[..|bs| - 1]);
    }
  }

  /** When every ordinal lies in 1..m, the per-ordinal counts add up to the total. */
  lemma {:induction false} OrdinalCountsTotal(sparse: seq<NumericBucket>, m: nat)
    requires forall j :: 0 <= j < |sparse| ==> 1 <= sparse[j].ordinal <= m
    ensures Sum(OrdinalCounts(sparse, m)) == TotalCount(sparse)
  {
    if sparse == [] {
      assert OrdinalCounts(sparse, m) == seq(m, i => 0);
      SumZeros(m);
    } else {
      var init := sparse[..|sparse| - 1];
      var last := sparse[|sparse| - 1];
      OrdinalCountsTotal(init, m);
      var before := OrdinalCounts(init, m);
      assert OrdinalCounts(sparse, m) == before[last.ordinal - 1 := before[last.ordinal - 1] + last.count];
      SumAddAt(before, last.ordinal - 1, last.count);
    }
  }

  /** Normalisation keeps the total count when every sparse ordinal lies in
      1..n + 1 (31 in, 31 out in the service's own example). */
  lemma NormalizeConservesTotal(sparse: seq<NumericBucket>, n: nat)
    requires n >= 1
    requires forall j :: 0 <= j < |sparse| ==> 1 <= sparse[j].ordinal <= n + 1
    ensures TotalCount(Normalize(sparse, n)) == TotalCount(sparse)
  {
    var dense := Normalize(sparse, n);
    var counts := OrdinalCounts(sparse, n);
    var overflow := CountAt(sparse, n + 1);
    assert TotalCount(dense) == Sum(counts) + overflow by {
      TotalCountIsSum(dense);
      assert BucketCounts(dense) == counts[n - 1 := counts[n - 1] + overflow];
      SumAddAt(counts, n - 1, overflow);
    }
    assert TotalCount(sparse) == Sum(counts) + overflow by {
      OrdinalCountsTotal(sparse, n + 1);
      var all := OrdinalCounts(sparse, n + 1);
      assert all[..n] == counts && all[n] == overflow;
    }
  }

  /** An ordinal with no sparse bucket counts 0. */
  lemma {:induction false} CountAtAbsent(sparse: seq<NumericBucket>, ordinal: int)
    requires !HasOrdinal(sparse, ordinal)
    ensures CountAt(sparse, ordinal) == 0
  {
    if sparse != [] {
      var init := sparse[..|sparse| - 1];
      forall j | 0 <= j < |init| ensures init[j].ordinal != ordinal {
        assert init[j] == sparse[j];
      }
      CountAtAbsent(init, ordinal);
    }
  }

  /** With strictly ascending ordinals, the count of a bucket's ordinal is its own count. */
  lemma {:induction false} CountAtUnique(sparse: seq<NumericBucket>, b: NumericBucket)
    requires StrictlyAscending(sparse) && HasBucket(sparse, b)
    ensures CountAt(sparse, b.ordinal) == b.count
  {
    var init := sparse[..|sparse| - 1];
    var last := sparse[|sparse| - 1];
    var j :| 0 <= j < |sparse| && sparse[j] == b;
    if j == |sparse| - 1 {
      forall k | 0 <= k < |init| ensures init[k].ordinal != b.ordinal {
        assert init[k] == sparse[k];
      }
      CountAtAbsent(init, b.ordinal);
    } else {
      assert init[j] == b;
      assert b.ordinal < last.ordinal;
      CountAtUnique(init, b);
    }
  }

  /** A sparse bucket below the last ordinal keeps its place and its count. */
  lemma NormalizeKeepsBucket(sparse: seq<NumericBucket>, n: nat, b: NumericBucket)
    requires StrictlyAscending(sparse) && HasBucket(sparse, b)
    requires 1 <= b.ordinal < n
    ensures Normalize(sparse, n)[b.ordinal - 1] == b
  {
    CountAtUnique(sparse, b);
  }

  /** A missing ordinal is filled with count 0; for the last ordinal this
      needs the overflow ordinal to be missing as well. */
  lemma NormalizeFillsGap(sparse: seq<NumericBucket>, n: nat, ordinal: int)
    requires 1 <= ordinal <= n && !HasOrdinal(sparse, ordinal)
    requires ordinal == n ==> !HasOrdinal(sparse, n + 1)
    ensures Normalize(sparse, n)[ordinal - 1] == NumericBucket(ordinal, 0)
  {
    CountAtAbsent(sparse, ordinal);
    if ordinal == n {
      CountAtAbsent(sparse, n + 1);
    }
  }

  /** The overflow bucket is added to the bucket of ordinal n and disappears. */
  lemma NormalizeMergesOverflow(sparse: seq<NumericBucket>, n: nat, a: nat, b: nat)
    requires n >= 1 && StrictlyAscending(sparse)
    requires HasBucket(sparse, NumericBucket(n, a)) && HasBucket(sparse, NumericBucket(n + 1, b))
    ensures Normalize(sparse, n)[n - 1] == NumericBucket(n, a + b)
  {
    CountAtUnique(sparse, NumericBucket(n, a));
    CountAtUnique(sparse, NumericBucket(n + 1, b));
  }

  /** With no bucket of ordinal n, the overflow bucket becomes ordinal n. */
  lemma NormalizeRelabelsOverflow(sparse: seq<NumericBucket>, n: nat, b: nat)
    requires n >= 1 && StrictlyAscending(sparse)
    requires !HasOrdinal(sparse, n) && HasBucket(sparse, NumericBucket(n + 1, b))
    ensures Normalize(sparse, n)[n - 1] == NumericBucket(n, b)
  {
    CountAtAbsent(sparse, n);
    CountAtUnique(sparse, NumericBucket(n + 1, b));
  }

  /** Normalising a dense histogram changes nothing. */
  lemma NormalizeIdempotent(sparse: seq<NumericBucket>, n: nat)
    ensures Normalize(Normalize(sparse, n), n) == Normalize(sparse, n)
  {
    var dense := Normalize(sparse, n);
    assert StrictlyAscending(dense);
    forall i | 0 <= i < n ensures CountAt(dense, i + 1) == dense[i].count {
      assert HasBucket(dense, dense[i]);
      CountAtUnique(dense, dense[i]);
    }
    assert !HasOrdinal(dense, n + 1);
    CountAtAbsent(dense, n + 1);
  }

  /** The sparse buckets of the service's own example of gap filling:
      ordinals 1, 7, 10 and the overflow 11. */
  const GapExampleSparse := [NumericBucket(1, 2), NumericBucket(7, 1), NumericBucket(10, 3), NumericBucket(11, 1)]

  /** In that example the buckets that were present keep their counts, and
      the overflow is merged into ordinal 10. */
  lemma GapExampleKept()
    ensures var dense := Normalize(GapExampleSparse, 10);
      |dense| == 10 && dense[0] == NumericBucket(1, 2) && dense[6] == NumericBucket(7, 1) && dense[9] == NumericBucket(10, 4)
  {
    var sparse := GapExampleSparse;
    assert StrictlyAscending(sparse);
    assert HasBucket(sparse, sparse[0]) && HasBucket(sparse, sparse[1]);
    NormalizeKeepsBucket(sparse, 10, sparse[0]);
    NormalizeKeepsBucket(sparse, 10, sparse[1]);
    assert HasBucket(sparse, sparse[2]) && HasBucket(sparse, sparse[3]);
    NormalizeMergesOverflow(sparse, 10, 3, 1);
  }

  /** In that example every missing ordinal gets a zero count. */
  lemma GapExampleFilled()
    ensures var dense := Normalize(GapExampleSparse, 10);
      |dense| == 10 && forall ordinal :: ordinal in [2, 3, 4, 5, 6, 8, 9] ==> dense[ordinal - 1] == NumericBucket(ordinal, 0)
  {
    var sparse := GapExampleSparse;
    assert StrictlyAscending(sparse);
    forall ordinal | ordinal in [2, 3, 4, 5, 6, 8, 9] ensures Normalize(sparse, 10)[ordinal - 1] == NumericBucket(ordinal, 0) {
      NormalizeFillsGap(sparse, 10, ordinal);
    }
  }

  /** The service's own example of gap filling: ordinals 1, 7, 10 and the
      overflow 11 with bucketCount 10. */
  lemma NormalizeFillsMissingBucketsExample()
    ensures Normalize(GapExampleSparse, 10)
         == [NumericBucket(1, 2), NumericBucket(2, 0), NumericBucket(3, 0), NumericBucket(4, 0), NumericBucket(5, 0),
             NumericBucket(6, 0), NumericBucket(7, 1), NumericBucket(8, 0), NumericBucket(9, 0), NumericBucket(10, 4)]
  {
    GapExampleKept();
    GapExampleFilled();
  }

  /** What `getHistogram` answers for the store `records`. */
  function HistogramOf(records: seq<CommodityProjection>, prop: Property, bucketCount: int)
    : (r: Result<HistogramDto, HistogramError>)
    ensures r.Ok? <==> (IsNumericProperty(prop) ==> bucketCount >= 1)
    ensures r.Ok? ==> (r.value.Numeric? <==> IsNumericProperty(prop))
    ensures r.Ok? && r.value.Category? ==> r.value.categories == CategoryHistogramOf(records, prop).value.buckets
  {
    if IsNumericProperty(prop) then
      match NumericHistogramOf(records, prop, bucketCount)
      case Err(e) => Err(e)
      case Ok(h) => Ok(Numeric(Normalize(h.buckets, bucketCount), h.start, h.end))
    else
      match CategoryHistogramOf(records, prop)
      case Err(e) => Err(e)
      case Ok(h) => Ok(Category(h.buckets))
  }

  /** `getHistogram(prop, bucketCount)` over the in-memory repository. */
  method GetHistogram(repo: FakeCommodityProjectionRepo, prop: Property, bucketCount: int)
    returns (r: Result<HistogramDto, HistogramError>)
    ensures r == HistogramOf(repo.records, prop, bucketCount)
  {
    if IsNumericProperty(prop) {
      var h := repo.GetNumericHistogram(prop, bucketCount);
      match h {
        case Err(e) => r := Err(e);
        case Ok(sparse) => r := Ok(Numeric(Normalize(sparse.buckets, bucketCount), sparse.start, sparse.end));
      }
    } else {
      match CategoryHistogramOf(repo.records, prop) {
        case Err(e) => r := Err(e);
        case Ok(h) => r := Ok(Category(h.buckets));
      }
    }
  }

  /** The numeric answer: exactly bucketCount buckets with ordinals
      1..bucketCount, counts adding up to the number of records that define
      `value`, and the range of those values (none when there are none). */
  lemma NumericHistogramIsDense(records: seq<CommodityProjection>, bucketCount: int)
    requires bucketCount >= 1
    ensures var values := NumericValues(records);
      var r := HistogramOf(records, Value, bucketCount).value;
      && r.Numeric?
      && |r.buckets| == bucketCount
      && (forall i :: 0 <= i < bucketCount ==> r.buckets[i].ordinal == i + 1)
      && TotalCount(r.buckets) == |values|
      && (values != [] ==> r.start == MinOf(values) && r.end == MaxOf(values))
      && (values == [] ==> r.start.None? && r.end.None?)
  {
    var h := NumericHistogramOf(records, Value, bucketCount).value;
    NumericHistogramMeetsContract(records, bucketCount);
    NormalizeConservesTotal(h.buckets, bucketCount);
  }

  /** Over values that span a range, dense bucket i + 1 holds the values whose
      first matching group is i, and the last bucket also holds the values
      equal to the maximum. */
  lemma DenseBucketsAreGroupSizes(records: seq<CommodityProjection>, bucketCount: int)
    requires bucketCount >= 1
    requires MinOf(NumericValues(records)) != MaxOf(NumericValues(records))
    ensures var values := NumericValues(records);
      var lo, hi := MinOf(values).value, MaxOf(values).value;
      var r := HistogramOf(records, Value, bucketCount).value;
      && (forall i :: 0 <= i < bucketCount - 1 ==> r.buckets[i].count == CountInGroup(values, lo, hi, bucketCount, i))
      && r.buckets[bucketCount - 1].count
         == CountInGroup(values, lo, hi, bucketCount, bucketCount - 1) + CountInGroup(values, lo, hi, bucketCount, bucketCount)
  {
    var values := NumericValues(records);
    SparseMatchesGroupCounts(records, bucketCount);
    NumericAnswerIsNormalized(records, bucketCount);
    NormalizeByGroupCounts(HistogramOf(records, Value, bucketCount).value.buckets,
      NumericHistogramOf(records, Value, bucketCount).value.buckets, bucketCount,
      values, MinOf(values).value, MaxOf(values).value);
  }

  /** Normalising sparse buckets whose counts are the group counts of some
      values puts group i into bucket i + 1 and the extra group into the last. */
  lemma NormalizeByGroupCounts(dense: seq<NumericBucket>, sparse: seq<NumericBucket>, n: nat, values: seq<int>, lo: int, hi: int)
    requires n >= 1 && dense == Normalize(sparse, n)
    requires forall i :: 0 <= i <= n ==> CountAt(sparse, i + 1) == CountInGroup(values, lo, hi, n, i)
    ensures forall i :: 0 <= i < n - 1 ==> dense[i].count == CountInGroup(values, lo, hi, n, i)
    ensures dense[n - 1].count == CountInGroup(values, lo, hi, n, n - 1) + CountInGroup(values, lo, hi, n, n)
  {
  }

  /** The repository's count of ordinal i + 1 is the size of group i, for
      every group including the extra one. */
  lemma SparseMatchesGroupCounts(records: seq<CommodityProjection>, bucketCount: int)
    requires bucketCount >= 1
    requires MinOf(NumericValues(records)) != MaxOf(NumericValues(records))
    ensures var values := NumericValues(records);
      forall i :: 0 <= i <= bucketCount ==>
        CountAt(NumericHistogramOf(records, Value, bucketCount).value.buckets, i + 1)
        == CountInGroup(values, MinOf(values).value, MaxOf(values).value, bucketCount, i)
  {
    forall i | 0 <= i <= bucketCount
      ensures var values := NumericValues(records);
        CountAt(NumericHistogramOf(records, Value, bucketCount).value.buckets, i + 1)
        == CountInGroup(values, MinOf(values).value, MaxOf(values).value, bucketCount, i)
    {
      SparseCountIsGroupSize(records, bucketCount, i);
    }
  }

  /** For `value` the service answers the repository's buckets, normalised. */
  lemma NumericAnswerIsNormalized(records: seq<CommodityProjection>, bucketCount: int)
    requires bucketCount >= 1
    ensures HistogramOf(records, Value, bucketCount).value.buckets
         == Normalize(NumericHistogramOf(records, Value, bucketCount).value.buckets, bucketCount)
  {
  }

  /** The sparse count of ordinal i + 1 is the size of group i, whether or not the group is empty. */
  lemma SparseCountIsGroupSize(records: seq<CommodityProjection>, bucketCount: int, i: nat)
    requires bucketCount >= 1 && i <= bucketCount
    requires MinOf(NumericValues(records)) != MaxOf(NumericValues(records))
    ensures var values := NumericValues(records);
      CountAt(NumericHistogramOf(records, Value, bucketCount).value.buckets, i + 1)
      == CountInGroup(values, MinOf(values).value, MaxOf(values).value, bucketCount, i)
  {
    var values := NumericValues(records);
    SpreadHistogram(records, bucketCount);
    CountAtNonEmptyBuckets(GroupCounts(values, MinOf(values).value, MaxOf(values).value, bucketCount), i);
  }

  /** Reading the sparse buckets back by ordinal gives the counts they came from. */
  lemma CountAtNonEmptyBuckets(counts: seq<nat>, i: nat)
    requires i < |counts|
    ensures CountAt(NonEmptyBuckets(counts), i + 1) == counts[i]
  {
    var sparse := NonEmptyBuckets(counts);
    NonEmptyBucketsCounts(counts);
    if counts[i] > 0 {
      NonEmptyBucketsComplete(counts);
      NonEmptyBucketsAscending(counts);
      var j :| 0 <= j < |sparse| && sparse[j].ordinal == i + 1;
      assert HasBucket(sparse, sparse[j]);
      CountAtUnique(sparse, sparse[j]);
    } else {
      forall j | 0 <= j < |sparse| ensures sparse[j].ordinal != i + 1 {
        assert sparse[j].count > 0;
      }
      CountAtAbsent(sparse, i + 1);
    }
  }

  /** Records that all lack `value` give the same answer as an empty store:
      bucketCount zero buckets and no range. */
  lemma NoValuesGiveZeroBuckets(records: seq<CommodityProjection>, bucketCount: int)
    requires bucketCount >= 1 && NumericValues(records) == []
    ensures HistogramOf(records, Value, bucketCount) == Ok(Numeric(Normalize([], bucketCount), None, None))
  {
    if records != [] {
      NoDefinedValuesGiveZeroBucket(records, bucketCount);
      var single := [NumericBucket(1, 0)];
      forall o ensures CountAt(single, o) == 0 {
        assert single[..0] == [];
      }
      assert Normalize(single, bucketCount) == Normalize([], bucketCount);
    }
  }

  /** Over the Postgres repository: when the aggregate row keeps the query's
      promise, the service answers bucketCount buckets with ordinals
      1..bucketCount, the row's total and the row's range; when there is no
      row, or its bucket aggregate is null, it answers bucketCount zero
      buckets and no range. */
  lemma AggregateRowsNormalize(rows: seq<AggregateRow>, bucketCount: nat)
    requires bucketCount >= 1
    requires |rows| > 0 && rows[0].buckets.Some? ==> SparseContract(rows[0].buckets.value, bucketCount)
    ensures var h := FromAggregateRows(rows);
      var dense := Normalize(h.buckets, bucketCount);
      && |dense| == bucketCount
      && (forall i :: 0 <= i < bucketCount ==> dense[i].ordinal == i + 1)
      && (|rows| > 0 && rows[0].buckets.Some? ==>
            TotalCount(dense) == TotalCount(rows[0].buckets.value) && h.start == rows[0].start && h.end == rows[0].end)
      && ((|rows| == 0 || rows[0].buckets.None?) ==>
            (forall i :: 0 <= i < bucketCount ==> dense[i].count == 0) && h.start.None? && h.end.None?)
  {
    var h := FromAggregateRows(rows);
    if |rows| > 0 && rows[0].buckets.Some? {
      NormalizeConservesTotal(h.buckets, bucketCount);
    }
  }

  /** The two repositories agree once the service has normalised: a store
      without values in memory and an empty aggregate from Postgres give the
      same answer, although the in-memory sparse result has a bucket (1, 0)
      and the Postgres one has none. */
  lemma EmptyAnswersAgree(records: seq<CommodityProjection>, rows: seq<AggregateRow>, bucketCount: int)
    requires bucketCount >= 1 && NumericValues(records) == []
    requires |rows| == 0 || rows[0].buckets.None?
    ensures var h := FromAggregateRows(rows);
      HistogramOf(records, Value, bucketCount) == Ok(Numeric(Normalize(h.buckets, bucketCount), h.start, h.end))
  {
    NoValuesGiveZeroBuckets(records, bucketCount);
  }

  /** One row per value, with only `value` set. */
  function ValueRows(vs: seq<int>): (rows: seq<CommodityProjection>)
    ensures |rows| == |vs| && forall k :: 0 <= k < |vs| ==> rows[k].value == Some(vs[k])
  {
    seq(|vs|, k requires 0 <= k < |vs| => ValueRow(vs[k]))
  }

  /** Rows that all set `value` give back their values, in order. */
  lemma {:induction false} NumericValuesOfValueRows(vs: seq<int>)
    ensures NumericValues(ValueRows(vs)) == vs
  {
    if vs != [] {
      var init := vs[..|vs| - 1];
      NumericValuesOfValueRows(init);
      assert ValueRows(vs)[..|vs| - 1] == ValueRows(init);
      assert init + [vs[|vs| - 1]] == vs;
    }
  }

  /** The rows the integration test inserts: values 0, 5, 6, 25 and 50. */
  const MissingBucketsRows: seq<CommodityProjection> := ValueRows([0, 5, 6, 25, 50])

  /** Over [0, 50] with 5 buckets, 0, 5 and 6 fall into group 0, 25 into
      group 2 and 50 into the extra group 5: groups 0..5 count 3, 0, 1, 0, 0, 1. */
  lemma MissingBucketsGroupCounts()
    ensures var vs := [0, 5, 6, 25, 50];
      forall i :: 0 <= i <= 5 ==> CountInGroup(vs, 0, 50, 5, i) == [3, 0, 1, 0, 0, 1][i]
  {
    assert GroupOf(0, 0, 50, 5) == Some(0) by { GroupOfInRange(0, 0, 50, 5); }
    assert GroupOf(5, 0, 50, 5) == Some(0) by { GroupOfInRange(5, 0, 50, 5); }
    assert GroupOf(6, 0, 50, 5) == Some(0) by { GroupOfInRange(6, 0, 50, 5); }
    assert GroupOf(25, 0, 50, 5) == Some(2) by { GroupOfInRange(25, 0, 50, 5); }
    assert GroupOf(50, 0, 50, 5) == Some(5) by { GroupOfInRange(50, 0, 50, 5); }
    forall i | 0 <= i <= 5
      ensures CountInGroup([0, 5, 6, 25, 50], 0, 50, 5, i) == [3, 0, 1, 0, 0, 1][i]
    {
      assert CountInGroup([0], 0, 50, 5, i) == (if i == 0 then 1 else 0) by {
        assert [0][..0] == [];
      }
      assert CountInGroup([0, 5], 0, 50, 5, i) == (if i == 0 then 2 else 0) by {
        assert [0, 5][..1] == [0];
      }
      assert CountInGroup([0, 5, 6], 0, 50, 5, i) == (if i == 0 then 3 else 0) by {
        assert [0, 5, 6][..2] == [0, 5];
      }
      assert CountInGroup([0, 5, 6, 25], 0, 50, 5, i) == (if i == 0 then 3 else if i == 2 then 1 else 0) by {
        assert [0, 5, 6, 25][..3] == [0, 5, 6];
      }
      assert [0, 5, 6, 25, 50][..4] == [0, 5, 6, 25];
    }
  }

  /** The rows carry the values 0, 5, 6, 25 and 50, in this order. */
  lemma MissingBucketsValues()
    ensures NumericValues(MissingBucketsRows) == [0, 5, 6, 25, 50]
  {
    NumericValuesOfValueRows([0, 5, 6, 25, 50]);
  }

  /** The least of the values is 0 and the greatest 50. */
  lemma MissingBucketsRange()
    ensures MinOf([0, 5, 6, 25, 50]) == Some(0) && MaxOf([0, 5, 6, 25, 50]) == Some(50)
  {
    var vs := [0, 5, 6, 25, 50];
    assert 0 in vs && 50 in vs;
  }

  /** The dense buckets that hold the given group counts, the extra group
      merged into the last bucket. */
  function DenseOfCounts(counts: seq<nat>, n: nat): (dense: seq<NumericBucket>)
    requires |counts| == n + 1
  {
    seq(n, i requires 0 <= i < n => NumericBucket(i + 1, if i == n - 1 then counts[i] + counts[n] else counts[i]))
  }

  lemma DenseOfCountsEq(bs: seq<NumericBucket>, n: nat, counts: seq<nat>)
    requires n >= 1 && |counts| == n + 1 && |bs| == n
    requires forall i :: 0 <= i < n ==> bs[i].ordinal == i + 1
    requires forall i :: 0 <= i < n - 1 ==> bs[i].count == counts[i]
    requires bs[n - 1].count == counts[n - 1] + counts[n]
    ensures bs == DenseOfCounts(counts, n)
  {
  }

  /** Over values that span a range, the numeric answer is determined by the
      group counts: bucket i + 1 holds group i, the last bucket also the
      extra group, and the range is [min, max]. */
  lemma DenseFromGroupCounts(records: seq<CommodityProjection>, bucketCount: int, counts: seq<nat>)
    requires bucketCount >= 1 && |counts| == bucketCount + 1
    requires MinOf(NumericValues(records)) != MaxOf(NumericValues(records))
    requires var values := NumericValues(records);
      forall i :: 0 <= i <= bucketCount ==>
        CountInGroup(values, MinOf(values).value, MaxOf(values).value, bucketCount, i) == counts[i]
    ensures var values := NumericValues(records);
      HistogramOf(records, Value, bucketCount) == Ok(Numeric(DenseOfCounts(counts, bucketCount), MinOf(values), MaxOf(values)))
  {
    NumericHistogramIsDense(records, bucketCount);
    DenseBucketsAreGroupSizes(records, bucketCount);
    DenseOfCountsEq(HistogramOf(records, Value, bucketCount).value.buckets, bucketCount, counts);
  }

  /** The group counts 3, 0, 1, 0, 0, 1 give the buckets (1, 3), (2, 0),
      (3, 1), (4, 0), (5, 1): the extra group goes into the last bucket. */
  lemma MissingBucketsDense()
    ensures DenseOfCounts([3, 0, 1, 0, 0, 1], 5)
         == [NumericBucket(1, 3), NumericBucket(2, 0), NumericBucket(3, 1), NumericBucket(4, 0), NumericBucket(5, 1)]
  {
  }

  /** A store whose values span [0, 50] and fall 3, 0, 1, 0, 0, 1 into the
      groups 0..5 answers for bucketCount 5 the dense buckets (1, 3), (2, 0),
      (3, 1), (4, 0), (5, 1): the extra group is merged into the last one. */
  lemma MissingBucketsAnswer(records: seq<CommodityProjection>)
    requires MinOf(NumericValues(records)) == Some(0) && MaxOf(NumericValues(records)) == Some(50)
    requires forall i :: 0 <= i <= 5 ==> CountInGroup(NumericValues(records), 0, 50, 5, i) == [3, 0, 1, 0, 0, 1][i]
    ensures HistogramOf(records, Value, 5)
         == Ok(Numeric([NumericBucket(1, 3), NumericBucket(2, 0), NumericBucket(3, 1), NumericBucket(4, 0), NumericBucket(5, 1)],
                       Some(0), Some(50)))
  {
    DenseFromGroupCounts(records, 5, [3, 0, 1, 0, 0, 1]);
    MissingBucketsDense();
  }

  /** The integration test's scenario: the rows inserted, bucketCount 5. */
  lemma MissingBucketsScenario()
    ensures HistogramOf(MissingBucketsRows, Value, 5)
         == Ok(Numeric([NumericBucket(1, 3), NumericBucket(2, 0), NumericBucket(3, 1), NumericBucket(4, 0), NumericBucket(5, 1)],
                       Some(0), Some(50)))
  {
    MissingBucketsValues();
    MissingBucketsRange();
    MissingBucketsGroupCounts();
    MissingBucketsAnswer(MissingBucketsRows);
  }
}
