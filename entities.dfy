/** The records of the commodity projection table and the histogram shapes
    the repositories return (src/entities/commodity-projection.entity.ts and
    src/entities/histogram.entity.ts). */
module Entities {
  import opened Wrappers

  /** The non-`id` columns of a commodity projection: `CommodityProjectionProperty`. */
  datatype Property = Attribute | Commodity | CommodityType | Units | YearType | Year | Value

  /** One row. Every column is optional; `value` is the only numeric one and is
      modelled on integer data. The generated `id` is not modelled. */
  datatype CommodityProjection = CommodityProjection(
    attribute: Option<string>,
    commodity: Option<string>,
    commodityType: Option<string>,
    units: Option<string>,
    yearType: Option<string>,
    year: Option<string>,
    value: Option<int>)

  /** A row with only `value` set, as the tests insert them. */
  function ValueRow(v: int): CommodityProjection {
    CommodityProjection(None, None, None, None, None, None, Some(v))
  }

  /** `cp[prop]` for one of the six text columns. */
  function TextField(cp: CommodityProjection, prop: Property): Option<string>
    requires prop != Value
  {
    match prop
    case Attribute => cp.attribute
    case Commodity => cp.commodity
    case CommodityType => cp.commodityType
    case Units => cp.units
    case YearType => cp.yearType
    case Year => cp.year
  }

  datatype NumericBucket = NumericBucket(ordinal: int, count: nat)

  datatype CategoryBucket = CategoryBucket(value: string, count: nat)

  /** What a repository returns for the numeric column: sparse buckets and the observed range. */
  datatype NumericHistogram = NumericHistogram(buckets: seq<NumericBucket>, start: Option<int>, end: Option<int>)

  /** What a repository returns for a text column. */
  datatype CategoryHistogram = CategoryHistogram(buckets: seq<CategoryBucket>)

  /** The errors the core raises. */
  datatype HistogramError =
    | NumericPropertyForCategory(prop: Property)     // "numeric property ... passed for category histogram"
    | NonNumericPropertyForNumeric(prop: Property)   // "Non numeric property ... passed for numeric histogram"
    | NonPositiveBucketCount(floored: int)           // "Bucket count must be positive: ..."
    | OnlyDeleteAllSupported                         // "Only supports deleting all"
    | DimensionNotFound(dimension: string)           // NotFoundException

  /** Ordinals strictly increase along the sequence: sorted, and no ordinal twice. */
  ghost predicate StrictlyAscending(bs: seq<NumericBucket>) {
    forall j, k :: 0 <= j < k < |bs| ==> bs[j].ordinal < bs[k].ordinal
  }

  /** The bucket occurs in the sequence. */
  predicate HasBucket(bs: seq<NumericBucket>, b: NumericBucket) {
    exists j :: 0 <= j < |bs| && bs[j] == b
  }

  /** Sum of the counts of a bucket sequence. */
  function TotalCount(bs: seq<NumericBucket>): nat {
    if bs == [] then 0 else TotalCount(bs[..|bs| - 1]) + bs[|bs| - 1].count
  }

  /** Sum of a sequence of counts. */
  function Sum(s: seq<nat>): nat {
    if s == [] then 0 else Sum(s[..|s| - 1]) + s[|s| - 1]
  }
}
