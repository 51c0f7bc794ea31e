/** Route versioning (src/constants.ts): the list of version strings a
    controller is registered under. */
module Constants {
  import opened Wrappers
  import opened Decimal

  const V1: int := 1

  /** What `buildVersionRange(start, endInclusive)` returns as written: the
      numerals of start..endInclusive in order, and nothing when the end is
      omitted (`i <= undefined` is false) or lies below the start. */
  function VersionRange(start: int, endInclusive: Option<int>): seq<string> {
    if endInclusive.None? || endInclusive.value < start then []
    else seq(endInclusive.value - start + 1, k requires 0 <= k <= endInclusive.value - start => IntToDecimal(start + k))
  }

  /** `buildVersionRange`: counts i up from start while i <= endInclusive,
      pushing the numeral of each i. The counter is unbounded; a JavaScript
      number stops advancing under `i++` past 2^53. */
  method BuildVersionRange(start: int, endInclusive: Option<int>) returns (versions: seq<string>)
    ensures versions == VersionRange(start, endInclusive)
  {
    versions := [];
    var i := start;
    while endInclusive.Some? && i <= endInclusive.value
      invariant start <= i && |versions| == i - start
      invariant endInclusive.None? || endInclusive.value < start ==> i == start
      invariant endInclusive.Some? && start <= endInclusive.value ==> i <= endInclusive.value + 1
      invariant forall k :: 0 <= k < |versions| ==> versions[k] == IntToDecimal(start + k)
      decreases if endInclusive.Some? then endInclusive.value - i else 0
    {
      versions := versions + [IntToDecimal(i)];
      i := i + 1;
    }
  }

  /** Element k of the range reads back as start + k, so the versions are
      distinct and in ascending numeric order; there are
      endInclusive - start + 1 of them. */
  lemma VersionRangeNumbers(start: int, endInclusive: int)
    requires start <= endInclusive
    ensures var r := VersionRange(start, Some(endInclusive));
      && |r| == endInclusive - start + 1
      && (forall k :: 0 <= k < |r| ==> DecimalValue(r[k]) == Some(start + k))
      && (forall j, k :: 0 <= j < k < |r| ==> DecimalValue(r[j]).value < DecimalValue(r[k]).value)
  {
    var r := VersionRange(start, Some(endInclusive));
    forall k | 0 <= k < |r| ensures DecimalValue(r[k]) == Some(start + k) {
      IntToDecimalRoundTrip(start + k);
    }
  }

  /** The range of the basic example: 1 to 3 gives "1", "2", "3". */
  lemma BasicVersionRange()
    ensures VersionRange(1, Some(3)) == ["1", "2", "3"]
  {
    var r := VersionRange(1, Some(3));
    assert r[0] == NatToDecimal(1) && r[1] == NatToDecimal(2) && r[2] == NatToDecimal(3);
  }

  /** As written, an inverted range is not an error: 1 to 0 gives no versions. */
  lemma InvertedRangeGivesNoVersions()
    ensures VersionRange(1, Some(0)) == []
  {
  }

  datatype RangeError = InvertedRange(start: int, endInclusive: int)

  /** The range with the inverted case refused, as the range's own example
      expects. */
  function CheckedVersionRange(start: int, endInclusive: Option<int>): (r: Result<seq<string>, RangeError>)
    ensures r.Err? <==> endInclusive.Some? && endInclusive.value < start
    ensures r.Ok? ==> r.value == VersionRange(start, endInclusive)
  {
    if endInclusive.Some? && endInclusive.value < start then Err(InvertedRange(start, endInclusive.value))
    else Ok(VersionRange(start, endInclusive))
  }

  /** `buildVersionRange` with the inverted range refused. */
  method BuildCheckedVersionRange(start: int, endInclusive: Option<int>) returns (r: Result<seq<string>, RangeError>)
    ensures r == CheckedVersionRange(start, endInclusive)
  {
    if endInclusive.Some? && endInclusive.value < start {
      r := Err(InvertedRange(start, endInclusive.value));
    } else {
      var versions := BuildVersionRange(start, endInclusive);
      r := Ok(versions);
    }
  }

  /** `SUPPORTED_VERSIONS = buildVersionRange(V1)`: the end is omitted. */
  const SupportedVersions: seq<string> := VersionRange(V1, None)

  /** With the end omitted there are no versions at all, so controllers are
      reachable only without a version. */
  lemma SupportedVersionsIsEmpty()
    ensures SupportedVersions == []
  {
  }
}
