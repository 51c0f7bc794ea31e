/** Equal-width bucket assignment of the in-memory repository
    (`_getNumericHistogram` in src/repositories/commodity-projection.repo.fake.ts),
    stated as functions over integer data.

    For the range [lo, hi] with lo < hi and n buckets of width w = (hi - lo) / n,
    group i (ordinal i + 1, 0 <= i <= n) is the half-open interval
    [lo + w * i, lo + w * (i + 1)); multiplying through by n gives the exact
    integer test of `InGroup`. Group n is the extra group that only the maximum
    reaches, as PostgreSQL's width_bucket does. */
module NumericBucketing {
  import opened Wrappers
  import opened Entities

  /** `value >= bottom && value < top` for group i, multiplied through by n > 0. */
  predicate InGroup(v: int, lo: int, hi: int, n: int, i: int) {
    n * (v - lo) >= (hi - lo) * i && n * (v - lo) < (hi - lo) * (i + 1)
  }

  /** The check of group i with the exact bounds the source computes. */
  predicate InRealBounds(v: int, lo: int, hi: int, n: int, i: int)
    requires n > 0
  {
    var width := (hi - lo) as real / n as real;
    var bottom := lo as real + width * i as real;
    var top := bottom + width;
    v as real >= bottom && v as real < top
  }

  lemma MulLeftMono(a: int, b: int, c: int)
    requires a >= 0 && b <= c
    ensures a * b <= a * c
  {
    assert a * c - a * b == a * (c - b);
  }

  /** The integer test and the test on the real bounds agree. */
  lemma InGroupIsRealCheck(v: int, lo: int, hi: int, n: int, i: int)
    requires n > 0
    ensures InGroup(v, lo, hi, n, i) <==> InRealBounds(v, lo, hi, n, i)
  {
    var nr := n as real;
    var width := (hi - lo) as real / nr;
    var x := (v - lo) as real;
    assert width * nr == (hi - lo) as real;
    var bottom := lo as real + width * i as real;
    var top := bottom + width;
    assert v as real - bottom == x - width * i as real;
    assert v as real - top == x - width * (i + 1) as real;
    // scaling by n > 0 preserves both comparisons
    assert (x - width * i as real) * nr == (n * (v - lo) - (hi - lo) * i) as real;
    assert (x - width * (i + 1) as real) * nr == (n * (v - lo) - (hi - lo) * (i + 1)) as real;
  }

  /** Two groups never both accept a value: the intervals are disjoint. */
  lemma GroupsDisjoint(v: int, lo: int, hi: int, n: int, i: int, j: int)
    requires lo < hi
    requires InGroup(v, lo, hi, n, i) && InGroup(v, lo, hi, n, j)
    ensures i == j
  {
    if i < j {
      MulLeftMono(hi - lo, i + 1, j);
    } else if j < i {
      MulLeftMono(hi - lo, j + 1, i);
    }
  }

  /** The inner `for ... of bucketGroups` loop with its `break`: the first group,
      searching from group i upwards to group n, whose check accepts v. */
  function FirstGroup(v: int, lo: int, hi: int, n: nat, i: nat): (g: Option<nat>)
    ensures g.Some? ==> i <= g.value <= n && InGroup(v, lo, hi, n, g.value)
    ensures g.Some? ==> forall j :: i <= j < g.value ==> !InGroup(v, lo, hi, n, j)
    ensures g.None? ==> forall j :: i <= j <= n ==> !InGroup(v, lo, hi, n, j)
    decreases n + 1 - i
  {
    if i > n then None
    else if InGroup(v, lo, hi, n, i) then Some(i)
    else FirstGroup(v, lo, hi, n, i + 1)
  }

  /** The group of v: the first one that accepts it. */
  function GroupOf(v: int, lo: int, hi: int, n: nat): Option<nat> {
    FirstGroup(v, lo, hi, n, 0)
  }

  /** The group of a value in the range: the quotient n * (v - lo) / (hi - lo)
      below the maximum, and the extra group n (ordinal n + 1) at the maximum. */
  lemma {:induction false} GroupOfInRange(v: int, lo: int, hi: int, n: nat)
    requires lo <= v <= hi && lo < hi && n >= 1
    ensures v < hi ==> GroupOf(v, lo, hi, n) == Some((n * (v - lo)) / (hi - lo))
    ensures v < hi ==> (n * (v - lo)) / (hi - lo) < n
    ensures v == hi ==> GroupOf(v, lo, hi, n) == Some(n)
  {
    var d := hi - lo;
    var x := n * (v - lo);
    var q := if v == hi then n else x / d;
    if v < hi {
      assert d * q <= x < d * q + d;
      MulLeftMono(n, v - lo, d);
      if q >= n {
        MulLeftMono(d, n, q);
        assert false;
      }
    } else {
      assert x == d * n;
    }
    assert InGroup(v, lo, hi, n, q);
    var g := GroupOf(v, lo, hi, n);
    assert g.Some? by {
      assert 0 <= q <= n;
    }
    GroupsDisjoint(v, lo, hi, n, g.value, q);
  }

  /** Every value in [lo, hi] is counted in exactly one group. */
  lemma GroupOfDefined(v: int, lo: int, hi: int, n: nat)
    requires lo <= v <= hi && lo < hi && n >= 1
    ensures GroupOf(v, lo, hi, n).Some? && GroupOf(v, lo, hi, n).value <= n
    ensures forall j :: InGroup(v, lo, hi, n, j) ==> j == GroupOf(v, lo, hi, n).value
  {
    GroupOfInRange(v, lo, hi, n);
    forall j | InGroup(v, lo, hi, n, j)
      ensures j == GroupOf(v, lo, hi, n).value
    {
      GroupsDisjoint(v, lo, hi, n, j, GroupOf(v, lo, hi, n).value);
    }
  }

  /** How many of the values are counted in group i. */
  function CountInGroup(vs: seq<int>, lo: int, hi: int, n: nat, i: nat): nat {
    if vs == [] then 0
    else CountInGroup(vs[..|vs| - 1], lo, hi, n, i) + (if GroupOf(vs[|vs| - 1], lo, hi, n) == Some(i) then 1 else 0)
  }

  /** The extra group n (ordinal n + 1) counts exactly the occurrences of the maximum. */
  lemma {:induction false} OverflowCountsMaximum(vs: seq<int>, lo: int, hi: int, n: nat)
    requires lo < hi && n >= 1
    requires forall k :: 0 <= k < |vs| ==> lo <= vs[k] <= hi
    ensures CountInGroup(vs, lo, hi, n, n) == multiset(vs)[hi]
  {
    if vs != [] {
      var init, v := vs[..|vs| - 1], vs[|vs| - 1];
      assert vs == init + [v];
      OverflowCountsMaximum(init, lo, hi, n);
      GroupOfInRange(v, lo, hi, n);
    }
  }

  /** The counts of groups 0..n (ordinals 1..n + 1). */
  function GroupCounts(vs: seq<int>, lo: int, hi: int, n: nat): (c: seq<nat>)
    ensures |c| == n + 1
  {
    seq(n + 1, i requires 0 <= i <= n => CountInGroup(vs, lo, hi, n, i))
  }

  /** Counting one more value bumps exactly the count of its group. */
  lemma GroupCountsSnoc(vs: seq<int>, v: int, lo: int, hi: int, n: nat)
    ensures GroupOf(v, lo, hi, n).None? ==> GroupCounts(vs + [v], lo, hi, n) == GroupCounts(vs, lo, hi, n)
    ensures GroupOf(v, lo, hi, n).Some? ==>
              var g := GroupOf(v, lo, hi, n).value;
              GroupCounts(vs + [v], lo, hi, n) == GroupCounts(vs, lo, hi, n)[g := GroupCounts(vs, lo, hi, n)[g] + 1]
  {
    assert (vs + [v])[..|vs|] == vs;
  }

  /** Adding c at one position adds c to the sum. */
  lemma {:induction false} SumAddAt(s: seq<nat>, k: nat, c: nat)
    requires k < |s|
    ensures Sum(s[k := s[k] + c]) == Sum(s) + c
  {
    var t := s[k := s[k] + c];
    if k == |s| - 1 {
      assert t[..|t| - 1] == s[..|s| - 1];
    } else {
      assert t[..|t| - 1] == s[..|s| - 1][k := s[k] + c];
      SumAddAt(s[..|s| - 1], k, c);
    }
  }

  lemma {:induction false} SumZeros(n: nat)
    ensures Sum(seq(n, i => 0)) == 0
  {
    if n > 0 {
      assert seq(n, i => 0)[..n - 1] == seq(n - 1, i => 0);
      SumZeros(n - 1);
    }
  }

  /** Count conservation: when every value lies in [lo, hi], the group counts add up to the number of values. */
  lemma {:induction false} GroupCountsTotal(vs: seq<int>, lo: int, hi: int, n: nat)
    requires lo < hi && n >= 1
    requires forall k :: 0 <= k < |vs| ==> lo <= vs[k] <= hi
    ensures Sum(GroupCounts(vs, lo, hi, n)) == |vs|
  {
    if vs == [] {
      assert GroupCounts(vs, lo, hi, n) == seq(n + 1, i => 0);
      SumZeros(n + 1);
    } else {
      var init, v := vs[..|vs| - 1], vs[|vs| - 1];
      assert vs == init + [v];
      GroupCountsTotal(init, lo, hi, n);
      GroupOfDefined(v, lo, hi, n);
      GroupCountsSnoc(init, v, lo, hi, n);
      var g := GroupOf(v, lo, hi, n).value;
      SumAddAt(GroupCounts(init, lo, hi, n), g, 1);
    }
  }

  /** Some bucket carries the ordinal. */
  predicate HasOrdinal(bs: seq<NumericBucket>, ordinal: int) {
    exists j :: 0 <= j < |bs| && bs[j].ordinal == ordinal
  }

  /** `.map(group => group.bucket).filter(b => b.count > 0)`: the groups with a
      non-zero count, as buckets with ordinal = position + 1, in ordinal order
      (so the source's `.sort` by ordinal leaves them as they are). */
  function NonEmptyBuckets(counts: seq<nat>): seq<NumericBucket> {
    if counts == [] then []
    else
      var init := NonEmptyBuckets(counts[..|counts| - 1]);
      var last := counts[|counts| - 1];
      if last > 0 then init + [NumericBucket(|counts|, last)] else init
  }

  /** Each bucket has a non-zero count, which is the count at its ordinal. */
  ghost predicate BucketsMatchCounts(bs: seq<NumericBucket>, counts: seq<nat>) {
    forall j :: 0 <= j < |bs| ==>
      1 <= bs[j].ordinal <= |counts| && bs[j].count > 0 && bs[j].count == counts[bs[j].ordinal - 1]
  }

  /** Each sparse bucket carries a non-zero count, the count of its own ordinal. */
  lemma {:induction false} NonEmptyBucketsCounts(counts: seq<nat>)
    ensures BucketsMatchCounts(NonEmptyBuckets(counts), counts)
  {
    if counts != [] {
      var prefix := counts[..|counts| - 1];
      var init := NonEmptyBuckets(prefix);
      NonEmptyBucketsCounts(prefix);
      var last := counts[|counts| - 1];
      var bs := NonEmptyBuckets(counts);
      assert bs == if last > 0 then init + [NumericBucket(|counts|, last)] else init;
      forall j | 0 <= j < |bs|
        ensures 1 <= bs[j].ordinal <= |counts| && bs[j].count > 0 && bs[j].count == counts[bs[j].ordinal - 1]
      {
        if j < |init| {
          assert bs[j] == init[j];
          assert 1 <= init[j].ordinal <= |prefix|;
          assert prefix[init[j].ordinal - 1] == counts[init[j].ordinal - 1];
        }
      }
    }
  }

  /** The sparse buckets are in strictly ascending ordinal order. */
  lemma {:induction false} NonEmptyBucketsAscending(counts: seq<nat>)
    ensures StrictlyAscending(NonEmptyBuckets(counts))
  {
    if counts != [] {
      var prefix := counts[..|counts| - 1];
      var init := NonEmptyBuckets(prefix);
      NonEmptyBucketsAscending(prefix);
      NonEmptyBucketsCounts(prefix);
      var last := counts[|counts| - 1];
      var bs := NonEmptyBuckets(counts);
      assert bs == if last > 0 then init + [NumericBucket(|counts|, last)] else init;
      forall j, k | 0 <= j < k < |bs| ensures bs[j].ordinal < bs[k].ordinal {
        assert bs[j] == init[j];
        if k < |init| {
          assert bs[k] == init[k];
        }
      }
    }
  }

  /** Every non-zero count appears under its ordinal. */
  lemma {:induction false} NonEmptyBucketsComplete(counts: seq<nat>)
    ensures forall i :: 0 <= i < |counts| && counts[i] > 0 ==> HasOrdinal(NonEmptyBuckets(counts), i + 1)
  {
    if counts != [] {
      var prefix := counts[..|counts| - 1];
      var init := NonEmptyBuckets(prefix);
      NonEmptyBucketsComplete(prefix);
      var bs := NonEmptyBuckets(counts);
      forall i | 0 <= i < |counts| && counts[i] > 0 ensures HasOrdinal(bs, i + 1) {
        if i == |prefix| {
          assert bs[|bs| - 1].ordinal == i + 1;
        } else {
          assert prefix[i] == counts[i];
          var j :| 0 <= j < |init| && init[j].ordinal == i + 1;
          assert bs[j] == init[j];
        }
      }
    }
  }

  /** Dropping the empty groups loses no count. */
  lemma {:induction false} NonEmptyBucketsTotal(counts: seq<nat>)
    ensures TotalCount(NonEmptyBuckets(counts)) == Sum(counts)
  {
    if counts != [] {
      var prefix := counts[..|counts| - 1];
      var init := NonEmptyBuckets(prefix);
      NonEmptyBucketsTotal(prefix);
      if counts[|counts| - 1] > 0 {
        var bs := NonEmptyBuckets(counts);
        assert bs[..|bs| - 1] == init;
      }
    }
  }

  /** Each bucket's ordinal is a group ordinal (1 to n + 1) and its count is
      the number of values whose first matching group is that ordinal - 1. */
  ghost predicate BucketsAreGroupSizes(bs: seq<NumericBucket>, vs: seq<int>, lo: int, hi: int, n: nat) {
    forall j :: 0 <= j < |bs| ==>
      1 <= bs[j].ordinal <= n + 1 && bs[j].count == CountInGroup(vs, lo, hi, n, bs[j].ordinal - 1)
  }

  /** Over values spanning [lo, hi]: each sparse bucket holds the number of
      values whose first matching group is its ordinal - 1, and the bucket of
      the extra ordinal n + 1 holds exactly the occurrences of the maximum. */
  lemma SparseBucketsAreGroupSizes(vs: seq<int>, lo: int, hi: int, n: nat)
    requires lo < hi && n >= 1 && hi in vs
    requires forall k :: 0 <= k < |vs| ==> lo <= vs[k] <= hi
    ensures BucketsAreGroupSizes(NonEmptyBuckets(GroupCounts(vs, lo, hi, n)), vs, lo, hi, n)
    ensures HasBucket(NonEmptyBuckets(GroupCounts(vs, lo, hi, n)), NumericBucket(n + 1, multiset(vs)[hi]))
  {
    var counts := GroupCounts(vs, lo, hi, n);
    var bs := NonEmptyBuckets(counts);
    NonEmptyBucketsCounts(counts);
    NonEmptyBucketsComplete(counts);
    OverflowCountsMaximum(vs, lo, hi, n);
    assert counts[n] > 0;
    var j :| 0 <= j < |bs| && bs[j].ordinal == n + 1;
    assert bs[j] == NumericBucket(n + 1, multiset(vs)[hi]);
  }

  /** Every group that holds at least one value has its sparse bucket. */
  lemma SparseBucketsComplete(vs: seq<int>, lo: int, hi: int, n: nat)
    ensures forall i :: 0 <= i <= n && CountInGroup(vs, lo, hi, n, i) > 0 ==>
      HasOrdinal(NonEmptyBuckets(GroupCounts(vs, lo, hi, n)), i + 1)
  {
    var counts := GroupCounts(vs, lo, hi, n);
    NonEmptyBucketsComplete(counts);
    forall i | 0 <= i <= n && CountInGroup(vs, lo, hi, n, i) > 0
      ensures HasOrdinal(NonEmptyBuckets(counts), i + 1)
    {
      assert counts[i] > 0;
    }
  }
}
