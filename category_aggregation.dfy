/** The categorical path of the in-memory repository (`_getCategoryHistogram`
    in src/repositories/commodity-projection.repo.fake.ts): drop the missing
    values, count each distinct value in an accumulator object, take its
    entries and sort them by value. */
module CategoryAggregation {
  import opened Wrappers
  import opened Entities

  /** Plain lexicographic order on strings, by character code (the model of `localeCompare`). */
  predicate Less(a: string, b: string) {
    if |a| == 0 then |b| > 0
    else if |b| == 0 then false
    else if a[0] != b[0] then a[0] < b[0]
    else Less(a[1..], b[1..])
  }

  lemma {:induction false} LessIrreflexive(a: string)
    ensures !Less(a, a)
  {
    if |a| > 0 {
      LessIrreflexive(a[1..]);
    }
  }

  lemma {:induction false} LessTransitive(a: string, b: string, c: string)
    requires Less(a, b) && Less(b, c)
    ensures Less(a, c)
  {
    if |a| > 0 && |b| > 0 && |c| > 0 && a[0] == b[0] && b[0] == c[0] {
      LessTransitive(a[1..], b[1..], c[1..]);
    }
  }

  /** Any two different strings are ordered one way or the other. */
  lemma {:induction false} LessTotal(a: string, b: string)
    requires a != b
    ensures Less(a, b) || Less(b, a)
  {
    if |a| > 0 && |b| > 0 && a[0] == b[0] {
      assert a == [a[0]] + a[1..] && b == [b[0]] + b[1..];
      LessTotal(a[1..], b[1..]);
    }
  }

  /** `.filter(cp => cp[prop] !== undefined)`, mapped to the values. */
  function Present(values: seq<Option<string>>): (vs: seq<string>)
    ensures forall v :: v in vs <==> Some(v) in values
    ensures forall v :: multiset(vs)[v] == multiset(values)[Some(v)]
    ensures |vs| <= |values|
  {
    if values == [] then []
    else
      var init := Present(values[..|values| - 1]);
      var last := values[|values| - 1];
      assert values == values[..|values| - 1] + [last];
      if last.Some? then init + [last.value] else init
  }

  /** The values of an accumulator's entries. */
  function Keys(acc: seq<CategoryBucket>): set<string> {
    set j | 0 <= j < |acc| :: acc[j].value
  }

  /** No value occurs twice. */
  ghost predicate DistinctValues(acc: seq<CategoryBucket>) {
    forall j, k :: 0 <= j < k < |acc| ==> acc[j].value != acc[k].value
  }

  /** The count the accumulator holds for v, 0 when it has no entry: `acc[v] || 0`. */
  function CountOf(acc: seq<CategoryBucket>, v: string): nat {
    if acc == [] then 0
    else if acc[0].value == v then acc[0].count
    else CountOf(acc[1..], v)
  }

  /** One step of the `reduce`: `acc[v] = (acc[v] || 0) + 1`. A new key is
      added after the existing ones. A JavaScript object enumerates
      integer-like keys first, in numeric order, and the rest in insertion
      order; the sort that follows makes the entry order irrelevant. */
  function Bump(acc: seq<CategoryBucket>, v: string): seq<CategoryBucket> {
    if acc == [] then [CategoryBucket(v, 1)]
    else if acc[0].value == v then [CategoryBucket(v, acc[0].count + 1)] + acc[1..]
    else [acc[0]] + Bump(acc[1..], v)
  }

  /** The whole `reduce` over the present values, starting from `{}`. */
  function Tally(vs: seq<string>): seq<CategoryBucket> {
    if vs == [] then [] else Bump(Tally(vs[..|vs| - 1]), vs[|vs| - 1])
  }

  lemma KeysCons(x: CategoryBucket, acc: seq<CategoryBucket>)
    ensures Keys([x] + acc) == {x.value} + Keys(acc)
  {
    var c := [x] + acc;
    forall w | w in Keys(c) ensures w in {x.value} + Keys(acc) {
      var j :| 0 <= j < |c| && c[j].value == w;
      if j > 0 { assert c[j] == acc[j - 1]; }
    }
    forall w | w in Keys(acc) ensures w in Keys(c) {
      var j :| 0 <= j < |acc| && acc[j].value == w;
      assert c[j + 1] == acc[j];
    }
    assert c[0] == x;
  }

  /** Bumping adds v to the keys. */
  lemma {:induction false} BumpKeys(acc: seq<CategoryBucket>, v: string)
    ensures Keys(Bump(acc, v)) == Keys(acc) + {v}
  {
    if acc == [] {
      KeysCons(CategoryBucket(v, 1), []);
    } else {
      var rest := acc[1..];
      assert acc == [acc[0]] + rest;
      KeysCons(acc[0], rest);
      if acc[0].value == v {
        KeysCons(CategoryBucket(v, acc[0].count + 1), rest);
      } else {
        BumpKeys(rest, v);
        KeysCons(acc[0], Bump(rest, v));
      }
    }
  }

  /** Bumping never creates a second entry for a value. */
  lemma {:induction false} BumpDistinct(acc: seq<CategoryBucket>, v: string)
    requires DistinctValues(acc)
    ensures DistinctValues(Bump(acc, v))
  {
    if acc != [] {
      var rest := acc[1..];
      assert acc == [acc[0]] + rest;
      var b := Bump(acc, v);
      if acc[0].value == v {
        assert b == [CategoryBucket(v, acc[0].count + 1)] + rest;
        forall j, k | 0 <= j < k < |b| ensures b[j].value != b[k].value {
          assert b[k] == acc[k];
          if j > 0 { assert b[j] == acc[j]; }
        }
      } else {
        assert DistinctValues(rest) by {
          forall j, k | 0 <= j < k < |rest| ensures rest[j].value != rest[k].value {
            assert rest[j] == acc[j + 1] && rest[k] == acc[k + 1];
          }
        }
        BumpDistinct(rest, v);
        BumpKeys(rest, v);
        var br := Bump(rest, v);
        assert b == [acc[0]] + br;
        forall j | 0 <= j < |rest| ensures rest[j].value != acc[0].value {
          assert rest[j] == acc[j + 1];
        }
        assert acc[0].value !in Keys(rest);
        forall j, k | 0 <= j < k < |b| ensures b[j].value != b[k].value {
          assert b[k] == br[k - 1];
          if j == 0 {
            assert br[k - 1].value in Keys(br);
          } else {
            assert b[j] == br[j - 1];
          }
        }
      }
    }
  }

  /** Bumping adds one to the count of v and leaves every other count alone. */
  lemma {:induction false} BumpCount(acc: seq<CategoryBucket>, v: string, w: string)
    ensures CountOf(Bump(acc, v), w) == CountOf(acc, w) + (if w == v then 1 else 0)
  {
    if acc != [] && acc[0].value != v {
      BumpCount(acc[1..], v, w);
      assert Bump(acc, v)[1..] == Bump(acc[1..], v);
    } else if acc != [] {
      assert Bump(acc, v)[1..] == acc[1..];
    }
  }

  /** The accumulator after the whole `reduce`: one entry per distinct present
      value, holding the number of its occurrences. */
  lemma {:induction false} TallySpec(vs: seq<string>)
    ensures DistinctValues(Tally(vs))
    ensures Keys(Tally(vs)) == set v | v in vs
    ensures forall w :: CountOf(Tally(vs), w) == multiset(vs)[w]
  {
    if vs != [] {
      var init, v := vs[..|vs| - 1], vs[|vs| - 1];
      assert vs == init + [v];
      TallySpec(init);
      BumpKeys(Tally(init), v);
      BumpDistinct(Tally(init), v);
      forall w ensures CountOf(Tally(vs), w) == multiset(vs)[w] {
        BumpCount(Tally(init), v, w);
      }
      assert (set x | x in vs) == (set x | x in init) + {v};
    }
  }

  /** In an accumulator without repeated values, an entry's count is the one `CountOf` reads. */
  lemma {:induction false} CountOfEntry(acc: seq<CategoryBucket>, j: nat)
    requires DistinctValues(acc) && j < |acc|
    ensures CountOf(acc, acc[j].value) == acc[j].count
  {
    if j > 0 {
      assert acc[0].value != acc[j].value;
      assert acc[1..][j - 1] == acc[j];
      CountOfEntry(acc[1..], j - 1);
    }
  }

  /** Entries ordered strictly ascending by value. */
  ghost predicate SortedByValue(bs: seq<CategoryBucket>) {
    forall j, k :: 0 <= j < k < |bs| ==> Less(bs[j].value, bs[k].value)
  }

  /** Inserts an entry in front of the first entry with a greater value. */
  function InsertByValue(b: CategoryBucket, sorted: seq<CategoryBucket>): seq<CategoryBucket> {
    if sorted == [] || Less(b.value, sorted[0].value) then [b] + sorted
    else [sorted[0]] + InsertByValue(b, sorted[1..])
  }

  /** `.sort((a, b) => a.value.localeCompare(b.value))`. The values are distinct,
      so the order is fully determined and any sorting algorithm gives this one. */
  function SortByValue(bs: seq<CategoryBucket>): seq<CategoryBucket> {
    if bs == [] then [] else InsertByValue(bs[0], SortByValue(bs[1..]))
  }

  lemma {:induction false} InsertByValuePermutes(b: CategoryBucket, sorted: seq<CategoryBucket>)
    ensures multiset(InsertByValue(b, sorted)) == multiset(sorted) + multiset{b}
  {
    if sorted != [] && !Less(b.value, sorted[0].value) {
      assert sorted == [sorted[0]] + sorted[1..];
      InsertByValuePermutes(b, sorted[1..]);
    }
  }

  /** An entry below every entry of a sorted sequence can go in front of it. */
  lemma SortedCons(x: CategoryBucket, sorted: seq<CategoryBucket>)
    requires SortedByValue(sorted)
    requires forall k :: 0 <= k < |sorted| ==> Less(x.value, sorted[k].value)
    ensures SortedByValue([x] + sorted)
  {
    var r := [x] + sorted;
    forall j, k | 0 <= j < k < |r| ensures Less(r[j].value, r[k].value) {
      assert r[k] == sorted[k - 1];
      if j > 0 {
        assert r[j] == sorted[j - 1];
      }
    }
  }

  lemma SortedTail(sorted: seq<CategoryBucket>)
    requires SortedByValue(sorted) && sorted != []
    ensures SortedByValue(sorted[1..])
  {
    var rest := sorted[1..];
    forall j, k | 0 <= j < k < |rest| ensures Less(rest[j].value, rest[k].value) {
      assert rest[j] == sorted[j + 1] && rest[k] == sorted[k + 1];
    }
  }

  /** Inserting adds b and keeps every other entry. */
  lemma {:induction false} InsertByValueElements(b: CategoryBucket, sorted: seq<CategoryBucket>)
    ensures forall x :: x in InsertByValue(b, sorted) <==> x == b || x in sorted
  {
    if sorted != [] && !Less(b.value, sorted[0].value) {
      InsertByValueElements(b, sorted[1..]);
      assert sorted == [sorted[0]] + sorted[1..];
    }
  }

  lemma {:induction false} InsertByValueSorted(b: CategoryBucket, sorted: seq<CategoryBucket>)
    requires SortedByValue(sorted)
    requires forall j :: 0 <= j < |sorted| ==> sorted[j].value != b.value
    ensures SortedByValue(InsertByValue(b, sorted))
  {
    if sorted == [] || Less(b.value, sorted[0].value) {
      forall k | 0 <= k < |sorted| ensures Less(b.value, sorted[k].value) {
        if k > 0 {
          LessTransitive(b.value, sorted[0].value, sorted[k].value);
        }
      }
      SortedCons(b, sorted);
    } else {
      var rest := sorted[1..];
      SortedTail(sorted);
      InsertByValueSorted(b, rest);
      var ri := InsertByValue(b, rest);
      InsertByValueElements(b, rest);
      LessTotal(b.value, sorted[0].value);
      forall k | 0 <= k < |ri| ensures Less(sorted[0].value, ri[k].value) {
        assert ri[k] in ri;
        if ri[k] != b {
          var i :| 0 <= i < |rest| && rest[i] == ri[k];
          assert sorted[i + 1] == ri[k];
        }
      }
      SortedCons(sorted[0], ri);
    }
  }

  lemma {:induction false} SortByValueSpec(bs: seq<CategoryBucket>)
    requires DistinctValues(bs)
    ensures SortedByValue(SortByValue(bs))
    ensures multiset(SortByValue(bs)) == multiset(bs)
  {
    if bs != [] {
      var rest := bs[1..];
      assert bs == [bs[0]] + rest;
      assert DistinctValues(rest) by {
        forall j, k | 0 <= j < k < |rest| ensures rest[j].value != rest[k].value {
          assert rest[j] == bs[j + 1] && rest[k] == bs[k + 1];
        }
      }
      SortByValueSpec(rest);
      var sr := SortByValue(rest);
      forall j | 0 <= j < |sr| ensures sr[j].value != bs[0].value {
        assert sr[j] in multiset(rest);
        var i :| 0 <= i < |rest| && rest[i] == sr[j];
        assert bs[i + 1] == sr[j];
      }
      InsertByValueSorted(bs[0], sr);
      InsertByValuePermutes(bs[0], sr);
    }
  }

  /** `_getCategoryHistogram`'s bucket computation, after validation. */
  function CategoryBuckets(values: seq<Option<string>>): seq<CategoryBucket> {
    SortByValue(Tally(Present(values)))
  }

  /** One bucket per distinct present value, holding its number of
      occurrences (so never 0), strictly ascending by value; missing values
      are skipped and no present value gives no bucket. */
  lemma CategoryBucketsSpec(values: seq<Option<string>>)
    ensures var bs := CategoryBuckets(values);
      && SortedByValue(bs)
      && (forall j :: 0 <= j < |bs| ==>
            Some(bs[j].value) in values && bs[j].count == multiset(values)[Some(bs[j].value)] && bs[j].count > 0)
      && (forall v :: Some(v) in values ==> exists j :: 0 <= j < |bs| && bs[j].value == v)
      && (bs == [] <==> forall v :: Some(v) !in values)
  {
    CategoryBucketsCounts(values);
    CategoryBucketsCover(values);
  }

  /** The buckets are strictly ascending by value, and each holds the number
      of occurrences of a present value. */
  lemma CategoryBucketsCounts(values: seq<Option<string>>)
    ensures var bs := CategoryBuckets(values);
      && SortedByValue(bs)
      && (forall j :: 0 <= j < |bs| ==>
            Some(bs[j].value) in values && bs[j].count == multiset(values)[Some(bs[j].value)] && bs[j].count > 0)
  {
    var vs := Present(values);
    var t := Tally(vs);
    var bs := CategoryBuckets(values);
    TallySpec(vs);
    SortByValueSpec(t);
    forall j | 0 <= j < |bs|
      ensures Some(bs[j].value) in values && bs[j].count == multiset(values)[Some(bs[j].value)] && bs[j].count > 0
    {
      assert bs[j] in multiset(t);
      var i :| 0 <= i < |t| && t[i] == bs[j];
      CountOfEntry(t, i);
      assert bs[j].value in Keys(t);
    }
  }

  /** Every present value has a bucket, so there are no buckets exactly when
      no value is present. */
  lemma CategoryBucketsCover(values: seq<Option<string>>)
    ensures var bs := CategoryBuckets(values);
      && (forall v :: Some(v) in values ==> exists j :: 0 <= j < |bs| && bs[j].value == v)
      && (bs == [] <==> forall v :: Some(v) !in values)
  {
    var vs := Present(values);
    var t := Tally(vs);
    var bs := CategoryBuckets(values);
    TallySpec(vs);
    SortByValueSpec(t);
    forall v | Some(v) in values ensures exists j :: 0 <= j < |bs| && bs[j].value == v {
      assert v in Keys(t);
      var i :| 0 <= i < |t| && t[i].value == v;
      assert t[i] in multiset(bs);
      var j :| 0 <= j < |bs| && bs[j] == t[i];
    }
    if bs != [] {
      assert bs[0] in multiset(t);
      var i :| 0 <= i < |t| && t[i] == bs[0];
      assert bs[0].value in Keys(t);
    }
  }
}
