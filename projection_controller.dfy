/** The histogram endpoint (src/controllers/commodity-projection.controller.ts):
    the `:dimension` path parameter is trimmed and lower-cased, looked up in a
    fixed table of the seven columns, and an unknown key is "not found". */
module ProjectionController {
  import opened Wrappers
  import opened Entities
  import opened ProjectionService
  import opened FakeRepo

  /** The characters `String.prototype.trim` strips: the ECMAScript white
      space (tab, vertical tab, form feed, space, no-break space, the byte
      order mark and the space separators) and the line terminators. */
  predicate IsWhitespace(c: char) {
    || c == '\t' || c == '\U{000B}' || c == '\U{000C}' || c == ' ' || c == '\U{00A0}' || c == '\U{FEFF}'
    || c == '\U{1680}' || ('\U{2000}' <= c <= '\U{200A}') || c == '\U{202F}' || c == '\U{205F}' || c == '\U{3000}'
    || c == '\n' || c == '\r' || c == '\U{2028}' || c == '\U{2029}'
  }

  predicate AllWhitespace(s: string) {
    forall k :: 0 <= k < |s| ==> IsWhitespace(s[k])
  }

  /** `s` with its leading white space removed. */
  function TrimStart(s: string): (r: string)
    ensures |r| <= |s|
  {
    if s != [] && IsWhitespace(s[0]) then TrimStart(s[1..]) else s
  }

  /** `s` with its trailing white space removed. */
  function TrimEnd(s: string): (r: string)
    ensures |r| <= |s|
  {
    if s != [] && IsWhitespace(s[|s| - 1]) then TrimEnd(s[..|s| - 1]) else s
  }

  /** `dimension.trim()`: `s` without its leading and trailing white space. */
  function Trim(s: string): string {
    TrimEnd(TrimStart(s))
  }

  /** TrimStart keeps a suffix that does not start with white space, and drops only white space. */
  lemma {:induction false} TrimStartSpec(s: string)
    ensures var r := TrimStart(s);
      && |r| <= |s| && r == s[|s| - |r|..] && AllWhitespace(s[..|s| - |r|])
      && (r == [] || !IsWhitespace(r[0]))
  {
    if s != [] && IsWhitespace(s[0]) {
      var r := TrimStart(s[1..]);
      TrimStartSpec(s[1..]);
      assert s[..|s| - |r|] == [s[0]] + s[1..][..|s| - 1 - |r|];
    }
  }

  /** TrimEnd keeps a prefix that does not end with white space, and drops only white space. */
  lemma {:induction false} TrimEndSpec(s: string)
    ensures var r := TrimEnd(s);
      && |r| <= |s| && r == s[..|r|] && AllWhitespace(s[|r|..])
      && (r == [] || !IsWhitespace(r[|r| - 1]))
  {
    if s != [] && IsWhitespace(s[|s| - 1]) {
      var init := s[..|s| - 1];
      var r := TrimEnd(init);
      TrimEndSpec(init);
      assert s[|r|..] == init[|r|..] + [s[|s| - 1]];
    }
  }

  /** Trim keeps a slice of `s` that neither starts nor ends with white space,
      and what it drops on either side is white space. */
  lemma TrimSpec(s: string)
    ensures var r := Trim(s); var i := |s| - |TrimStart(s)|;
      && i + |r| <= |s| && r == s[i..i + |r|]
      && AllWhitespace(s[..i]) && AllWhitespace(s[i + |r|..])
      && (r == [] || (!IsWhitespace(r[0]) && !IsWhitespace(r[|r| - 1])))
  {
    var t := TrimStart(s);
    var r := TrimEnd(t);
    TrimStartSpec(s);
    TrimEndSpec(t);
    assert r != [] ==> r[0] == t[0];
    assert s[|s| - |t| + |r|..] == t[|r|..];
  }

  /** Leading white space makes no difference to TrimStart. */
  lemma {:induction false} TrimStartPadded(w: string, x: string)
    requires AllWhitespace(w)
    ensures TrimStart(w + x) == TrimStart(x)
  {
    if w != [] {
      assert (w + x)[0] == w[0] && IsWhitespace(w[0]);
      assert (w + x)[1..] == w[1..] + x;
      TrimStartPadded(w[1..], x);
    } else {
      assert w + x == x;
    }
  }

  /** Trailing white space makes no difference to TrimEnd. */
  lemma {:induction false} TrimEndPadded(x: string, w: string)
    requires AllWhitespace(w)
    ensures TrimEnd(x + w) == TrimEnd(x)
  {
    if w != [] {
      assert (x + w)[|x + w| - 1] == w[|w| - 1] && IsWhitespace(w[|w| - 1]);
      assert (x + w)[..|x + w| - 1] == x + w[..|w| - 1];
      TrimEndPadded(x, w[..|w| - 1]);
    } else {
      assert x + w == x;
    }
  }

  /** TrimStart of a string with trailing white space `w`: all of it goes
      when `x` is white space, otherwise `w` stays at the end. */
  lemma {:induction false} TrimStartKeepsTail(x: string, w: string)
    requires AllWhitespace(w)
    ensures AllWhitespace(x) ==> TrimStart(x + w) == [] && TrimStart(x) == []
    ensures !AllWhitespace(x) ==> TrimStart(x + w) == TrimStart(x) + w
  {
    if x == [] {
      TrimStartPadded(w, []);
      assert x + w == w + [];
    } else {
      assert (x + w)[1..] == x[1..] + w;
      assert (x + w)[0] == x[0];
      if IsWhitespace(x[0]) {
        TrimStartKeepsTail(x[1..], w);
        assert AllWhitespace(x) <==> AllWhitespace(x[1..]) by {
          assert forall k :: 1 <= k < |x| ==> x[k] == x[1..][k - 1];
        }
      }
    }
  }

  /** Surrounding white space makes no difference to Trim. */
  lemma TrimPadded(w1: string, s: string, w2: string)
    requires AllWhitespace(w1) && AllWhitespace(w2)
    ensures Trim(w1 + s + w2) == Trim(s)
  {
    assert w1 + s + w2 == w1 + (s + w2);
    TrimStartPadded(w1, s + w2);
    TrimStartKeepsTail(s, w2);
    if !AllWhitespace(s) {
      TrimEndPadded(TrimStart(s), w2);
    }
  }

  /** `toLowerCase` on the ASCII letters; every other character is kept. */
  function ToLowerChar(c: char): (l: char)
    ensures 'A' <= c <= 'Z' ==> 'a' <= l <= 'z' && l as int == c as int + 32
    ensures !('A' <= c <= 'Z') ==> l == c
  {
    if 'A' <= c <= 'Z' then (c as int + 32) as char else c
  }

  function ToLower(s: string): (r: string)
    ensures |r| == |s| && forall k :: 0 <= k < |s| ==> r[k] == ToLowerChar(s[k])
  {
    seq(|s|, k requires 0 <= k < |s| => ToLowerChar(s[k]))
  }

  /** `pathParamToEntityProperty`. */
  const DimensionTable: map<string, Property> := map[
    "attribute" := Attribute,
    "commodity" := Commodity,
    "commoditytype" := CommodityType,
    "units" := Units,
    "yeartype" := YearType,
    "year" := Year,
    "value" := Value
  ]

  /** The property a path parameter names, if any. */
  function ResolveDimension(dimension: string): Option<Property> {
    var key := ToLower(Trim(dimension));
    if key in DimensionTable then Some(DimensionTable[key]) else None
  }

  /** `getHistogram(dimension)`: not found for an unknown dimension, otherwise
      the service's answer for the named property, unchanged. */
  method GetHistogram(repo: FakeCommodityProjectionRepo, dimension: string)
    returns (r: Result<HistogramDto, HistogramError>)
    ensures ResolveDimension(dimension).None? ==> r == Err(DimensionNotFound(dimension))
    ensures ResolveDimension(dimension).Some? ==>
      r == HistogramOf(repo.records, ResolveDimension(dimension).value, DefaultBucketCount)
  {
    var key := ToLower(Trim(dimension));
    if key in DimensionTable {
      r := ProjectionService.GetHistogram(repo, DimensionTable[key], DefaultBucketCount);
    } else {
      r := Err(DimensionNotFound(dimension));
    }
  }

  /** The path key of each column: the inverse of the table. */
  function PathKey(p: Property): string {
    match p
    case Attribute => "attribute"
    case Commodity => "commodity"
    case CommodityType => "commoditytype"
    case Units => "units"
    case YearType => "yeartype"
    case Year => "year"
    case Value => "value"
  }

  /** The table and PathKey are inverse: every column has exactly one key. */
  lemma DimensionTableRoundTrip()
    ensures forall p: Property :: PathKey(p) in DimensionTable && DimensionTable[PathKey(p)] == p
    ensures forall k :: k in DimensionTable ==> PathKey(DimensionTable[k]) == k
  {
  }

  /** Text made of lower-case ASCII letters is its own trimmed, lower-cased key. */
  lemma LowerWordIsCanonical(k: string)
    requires k != [] && forall j :: 0 <= j < |k| ==> 'a' <= k[j] <= 'z'
    ensures Trim(k) == k && ToLower(k) == k
  {
    assert TrimStart(k) == k;
    assert TrimEnd(k) == k;
  }

  /** Every key of the table is trimmed lower-case text, so it resolves to its own column. */
  lemma KeysAreCanonical(p: Property)
    ensures Trim(PathKey(p)) == PathKey(p) && ToLower(PathKey(p)) == PathKey(p)
    ensures ResolveDimension(PathKey(p)) == Some(p)
  {
    var k := PathKey(p);
    LowerWordIsCanonical(k);
    assert k in DimensionTable && DimensionTable[k] == p by {
      DimensionTableRoundTrip();
    }
  }

  /** Lower-casing leaves white space alone, so it commutes with trimming. */
  lemma {:induction false} LowerTrimStart(s: string)
    ensures ToLower(TrimStart(s)) == TrimStart(ToLower(s))
  {
    if s != [] {
      assert ToLower(s)[1..] == ToLower(s[1..]);
      LowerTrimStart(s[1..]);
    }
  }

  lemma {:induction false} LowerTrimEnd(s: string)
    ensures ToLower(TrimEnd(s)) == TrimEnd(ToLower(s))
  {
    if s != [] {
      assert ToLower(s)[..|s| - 1] == ToLower(s[..|s| - 1]);
      LowerTrimEnd(s[..|s| - 1]);
    }
  }

  /** The lookup key depends only on the lower-cased text. */
  lemma ResolveIgnoresCase(s1: string, s2: string)
    requires ToLower(s1) == ToLower(s2)
    ensures ResolveDimension(s1) == ResolveDimension(s2)
  {
    LowerTrimStart(s1);
    LowerTrimStart(s2);
    LowerTrimEnd(TrimStart(s1));
    LowerTrimEnd(TrimStart(s2));
  }

  /** Surrounding white space does not change the dimension resolved. */
  lemma ResolveIgnoresPadding(w1: string, s: string, w2: string)
    requires AllWhitespace(w1) && AllWhitespace(w2)
    ensures ResolveDimension(w1 + s + w2) == ResolveDimension(s)
  {
    TrimPadded(w1, s, w2);
  }

  /** The controller's own examples: " AtTribute " resolves like "attribute" ... */
  lemma ResolvePaddedAttribute()
    ensures ResolveDimension(" AtTribute ") == Some(Attribute)
  {
    assert " AtTribute " == " " + "AtTribute" + " ";
    ResolveIgnoresPadding(" ", "AtTribute", " ");
    assert ToLower("AtTribute") == ToLower("attribute") by {
      LowerWordIsCanonical("attribute");
    }
    ResolveIgnoresCase("AtTribute", "attribute");
    KeysAreCanonical(Attribute);
  }

  /** ... "  VaLue " like "value" ... */
  lemma ResolvePaddedValue()
    ensures ResolveDimension("  VaLue ") == Some(Value)
  {
    assert "  VaLue " == "  " + "VaLue" + " ";
    ResolveIgnoresPadding("  ", "VaLue", " ");
    assert ToLower("VaLue") == ToLower("value") by {
      LowerWordIsCanonical("value");
    }
    ResolveIgnoresCase("VaLue", "value");
    KeysAreCanonical(Value);
  }

  /** ... and "unknown dimension" is not found. */
  lemma ResolveUnknownDimension()
    ensures ResolveDimension("unknown dimension") == None
  {
    var d := "unknown dimension";
    assert TrimStart(d) == d;
    assert TrimEnd(d) == d;
    assert ToLower(d) == d;
    assert d !in DimensionTable;
  }
}
