/**
  The product selector of the Octopus Energy price client: the product
  records, their decoding from a parsed JSON response, the filter that keeps
  the Agile Octopus tariff, and the check that exactly one product matched.
 */
module Octoprice {
  import opened Json

  datatype Option<T> = None | Some(value: T)

  // JSON member names read by the derived decoders
  const CodeKey := "code"
  const DisplayNameKey := "display_name"
  const BrandKey := "brand"
  const ResultsKey := "results"

  // The fixed selection predicate
  const AgileBrand := "OCTOPUS_ENERGY"
  const AgileDisplayName := "Agile Octopus"

  /** One tariff product; every other member of the JSON object is dropped. */
  datatype Product = Product(code: string, displayName: string, brand: string)

  /** The catalog: the `results` array of the products listing, in order. */
  datatype Products = Products(results: seq<Product>)

  /** What selection yields. The two failures are panics in the program:
      `DecodeFailed` for the `expect` on the parse, `NotExactlyOne` for the
      assertion on the number of matches, carrying that number. */
  datatype Selection =
    | Selected(product: Product)
    | DecodeFailed
    | NotExactlyOne(found: nat)

  predicate IsAgile(p: Product) {
    p.brand == AgileBrand && p.displayName == AgileDisplayName
  }

  // ---------------------------------------------------------------------
  // Decoding (the derived `Deserialize` implementations)
  // ---------------------------------------------------------------------

  /** The string held under `key`, when there is one. */
  function StringMember(members: map<string, Value>, key: string): Option<string> {
    if key in members then
      match members[key]
      case Str(s) => Some(s)
      case _ => None
    else None
  }

  /** A product decodes from an object whose `code`, `display_name` and
      `brand` members are all strings; other members are ignored. */
  function DecodeProduct(v: Value): (r: Option<Product>)
    ensures r.Some? <==>
      v.Object? && CodeKey in v.members && DisplayNameKey in v.members && BrandKey in v.members
      && v.members[CodeKey].Str? && v.members[DisplayNameKey].Str? && v.members[BrandKey].Str?
    ensures r.Some? ==>
      v.members[CodeKey] == Str(r.value.code)
      && v.members[DisplayNameKey] == Str(r.value.displayName)
      && v.members[BrandKey] == Str(r.value.brand)
  {
    if !v.Object? then None
    else
      match (StringMember(v.members, CodeKey), StringMember(v.members, DisplayNameKey), StringMember(v.members, BrandKey))
      case (Some(code), Some(name), Some(brand)) => Some(Product(code, name, brand))
      case _ => None
  }

  /** Decodes every element of an array, failing as a whole when one fails. */
  function DecodeEach(items: seq<Value>): (r: Option<seq<Product>>)
    ensures r.Some? <==> forall i :: 0 <= i < |items| ==> DecodeProduct(items[i]).Some?
    ensures r.Some? ==> |r.value| == |items|
    ensures r.Some? ==> forall i :: 0 <= i < |items| ==> DecodeProduct(items[i]) == Some(r.value[i])
  {
    if items == [] then Some([])
    else
      match (DecodeProduct(items[0]), DecodeEach(items[1..]))
      case (Some(p), Some(ps)) =>
        assert forall i :: 1 <= i < |items| ==> items[i] == items[1..][i - 1];
        Some([p] + ps)
      case (None, _) => None
      case (_, None) =>
        assert forall i :: 0 <= i < |items[1..]| ==> items[1..][i] == items[i + 1];
        None
  }

  /** A catalog decodes from an object with a `results` array whose every
      element decodes as a product; other members are ignored. */
  function DecodeProducts(v: Value): (r: Option<Products>)
    ensures r.Some? <==>
      v.Object? && ResultsKey in v.members && v.members[ResultsKey].Array?
      && forall i :: 0 <= i < |v.members[ResultsKey].items| ==> DecodeProduct(v.members[ResultsKey].items[i]).Some?
    ensures r.Some? ==>
      var items := v.members[ResultsKey].items;
      |r.value.results| == |items|
      && forall i :: 0 <= i < |items| ==> DecodeProduct(items[i]) == Some(r.value.results[i])
  {
    if v.Object? && ResultsKey in v.members && v.members[ResultsKey].Array? then
      match DecodeEach(v.members[ResultsKey].items)
      case Some(ps) => Some(Products(ps))
      case None => None
    else None
  }

  /** The JSON object a product is read from, with nothing but its three
      fields. */
  function EncodeProduct(p: Product): Value {
    Object(map[CodeKey := Str(p.code), DisplayNameKey := Str(p.displayName), BrandKey := Str(p.brand)])
  }

  /** The listing response for a catalog, with nothing but its `results`. */
  function EncodeProducts(c: Products): Value {
    Object(map[ResultsKey := Array(seq(|c.results|, i requires 0 <= i < |c.results| => EncodeProduct(c.results[i])))])
  }

  /** A product object decodes to the product whatever other members it has. */
  lemma DecodeProductKeepsThreeFields(p: Product, extra: map<string, Value>)
    requires CodeKey !in extra && DisplayNameKey !in extra && BrandKey !in extra
    ensures DecodeProduct(Object(extra + EncodeProduct(p).members)) == Some(p)
  {
  }

  /** Adding or replacing a member other than the three fields never changes
      what a value decodes to. */
  lemma DecodeProductIgnoresOtherMembers(members: map<string, Value>, key: string, v: Value)
    requires key != CodeKey && key != DisplayNameKey && key != BrandKey
    ensures DecodeProduct(Object(members[key := v])) == DecodeProduct(Object(members))
  {
  }

  /** Round trip of the catalog decoder, also with other top-level members. */
  lemma {:induction false} DecodeEncodeProducts(c: Products, extra: map<string, Value>)
    requires ResultsKey !in extra
    ensures DecodeProducts(Object(extra + EncodeProducts(c).members)) == Some(c)
  {
    var v := Object(extra + EncodeProducts(c).members);
    var items := v.members[ResultsKey].items;
    forall i | 0 <= i < |items|
      ensures DecodeProduct(items[i]) == Some(c.results[i])
    {
      DecodeProductKeepsThreeFields(c.results[i], map[]);
      assert map[] + EncodeProduct(c.results[i]).members == EncodeProduct(c.results[i]).members;
    }
    assert DecodeProducts(v).value.results == c.results;
  }

  // ---------------------------------------------------------------------
  // The filter
  // ---------------------------------------------------------------------

  /** The products that satisfy the predicate, in catalog order (the
      `filter(...).map(to_owned).collect()` chain). */
  function AgileProducts(s: seq<Product>): (r: seq<Product>)
    ensures |r| <= |s|
    ensures forall k :: 0 <= k < |r| ==> IsAgile(r[k])
  {
    if s == [] then []
    else (if IsAgile(s[0]) then [s[0]] else []) + AgileProducts(s[1..])
  }

  /** Positions of the matching products, as a reference for the filter. */
  ghost function MatchIndices(s: seq<Product>): set<int> {
    set i | 0 <= i < |s| && IsAgile(s[i])
  }

  /** Positions of the matching products in increasing order. */
  ghost function MatchPositions(s: seq<Product>): seq<nat> {
    if s == [] then []
    else MatchPositions(s[..|s| - 1]) + (if IsAgile(s[|s| - 1]) then [|s| - 1] else [])
  }

  /** The filter distributes over concatenation: it keeps catalog order. */
  lemma {:induction false} AgileProductsAppend(a: seq<Product>, b: seq<Product>)
    ensures AgileProducts(a + b) == AgileProducts(a) + AgileProducts(b)
  {
    if a == [] {
      assert a + b == b;
    } else {
      var head := if IsAgile(a[0]) then [a[0]] else [];
      assert (a + b)[0] == a[0];
      assert (a + b)[1..] == a[1..] + b;
      AgileProductsAppend(a[1..], b);
      calc {
        AgileProducts(a + b);
        head + AgileProducts(a[1..] + b);
        head + (AgileProducts(a[1..]) + AgileProducts(b));
        (head + AgileProducts(a[1..])) + AgileProducts(b);
        AgileProducts(a) + AgileProducts(b);
      }
    }
  }

  /** On one product the filter keeps it exactly when it matches. */
  lemma AgileProductsSingle(p: Product)
    ensures AgileProducts([p]) == if IsAgile(p) then [p] else []
  {
  }

  /** The filter on a catalog extended by one product. */
  lemma {:induction false} AgileProductsSnoc(s: seq<Product>)
    requires s != []
    ensures AgileProducts(s) == AgileProducts(s[..|s| - 1]) + (if IsAgile(s[|s| - 1]) then [s[|s| - 1]] else [])
  {
    var t, x := s[..|s| - 1], s[|s| - 1];
    calc {
      AgileProducts(s);
      { assert s == t + [x]; }
      AgileProducts(t + [x]);
      { AgileProductsAppend(t, [x]); }
      AgileProducts(t) + AgileProducts([x]);
      { AgileProductsSingle(x); }
      AgileProducts(t) + (if IsAgile(x) then [x] else []);
    }
  }

  /** The filter is the order-preserving subsequence of the matching
      products: its k-th element is the catalog element at the k-th matching
      position, the positions increase, and they are exactly the matches. */
  lemma {:induction false} AgileProductsAreSubsequence(s: seq<Product>)
    ensures |MatchPositions(s)| == |AgileProducts(s)|
    ensures forall k :: 0 <= k < |MatchPositions(s)| ==>
      MatchPositions(s)[k] < |s| && AgileProducts(s)[k] == s[MatchPositions(s)[k]]
    ensures forall k, l :: 0 <= k < l < |MatchPositions(s)| ==> MatchPositions(s)[k] < MatchPositions(s)[l]
    ensures forall i :: 0 <= i < |s| ==> (i in MatchPositions(s) <==> IsAgile(s[i]))
  {
    if s != [] {
      var t := s[..|s| - 1];
      AgileProductsSnoc(s);
      AgileProductsAreSubsequence(t);
      var pos, pt := MatchPositions(s), MatchPositions(t);
      var r, rt := AgileProducts(s), AgileProducts(t);
      assert pos == pt + (if IsAgile(s[|s| - 1]) then [|s| - 1] else []);
      forall k | 0 <= k < |pos|
        ensures pos[k] < |s| && r[k] == s[pos[k]]
      {
        if k < |pt| {
          assert pos[k] == pt[k] && r[k] == rt[k] && s[pt[k]] == t[pt[k]];
        }
      }
      forall i | 0 <= i < |s|
        ensures i in pos <==> IsAgile(s[i])
      {
        if i < |t| {
          assert s[i] == t[i];
          assert i !in pos[|pt|..];
          assert pos == pt + pos[|pt|..];
        }
      }
    }
  }

  /** The number of products kept is the number of matching products. */
  lemma {:induction false} AgileProductsCount(s: seq<Product>)
    ensures |AgileProducts(s)| == |MatchIndices(s)|
  {
    if s == [] {
      assert MatchIndices(s) == {};
    } else {
      var t, x := s[..|s| - 1], s[|s| - 1];
      AgileProductsSnoc(s);
      AgileProductsCount(t);
      var m, mt := MatchIndices(s), MatchIndices(t);
      assert forall i :: 0 <= i < |t| ==> s[i] == t[i];
      if IsAgile(x) {
        assert m == mt + {|t|};
      } else {
        assert m == mt;
      }
    }
  }

  /** Every matching copy of a product is kept and no other product is. */
  lemma {:induction false} AgileProductsMultiset(s: seq<Product>)
    ensures forall p :: multiset(AgileProducts(s))[p] == if IsAgile(p) then multiset(s)[p] else 0
  {
    if s != [] {
      assert s == [s[0]] + s[1..];
      AgileProductsMultiset(s[1..]);
    }
  }

  /** Two catalogs that agree on every brand and display name. */
  ghost predicate SameExceptCodes(s: seq<Product>, t: seq<Product>) {
    |s| == |t|
    && forall i :: 0 <= i < |s| ==> s[i].brand == t[i].brand && s[i].displayName == t[i].displayName
  }

  /** Codes play no part in the filter: catalogs that differ only in codes
      keep the same positions. */
  lemma {:induction false} AgileProductsIgnoreCodes(s: seq<Product>, t: seq<Product>)
    requires SameExceptCodes(s, t)
    ensures MatchPositions(s) == MatchPositions(t)
    ensures |AgileProducts(s)| == |AgileProducts(t)|
  {
    if s != [] {
      AgileProductsIgnoreCodes(s[..|s| - 1], t[..|t| - 1]);
    }
    AgileProductsAreSubsequence(s);
    AgileProductsAreSubsequence(t);
  }

  // ---------------------------------------------------------------------
  // Selection
  // ---------------------------------------------------------------------

  /** Filters the catalog and insists on exactly one match, returning a copy
      of it. */
  function Select(catalog: Products): (r: Selection)
    ensures !r.DecodeFailed?
    ensures r.Selected? ==> IsAgile(r.product) && r.product in catalog.results
    ensures r.NotExactlyOne? ==> r.found != 1
  {
    AgileProductsAreSubsequence(catalog.results);
    var matches := AgileProducts(catalog.results);
    if |matches| == 1 then Selected(matches[0]) else NotExactlyOne(|matches|)
  }

  /** Selection succeeds exactly when one product of the catalog matches,
      and then returns that product; otherwise it reports how many matched. */
  lemma SelectExactlyOne(catalog: Products)
    ensures Select(catalog).Selected? <==> |MatchIndices(catalog.results)| == 1
    ensures Select(catalog).Selected? ==>
      exists i :: MatchIndices(catalog.results) == {i} && catalog.results[i] == Select(catalog).product
    ensures Select(catalog).NotExactlyOne? ==> Select(catalog).found == |MatchIndices(catalog.results)|
  {
    var s := catalog.results;
    AgileProductsCount(s);
    if Select(catalog).Selected? {
      var p := Select(catalog).product;
      var i :| 0 <= i < |s| && s[i] == p;
      assert i in MatchIndices(s);
      var m := MatchIndices(s);
      var j :| j in m;
      assert |m - {j}| == 0;
      assert m - {j} == {};
      assert m == {i};
    }
  }

  /** A catalog whose only match is at position i selects that product. */
  lemma SelectSoleMatch(catalog: Products, i: int)
    requires 0 <= i < |catalog.results| && IsAgile(catalog.results[i])
    requires forall j :: 0 <= j < |catalog.results| && j != i ==> !IsAgile(catalog.results[j])
    ensures Select(catalog) == Selected(catalog.results[i])
  {
    assert MatchIndices(catalog.results) == {i};
    SelectExactlyOne(catalog);
  }

  /** Changing codes never changes whether selection succeeds, the number
      reported, or which position the selected product comes from. */
  lemma SelectIgnoresCodes(c: Products, d: Products)
    requires SameExceptCodes(c.results, d.results)
    ensures Select(c).Selected? == Select(d).Selected?
    ensures Select(c).NotExactlyOne? ==> Select(d) == NotExactlyOne(Select(c).found)
    ensures Select(c).Selected? ==>
      exists i :: 0 <= i < |c.results| && Select(c).product == c.results[i] && Select(d).product == d.results[i]
  {
    AgileProductsIgnoreCodes(c.results, d.results);
    if Select(c).Selected? {
      AgileProductsAreSubsequence(c.results);
      AgileProductsAreSubsequence(d.results);
      var i := MatchPositions(c.results)[0];
      assert Select(c).product == c.results[i];
    }
  }

  /** The whole selector: decode the parsed response, then select. A body
      that is not JSON or not a catalog fails; it never yields a default. */
  function GetProductFromString(input: Parsed): (r: Selection)
    ensures r.DecodeFailed? <==> input.Malformed? || DecodeProducts(input.value).None?
    ensures r.Selected? ==>
      input.Parsed? && DecodeProducts(input.value).Some?
      && r.product in DecodeProducts(input.value).value.results && IsAgile(r.product)
    ensures r.NotExactlyOne? ==> r.found != 1
    ensures input.Parsed? && DecodeProducts(input.value).Some? ==>
      var results := DecodeProducts(input.value).value.results;
      && (r.Selected? <==> |MatchIndices(results)| == 1)
      && (r.Selected? ==> exists i :: MatchIndices(results) == {i} && results[i] == r.product)
      && (!r.Selected? ==> r == NotExactlyOne(|MatchIndices(results)|))
  {
    match input
    case Malformed => DecodeFailed
    case Parsed(v) =>
      match DecodeProducts(v)
      case None => DecodeFailed
      case Some(catalog) =>
        SelectExactlyOne(catalog);
        Select(catalog)
  }

  // ---------------------------------------------------------------------
  // The fixtures of the program's tests
  // ---------------------------------------------------------------------

  const Agile := Product("AGILE-FLEX-22-11-25", AgileDisplayName, AgileBrand)

  /** The full product object of the single-product decoding test. */
  function AgileObject(): Value {
    Object(map[
      "code" := Str("AGILE-FLEX-22-11-25"),
      "direction" := Str("IMPORT"),
      "full_name" := Str("Agile Octopus November 2022 v1"),
      "display_name" := Str("Agile Octopus"),
      "description" := Str("With Agile Octopus, you get access to half-hourly energy prices, tied to wholesale prices and updated daily.  The unit rate is capped at 100p/kWh (including VAT)."),
      "is_variable" := Bool(true),
      "is_green" := Bool(true),
      "is_tracker" := Bool(false),
      "is_prepay" := Bool(false),
      "is_business" := Bool(false),
      "is_restricted" := Bool(false),
      "term" := Null,
      "available_from" := Str("2022-11-25T00:00:00Z"),
      "available_to" := Null,
      "links" := Array([Object(map[
        "href" := Str("https://api.octopus.energy/v1/products/AGILE-FLEX-22-11-25/"),
        "method" := Str("GET"),
        "rel" := Str("self")])]),
      "brand" := Str("OCTOPUS_ENERGY")])
  }

  /** The product object with every unread member decodes to the Agile
      product. */
  lemma DecodeAgileObject()
    ensures DecodeProduct(AgileObject()) == Some(Agile)
  {
  }

  const Other := Product("OTHER-1", "Other Product", AgileBrand)

  /** A listing with the Agile product object and another Octopus product. */
  function Listing(): Value {
    Object(map[ResultsKey := Array([AgileObject(), EncodeProduct(Other)])])
  }

  /** A two-element `results` array decodes to its two products, in order. */
  lemma DecodePair(a: Value, b: Value, p: Product, q: Product)
    requires DecodeProduct(a) == Some(p) && DecodeProduct(b) == Some(q)
    ensures DecodeProducts(Object(map[ResultsKey := Array([a, b])])) == Some(Products([p, q]))
  {
    var decoded := DecodeProducts(Object(map[ResultsKey := Array([a, b])])).value.results;
    assert decoded[0] == p && decoded[1] == q;
    assert decoded == [p, q];
  }

  /** The listing selects the Agile product. */
  lemma SelectFromListing()
    ensures GetProductFromString(Parsed(Listing())) == Selected(Agile)
  {
    DecodeAgileObject();
    DecodeProductKeepsThreeFields(Other, map[]);
    assert map[] + EncodeProduct(Other).members == EncodeProduct(Other).members;
    DecodePair(AgileObject(), EncodeProduct(Other), Agile, Other);
    SelectSoleMatch(Products([Agile, Other]), 0);
  }
}
