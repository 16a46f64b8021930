/**
 * The product page's catalog and its search/category filter: a product is
 * shown when its lower-cased name includes the lower-cased query and the
 * category is `all` or equals the product's own.
 */
module Catalog {
  import opened JsString

  /** One catalog entry. `price` is in integer cents. */
  datatype Product = Product(
    id: int,
    name: string,
    price: int,
    image: string,
    category: string,
    description: string)

  /** The page's fixed catalog. */
  const Products: seq<Product> := [
    Product(1, "Fresh Spinach", 299,
      "https://images.unsplash.com/photo-1576045057995-568f588f82fb?w=300&h=300&fit=crop",
      "leafy greens", "Fresh organic spinach leaves"),
    Product(2, "Carrots", 199,
      "https://images.unsplash.com/photo-1447175008436-054170c2e979?w=300&h=300&fit=crop",
      "root vegetables", "Sweet organic carrots"),
    Product(3, "Broccoli", 349,
      "https://images.unsplash.com/photo-1459411621453-7b03977f4bfc?w=300&h=300&fit=crop",
      "cruciferous", "Fresh broccoli crowns"),
    Product(4, "Tomatoes", 249,
      "https://images.unsplash.com/photo-1546470427-1ec0a5a6c2c8?w=300&h=300&fit=crop",
      "nightshades", "Ripe red tomatoes"),
    Product(5, "Red Onions", 129,
      "https://images.unsplash.com/photo-1618512496248-a01f6a18a5af?w=300&h=300&fit=crop",
      "allium", "Fresh red onions"),
    Product(6, "Zucchini", 199,
      "https://images.unsplash.com/photo-1596185600711-5c3f2b66159e?w=300&h=300&fit=crop",
      "gourds", "Fresh green zucchini")
  ]

  /** The catalog holds six products, numbered 1 to 6 in display order. */
  lemma CatalogIds()
    ensures |Products| == 6
    ensures Products[0].id == 1 && Products[1].id == 2 && Products[2].id == 3
    ensures Products[3].id == 4 && Products[4].id == 5 && Products[5].id == 6
  {
  }

  /** The search test: the query, lower-cased, occurs in the lower-cased product name. */
  predicate MatchesSearch(p: Product, query: string)
    ensures MatchesSearch(p, query) ==> |query| <= |p.name|
  {
    Includes(ToLower(p.name), ToLower(query))
  }

  /** The category test: the selection `all` admits every product, any other
      selection only the products of exactly that category. */
  predicate MatchesCategory(p: Product, category: string)
    ensures category == "all" ==> MatchesCategory(p, category)
    ensures category != "all" ==> (MatchesCategory(p, category) <==> p.category == category)
  {
    category == "all" || p.category == category
  }

  predicate Shown(p: Product, query: string, category: string)
  {
    MatchesSearch(p, query) && MatchesCategory(p, category)
  }

  /** `filteredProducts`: the products that pass both tests, in catalog order. */
  function Filter(ps: seq<Product>, query: string, category: string): (r: seq<Product>)
    ensures |r| <= |ps|
    ensures forall i :: 0 <= i < |r| ==> Shown(r[i], query, category)
    ensures forall p :: p in r <==> p in ps && Shown(p, query, category)
  {
    if ps == [] then []
    else
      var rest := Filter(ps[1..], query, category);
      assert ps == [ps[0]] + ps[1..];
      if Shown(ps[0], query, category) then [ps[0]] + rest else rest
  }

  /** Each shown product appears as often as in the catalog; no other product appears. */
  lemma {:induction false} FilterMultiplicity(ps: seq<Product>, query: string, category: string, p: Product)
    ensures multiset(Filter(ps, query, category))[p] == if Shown(p, query, category) then multiset(ps)[p] else 0
  {
    if ps != [] {
      FilterMultiplicity(ps[1..], query, category, p);
      assert ps == [ps[0]] + ps[1..];
      var rest := Filter(ps[1..], query, category);
      if Shown(ps[0], query, category) {
        assert multiset([ps[0]] + rest) == multiset{ps[0]} + multiset(rest);
      }
    }
  }

  /** `r` is `s` with some elements dropped and the rest kept in order. */
  ghost predicate IsSubsequence<T>(r: seq<T>, s: seq<T>)
    decreases |s|
  {
    if r == [] then true
    else if s == [] then false
    else (r[0] == s[0] && IsSubsequence(r[1..], s[1..])) || IsSubsequence(r, s[1..])
  }

  /** The filter keeps catalog order. */
  lemma {:induction false} FilterIsSubsequence(ps: seq<Product>, query: string, category: string)
    ensures IsSubsequence(Filter(ps, query, category), ps)
  {
    if ps != [] {
      FilterIsSubsequence(ps[1..], query, category);
      var rest := Filter(ps[1..], query, category);
      if Shown(ps[0], query, category) {
        assert ([ps[0]] + rest)[1..] == rest;
      }
    }
  }

  /** Filtering the shown list again with the same query and category changes nothing. */
  lemma {:induction false} FilterIdempotent(ps: seq<Product>, query: string, category: string)
    ensures Filter(Filter(ps, query, category), query, category) == Filter(ps, query, category)
  {
    if ps != [] {
      FilterIdempotent(ps[1..], query, category);
      var rest := Filter(ps[1..], query, category);
      if Shown(ps[0], query, category) {
        assert ([ps[0]] + rest)[1..] == rest;
      }
    }
  }

  /** The filter does not see the letter case of the query. */
  lemma {:induction false} FilterIgnoresQueryCase(ps: seq<Product>, q1: string, q2: string, category: string)
    requires ToLower(q1) == ToLower(q2)
    ensures Filter(ps, q1, category) == Filter(ps, q2, category)
  {
    if ps != [] {
      FilterIgnoresQueryCase(ps[1..], q1, q2, category);
    }
  }

  /** A query that is the lower-cased form of another selects the same products. */
  lemma LowerCasedQuerySameResult(ps: seq<Product>, query: string, category: string)
    ensures Filter(ps, ToLower(query), category) == Filter(ps, query, category)
  {
    ToLowerIdempotent(query);
    FilterIgnoresQueryCase(ps, ToLower(query), query, category);
  }

  /** With an empty query and category `all` the whole catalog is shown. */
  lemma {:induction false} EmptyQueryAllShowsEverything(ps: seq<Product>)
    ensures Filter(ps, "", "all") == ps
  {
    if ps != [] {
      EmptyQueryAllShowsEverything(ps[1..]);
      IncludesEmpty(ToLower(ps[0].name));
      assert ToLower("") == "";
      assert ps == [ps[0]] + ps[1..];
    }
  }

  /** Category `all` filters by name alone; any other category keeps only its own products. */
  lemma CategorySelection(ps: seq<Product>, query: string, category: string)
    ensures category == "all" ==> forall p :: p in Filter(ps, query, category) <==> p in ps && MatchesSearch(p, query)
    ensures category != "all" ==> forall p :: p in Filter(ps, query, category) ==> p.category == category
  {
  }

  /** On the shipped catalog the empty search with category `all` shows all six products. */
  lemma CatalogShowsAll()
    ensures Filter(Products, "", "all") == Products
  {
    EmptyQueryAllShowsEverything(Products);
  }
}
