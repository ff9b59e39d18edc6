/** What `search_vehicle` (app/main.py) promises as a whole, for listings and vehicles of
    nonnegative size: one offer per location, cheapest first, each the cheapest admissible
    combination (of at most `max_comb_size` listings) of its location, and one for every
    location that has such a combination. With no negative quantity and no negative price,
    the cap loses nothing: each offer is the cheapest combination of any size.
    Also: one vehicle more, with the total raised by one, never makes a location cheaper
    or turns a location without an offer into one with an offer, as long as no size and no
    price is negative and there are no more vehicles than the total (no negative
    quantity). */
module Properties {
  import opened Types
  import opened Sorting
  import opened Packing
  import opened Fit
  import opened Assignment
  import opened Combinations
  import opened Expansion
  import opened Catalog
  import opened Search
  import opened Prefilter

  // ---------------------------------------------------------------------------------
  // Monotonicity in the vehicles

  ghost predicate NonNegativePrices(listings: seq<Listing>)
  {
    forall i :: 0 <= i < |listings| ==> listings[i].price >= 0
  }

  lemma {:induction false} SortedNonNegativePrices(listings: seq<Listing>)
    requires NonNegativePrices(listings)
    ensures NonNegativePrices(ByPrice(listings))
  {
    var sorted := ByPrice(listings);
    forall i | 0 <= i < |sorted| ensures sorted[i].price >= 0 {
      assert sorted[i] in multiset(listings);
    }
  }

  /** Leaving out the `j`-th listing of a combination takes its price off the total. */
  lemma SelectDrop(sorted: seq<Listing>, c: seq<nat>, j: nat)
    requires ValidIndices(c, |sorted|) && j < |c|
    ensures ValidIndices(c[..j] + c[j + 1..], |sorted|)
    ensures Select(sorted, c[..j] + c[j + 1..]) == Select(sorted, c)[..j] + Select(sorted, c)[j + 1..]
    ensures CandidateOf(sorted, c[..j] + c[j + 1..]).price == CandidateOf(sorted, c).price - sorted[c[j]].price
  {
    var d := c[..j] + c[j + 1..];
    var combo := Select(sorted, c);
    assert forall i :: 0 <= i < |d| ==> d[i] == c[if i < j then i else i + 1];
    var smaller := combo[..j] + combo[j + 1..];
    assert Select(sorted, d) == smaller;
    var prices := Prices(combo);
    assert Prices(smaller) == prices[..j] + prices[j + 1..];
    SumRemove(prices, j);
  }

  /** A combination of at most `q + 1` listings that holds the vehicles `more` gives one of
      at most `q` listings, no dearer, that holds `more` less one vehicle: take the vehicle
      out of its listing's part and, when that leaves more listings than vehicles, drop a
      listing whose part is empty. */
  lemma AdmissibleFewer(sorted: seq<Listing>, fewer: seq<int>, more: seq<int>, v: int, q: int, c: seq<nat>)
      returns (d: seq<nat>)
    requires NonNegativeListings(sorted) && NonNegativePrices(sorted) && NonNegative(more)
    requires multiset(more) == multiset(fewer) + multiset{v}
    requires 1 <= q && |fewer| <= q
    requires Admissible(sorted, more, q + 1, c)
    ensures Admissible(sorted, fewer, q, d) && |d| <= |c|
    ensures CandidateOf(sorted, d).price <= CandidateOf(sorted, c).price
  {
    var combo := Select(sorted, c);
    SelectNonNegative(sorted, c);
    var parts :| IsPlacement(combo, multiset(more), parts);
    var rest := PlacementRemove(combo, more, fewer, v, parts);
    if |c| <= q {
      d := c;
    } else {
      assert |Union(rest)| == |fewer|;
      var j := EmptyPart(rest);
      d := c[..j] + c[j + 1..];
      CombinationDrop(c, |sorted|, j);
      SelectDrop(sorted, c, j);
      PlacementDropEmpty(combo, multiset(fewer), rest, j);
      assert IsPlacement(Select(sorted, d), multiset(fewer), rest[..j] + rest[j + 1..]);
      assert sorted[c[j]].price >= 0;
    }
  }

  /** For nonnegative sizes and prices, one vehicle `v` more and a total one higher never
      lower a location's best price, and never give a result to a location that had none:
      whenever the larger request finds something, the smaller one finds something at most
      as dear. */
  lemma {:induction false} LocationBestMonotone(listings: seq<Listing>, fewer: seq<int>, more: seq<int>, v: int, q: int)
    requires NonNegativeListings(listings) && NonNegativePrices(listings) && NonNegative(more)
    requires multiset(more) == multiset(fewer) + multiset{v}
    requires 1 <= q && |fewer| <= q
    ensures var grown := LocationBest(listings, more, q + 1);
      var best := LocationBest(listings, fewer, q);
      grown.Some? ==> best.Some? && best.value.price <= grown.value.price
  {
    var sorted := ByPrice(listings);
    LocationBestOptimal(listings, more, q + 1);
    var grown := LocationBest(listings, more, q + 1);
    if grown.Some? {
      var c :| Admissible(sorted, more, MaxCombinationSize(listings, q + 1), c) && CandidateOf(sorted, c) == grown.value;
      var d := FewerCombination(listings, fewer, more, v, q, c);
      FewerNonNegative(fewer, more, v);
      LocationBestOptimal(listings, fewer, q);
    }
  }

  /** `AdmissibleFewer` at the sizes `max_comb_size` takes for the two totals. */
  lemma FewerCombination(listings: seq<Listing>, fewer: seq<int>, more: seq<int>, v: int, q: int, c: seq<nat>)
      returns (d: seq<nat>)
    requires NonNegativeListings(listings) && NonNegativePrices(listings) && NonNegative(more)
    requires multiset(more) == multiset(fewer) + multiset{v}
    requires 1 <= q && |fewer| <= q
    requires Admissible(ByPrice(listings), more, MaxCombinationSize(listings, q + 1), c)
    ensures Admissible(ByPrice(listings), fewer, MaxCombinationSize(listings, q), d)
    ensures CandidateOf(ByPrice(listings), d).price <= CandidateOf(ByPrice(listings), c).price
  {
    var sorted := ByPrice(listings);
    SortedNonNegative(listings);
    SortedNonNegativePrices(listings);
    assert Admissible(sorted, more, q + 1, c);
    d := AdmissibleFewer(sorted, fewer, more, v, q, c);
  }

  /** The vehicles left after one is taken out are of nonnegative length too. */
  lemma FewerNonNegative(fewer: seq<int>, more: seq<int>, v: int)
    requires NonNegative(more) && multiset(more) == multiset(fewer) + multiset{v}
    ensures NonNegative(fewer)
  {
    forall i | 0 <= i < |fewer| ensures fewer[i] >= 0 {
      assert fewer[i] in multiset(more);
      var m :| 0 <= m < |more| && more[m] == fewer[i];
    }
  }

  // ---------------------------------------------------------------------------------
  // The handler's answer

  /** The combination of `o` is a cheapest admissible one at its location. */
  ghost predicate CheapestAt(all: seq<Listing>, vehicles: seq<int>, totalQty: int, o: Offer)
  {
    var listings := ListingsAt(all, o.location);
    var sorted := ByPrice(listings);
    var maxSize := MaxCombinationSize(listings, totalQty);
    (exists c :: Admissible(sorted, vehicles, maxSize, c) && CandidateOf(sorted, c) == Candidate(o.price, o.listingIds)) &&
    (forall c :: Admissible(sorted, vehicles, maxSize, c) ==> CandidateOf(sorted, c).price >= o.price)
  }

  /** Some combination of the location's listings can hold the vehicles. */
  ghost predicate HasAdmissible(all: seq<Listing>, vehicles: seq<int>, totalQty: int, id: string)
  {
    var listings := ListingsAt(all, id);
    exists c :: Admissible(ByPrice(listings), vehicles, MaxCombinationSize(listings, totalQty), c)
  }

  ghost predicate DistinctLocations(offers: seq<Offer>)
  {
    forall a, b :: 0 <= a < b < |offers| ==> offers[a].location != offers[b].location
  }

  /** Every listing of a location's group is a listing of the catalog. */
  lemma {:induction false} ListingsAtNonNegative(all: seq<Listing>, id: string)
    requires NonNegativeListings(all)
    ensures NonNegativeListings(ListingsAt(all, id))
  {
    var group := ListingsAt(all, id);
    forall li | 0 <= li < |group| ensures group[li].length >= 0 && group[li].width >= 0 {
      ListingsAtExact(all, id, group[li]);
      assert group[li] in multiset(group);
      assert group[li] in multiset(all);
      var i :| 0 <= i < |all| && all[i] == group[li];
    }
  }

  /** The vehicles of a request with nonnegative lengths, longest first, are nonnegative. */
  lemma {:induction false} VehiclesNonNegative(request: seq<VehicleRequest>)
    requires forall i :: 0 <= i < |request| ==> request[i].length >= 0
    ensures NonNegative(SortBy(Expanded(request), Neg))
  {
    var vehicles := SortBy(Expanded(request), Neg);
    forall i | 0 <= i < |vehicles| ensures vehicles[i] >= 0 {
      assert vehicles[i] in multiset(Expanded(request));
      ExpandedMembers(request, vehicles[i]);
    }
  }

  /** The offer a location of the grouped catalog contributes is its cheapest admissible
      combination, and it has one exactly when some combination is admissible. */
  lemma {:induction false} GroupOffer(all: seq<Listing>, vehicles: seq<int>, totalQty: int, id: string)
    requires NonNegativeListings(all) && NonNegative(vehicles)
    ensures var o := LocationOffer(Location(id, ListingsAt(all, id)), vehicles, totalQty);
      (o.Some? <==> HasAdmissible(all, vehicles, totalQty, id)) &&
      (o.Some? ==> o.value.location == id && CheapestAt(all, vehicles, totalQty, o.value))
  {
    var listings := ListingsAt(all, id);
    var location := Location(id, listings);
    ListingsAtNonNegative(all, id);
    AreaTestRedundant(location, vehicles, totalQty);
    var best := LocationBest(listings, vehicles, totalQty);
    LocationBestOptimal(listings, vehicles, totalQty);
    if best.Some? {
      var o := Offer(id, best.value.ids, best.value.price);
      assert LocationOffer(location, vehicles, totalQty) == Some(o);
      assert Candidate(o.price, o.listingIds) == best.value;
    }
  }

  /** A permutation of offers with distinct locations has distinct locations. */
  lemma PermutationDistinct(s: seq<Offer>, r: seq<Offer>)
    requires multiset(s) == multiset(r) && DistinctLocations(s)
    ensures DistinctLocations(r)
  {
    forall a, b | 0 <= a < b < |r| ensures r[a].location != r[b].location {
      var i, j := Positions(s, r, a, b);
    }
  }

  /** Two positions of a permutation come from two positions of the original. */
  lemma Positions(s: seq<Offer>, r: seq<Offer>, a: nat, b: nat) returns (i: nat, j: nat)
    requires multiset(s) == multiset(r) && a < b < |r|
    ensures i < |s| && j < |s| && i != j && s[i] == r[a] && s[j] == r[b]
  {
    if r[a] == r[b] {
      TwiceIn(r, a, b);
      i, j := TwoPositions(s, r[a]);
    } else {
      i := PositionIn(s, r, a);
      j := PositionIn(s, r, b);
    }
  }

  lemma PositionIn(s: seq<Offer>, r: seq<Offer>, a: nat) returns (i: nat)
    requires multiset(s) == multiset(r) && a < |r|
    ensures i < |s| && s[i] == r[a]
  {
    assert r[a] in multiset(r);
    i :| 0 <= i < |s| && s[i] == r[a];
  }

  /** An element at two positions occurs at least twice. */
  lemma TwiceIn(r: seq<Offer>, a: nat, b: nat)
    requires a < b < |r| && r[a] == r[b]
    ensures multiset(r)[r[a]] >= 2
  {
    assert r == r[..b] + [r[b]] + r[b + 1..];
    assert r[..b][a] == r[a];
    assert r[a] in multiset(r[..b]);
  }

  /** An element occurring at least twice sits at two positions. */
  lemma TwoPositions(s: seq<Offer>, x: Offer) returns (i: nat, j: nat)
    requires multiset(s)[x] >= 2
    ensures i < j < |s| && s[i] == x && s[j] == x
  {
    assert x in multiset(s);
    i :| 0 <= i < |s| && s[i] == x;
    var others := s[..i] + s[i + 1..];
    assert s == s[..i] + [x] + s[i + 1..];
    assert multiset(s) == multiset(others) + multiset{x};
    assert x in multiset(others);
    var k :| 0 <= k < |others| && others[k] == x;
    if k < i {
      i, j := k, i;
      assert s[i] == others[k];
    } else {
      j := k + 1;
      assert others[k] == s[k + 1];
    }
  }

  /** Each offer found over the grouped catalog is at a catalog location and is a cheapest
      admissible combination there. */
  lemma OfferIsCheapest(all: seq<Listing>, vehicles: seq<int>, totalQty: int, o: Offer)
    requires NonNegativeListings(all) && NonNegative(vehicles)
    requires o in Offers(Grouped(all), vehicles, totalQty)
    ensures o.location in LocationIds(all) && CheapestAt(all, vehicles, totalQty, o)
  {
    var ids := FirstOccurrences(LocationIds(all));
    OffersFromCatalog(Grouped(all), vehicles, totalQty, o);
    var g :| 0 <= g < |Grouped(all)| && LocationOffer(Grouped(all)[g], vehicles, totalQty) == Some(o);
    assert Grouped(all)[g] == Location(ids[g], ListingsAt(all, ids[g]));
    GroupOffer(all, vehicles, totalQty, ids[g]);
    FirstOccurrencesMembers(LocationIds(all), ids[g]);
  }

  /** Every catalog location with an admissible combination has an offer. */
  lemma LocationHasOffer(all: seq<Listing>, vehicles: seq<int>, totalQty: int, id: string) returns (o: Offer)
    requires NonNegativeListings(all) && NonNegative(vehicles)
    requires id in LocationIds(all) && HasAdmissible(all, vehicles, totalQty, id)
    ensures o in Offers(Grouped(all), vehicles, totalQty) && o.location == id
  {
    var ids := FirstOccurrences(LocationIds(all));
    FirstOccurrencesMembers(LocationIds(all), id);
    var g :| 0 <= g < |ids| && ids[g] == id;
    assert Grouped(all)[g] == Location(id, ListingsAt(all, id));
    GroupOffer(all, vehicles, totalQty, id);
    o := LocationOffer(Grouped(all)[g], vehicles, totalQty).value;
    OffersFromCatalog(Grouped(all), vehicles, totalQty, o);
  }

  /** The offers over the grouped catalog, sorted by price, for vehicles of nonnegative
      length: no location twice, ascending price, each offer a cheapest admissible
      combination of its location, and an offer for every location that has one. */
  lemma SortedOffersOptimal(all: seq<Listing>, vehicles: seq<int>, totalQty: int)
    requires NonNegativeListings(all) && NonNegative(vehicles)
    ensures var offers := SortBy(Offers(Grouped(all), vehicles, totalQty), OfferPrice);
      DistinctLocations(offers) && SortedBy(offers, OfferPrice) &&
      (forall o :: o in offers ==> o.location in LocationIds(all) && CheapestAt(all, vehicles, totalQty, o)) &&
      (forall id :: id in LocationIds(all) && HasAdmissible(all, vehicles, totalQty, id) ==>
         exists o :: o in offers && o.location == id)
  {
    var found := Offers(Grouped(all), vehicles, totalQty);
    var offers := SortBy(found, OfferPrice);
    GroupedOffersDistinct(all, vehicles, totalQty);
    PermutationDistinct(found, offers);
    forall o | o in offers ensures o.location in LocationIds(all) && CheapestAt(all, vehicles, totalQty, o) {
      assert o in multiset(found);
      OfferIsCheapest(all, vehicles, totalQty, o);
    }
    forall id | id in LocationIds(all) && HasAdmissible(all, vehicles, totalQty, id)
      ensures exists o :: o in offers && o.location == id
    {
      var o := LocationHasOffer(all, vehicles, totalQty, id);
      assert o in multiset(offers);
    }
  }

  /** What the answer `Ok(offers)` of `search_vehicle` over the grouped catalog guarantees,
      for listings and vehicle lengths of nonnegative size: no location twice, ascending
      price, each offer the price and ids of a cheapest admissible combination of its
      location, and an offer for every location that has an admissible combination. */
  lemma {:induction false} SearchVehicleOptimal(all: seq<Listing>, request: seq<VehicleRequest>)
    requires NonNegativeListings(all)
    requires forall i :: 0 <= i < |request| ==> request[i].length >= 0
    ensures var q := TotalQuantity(request);
      var vehicles := SortBy(Expanded(request), Neg);
      var offers := SortBy(Offers(Grouped(all), vehicles, q), OfferPrice);
      DistinctLocations(offers) && SortedBy(offers, OfferPrice) &&
      (forall o :: o in offers ==> o.location in LocationIds(all) && CheapestAt(all, vehicles, q, o)) &&
      (forall id :: id in LocationIds(all) && HasAdmissible(all, vehicles, q, id) ==>
         exists o :: o in offers && o.location == id)
  {
    VehiclesNonNegative(request);
    SortedOffersOptimal(all, SortBy(Expanded(request), Neg), TotalQuantity(request));
  }

  // ---------------------------------------------------------------------------------
  // Beyond the size cap

  /** When there are no more vehicles than `q`, a combination that holds them gives one of
      at most `q` listings, no larger and no dearer, that holds them too: while it has more
      listings than vehicles, some listing holds nothing and is left out. */
  lemma {:induction false} AdmissibleShrink(sorted: seq<Listing>, vehicles: seq<int>, q: int, c: seq<nat>)
      returns (d: seq<nat>)
    requires NonNegativePrices(sorted)
    requires 1 <= q && |vehicles| <= q
    requires Admissible(sorted, vehicles, |c|, c)
    ensures Admissible(sorted, vehicles, q, d) && |d| <= |c|
    ensures CandidateOf(sorted, d).price <= CandidateOf(sorted, c).price
    decreases |c|
  {
    if |c| <= q {
      d := c;
    } else {
      var combo := Select(sorted, c);
      var parts :| IsPlacement(combo, multiset(vehicles), parts);
      assert |Union(parts)| == |vehicles|;
      var j := EmptyPart(parts);
      var e := c[..j] + c[j + 1..];
      CombinationDrop(c, |sorted|, j);
      SelectDrop(sorted, c, j);
      PlacementDropEmpty(combo, multiset(vehicles), parts, j);
      assert IsPlacement(Select(sorted, e), multiset(vehicles), parts[..j] + parts[j + 1..]);
      assert sorted[c[j]].price >= 0;
      d := AdmissibleShrink(sorted, vehicles, q, e);
    }
  }

  /** For nonnegative prices, a positive total and no more vehicles than the total (no
      negative quantity), the cap `max_comb_size` loses nothing: any combination of a location's listings that holds
      the vehicles gives one within the cap, no dearer. */
  lemma CapLosesNothing(listings: seq<Listing>, vehicles: seq<int>, totalQty: int, c: seq<nat>)
      returns (d: seq<nat>)
    requires NonNegativePrices(listings)
    requires 1 <= totalQty && |vehicles| <= totalQty
    requires Admissible(ByPrice(listings), vehicles, |listings|, c)
    ensures Admissible(ByPrice(listings), vehicles, MaxCombinationSize(listings, totalQty), d)
    ensures CandidateOf(ByPrice(listings), d).price <= CandidateOf(ByPrice(listings), c).price
  {
    var sorted := ByPrice(listings);
    SortedNonNegativePrices(listings);
    d := AdmissibleShrink(sorted, vehicles, totalQty, c);
  }

  /** The combination of `o` is a cheapest of all combinations of its location's listings
      that hold the vehicles, of any size. */
  ghost predicate CheapestOverall(all: seq<Listing>, vehicles: seq<int>, o: Offer)
  {
    var listings := ListingsAt(all, o.location);
    forall c :: Admissible(ByPrice(listings), vehicles, |listings|, c) ==>
      CandidateOf(ByPrice(listings), c).price >= o.price
  }

  /** Some combination of the location's listings, of any size, holds the vehicles. */
  ghost predicate HoldsSomewhere(all: seq<Listing>, vehicles: seq<int>, id: string)
  {
    var listings := ListingsAt(all, id);
    exists c :: Admissible(ByPrice(listings), vehicles, |listings|, c)
  }

  lemma {:induction false} ListingsAtNonNegativePrices(all: seq<Listing>, id: string)
    requires NonNegativePrices(all)
    ensures NonNegativePrices(ListingsAt(all, id))
  {
    var group := ListingsAt(all, id);
    forall li | 0 <= li < |group| ensures group[li].price >= 0 {
      ListingsAtExact(all, id, group[li]);
      assert group[li] in multiset(group);
      assert group[li] in multiset(all);
      var i :| 0 <= i < |all| && all[i] == group[li];
    }
  }

  /** For nonnegative sizes and prices, a positive total and no more vehicles than it, the
      sorted offers over the grouped catalog are cheapest among all combinations of their
      location, of any size, and every location with such a combination has an offer. */
  lemma SortedOffersCheapestOverall(all: seq<Listing>, vehicles: seq<int>, totalQty: int)
    requires NonNegativeListings(all) && NonNegativePrices(all) && NonNegative(vehicles)
    requires 1 <= totalQty && |vehicles| <= totalQty
    ensures var offers := SortBy(Offers(Grouped(all), vehicles, totalQty), OfferPrice);
      (forall o :: o in offers ==> CheapestOverall(all, vehicles, o)) &&
      (forall id :: id in LocationIds(all) && HoldsSomewhere(all, vehicles, id) ==>
         exists o :: o in offers && o.location == id)
  {
    var offers := SortBy(Offers(Grouped(all), vehicles, totalQty), OfferPrice);
    SortedOffersOptimal(all, vehicles, totalQty);
    forall o | o in offers ensures CheapestOverall(all, vehicles, o) {
      var listings := ListingsAt(all, o.location);
      assert CheapestAt(all, vehicles, totalQty, o);
      ListingsAtNonNegativePrices(all, o.location);
      forall c | Admissible(ByPrice(listings), vehicles, |listings|, c)
        ensures CandidateOf(ByPrice(listings), c).price >= o.price
      {
        var d := CapLosesNothing(listings, vehicles, totalQty, c);
      }
    }
    forall id | id in LocationIds(all) && HoldsSomewhere(all, vehicles, id)
      ensures exists o :: o in offers && o.location == id
    {
      var listings := ListingsAt(all, id);
      ListingsAtNonNegativePrices(all, id);
      var c :| Admissible(ByPrice(listings), vehicles, |listings|, c);
      var d := CapLosesNothing(listings, vehicles, totalQty, c);
      assert HasAdmissible(all, vehicles, totalQty, id);
    }
  }

  /** The same for a request with no negative length or quantity whose `total_qty` is
      positive. */
  lemma {:induction false} SearchVehicleCheapestOverall(all: seq<Listing>, request: seq<VehicleRequest>)
    requires NonNegativeListings(all) && NonNegativePrices(all)
    requires forall i :: 0 <= i < |request| ==> request[i].length >= 0
    requires NonNegativeQuantities(request) && TotalQuantity(request) >= 1
    ensures var vehicles := SortBy(Expanded(request), Neg);
      var offers := SortBy(Offers(Grouped(all), vehicles, TotalQuantity(request)), OfferPrice);
      (forall o :: o in offers ==> CheapestOverall(all, vehicles, o)) &&
      (forall id :: id in LocationIds(all) && HoldsSomewhere(all, vehicles, id) ==>
         exists o :: o in offers && o.location == id)
  {
    var vehicles := SortBy(Expanded(request), Neg);
    VehiclesNonNegative(request);
    ExpandedLength(request);
    assert |vehicles| == |multiset(vehicles)| == |multiset(Expanded(request))|;
    SortedOffersCheapestOverall(all, vehicles, TotalQuantity(request));
  }
}
