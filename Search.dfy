/** `search_vehicle` (app/main.py): the request is validated and expanded, every location
    is searched for its cheapest combination of at most `max_comb_size` listings that holds
    all vehicles, and the offers are returned cheapest first.

    `BestOf` is the per-location search as a fold over the enumeration of combinations;
    `FirstCheapest` says declaratively which candidate it must find. */
module Search {
  import opened Types
  import opened Sorting
  import opened Packing
  import opened Fit
  import opened Assignment
  import opened Combinations
  import opened Expansion
  import opened Catalog

  /** The largest accepted total quantity. */
  const MaxVehicles: int := 5

  // ---------------------------------------------------------------------------------
  // Combinations of listings

  ghost predicate ValidIndices(c: seq<nat>, n: nat)
  {
    forall k :: 0 <= k < |c| ==> c[k] < n
  }

  ghost predicate AllValid(combos: seq<seq<nat>>, n: nat)
  {
    forall c :: c in combos ==> ValidIndices(c, n)
  }

  /** The listings a combination of indices picks, in index order. */
  function Select(listings: seq<Listing>, c: seq<nat>): (combo: seq<Listing>)
    requires ValidIndices(c, |listings|)
    ensures |combo| == |c|
    ensures forall k :: 0 <= k < |c| ==> combo[k] == listings[c[k]]
  {
    seq(|c|, k requires 0 <= k < |c| => listings[c[k]])
  }

  function Prices(combo: seq<Listing>): (prices: seq<int>)
    ensures |prices| == |combo|
    ensures forall k :: 0 <= k < |combo| ==> prices[k] == combo[k].price
  {
    seq(|combo|, k requires 0 <= k < |combo| => combo[k].price)
  }

  /** `combo_price`. */
  function TotalPrice(combo: seq<Listing>): int
  {
    Sum(Prices(combo))
  }

  /** `combo_ids`. */
  function Ids(combo: seq<Listing>): (ids: seq<string>)
    ensures |ids| == |combo|
    ensures forall k :: 0 <= k < |combo| ==> ids[k] == combo[k].id
  {
    seq(|combo|, k requires 0 <= k < |combo| => combo[k].id)
  }

  function CandidateOf(listings: seq<Listing>, c: seq<nat>): Candidate
    requires ValidIndices(c, |listings|)
  {
    var combo := Select(listings, c);
    Candidate(TotalPrice(combo), Ids(combo))
  }

  /** `assign_vehicle(0)` succeeds for this combination. */
  predicate Feasible(listings: seq<Listing>, vehicles: seq<int>, c: seq<nat>)
    requires ValidIndices(c, |listings|)
  {
    Assignable(Select(listings, c), vehicles, Empties(|c|))
  }

  // ---------------------------------------------------------------------------------
  // The search at one location

  /** One pass of the inner loop: a combination no cheaper than the best so far is
      skipped; otherwise it replaces the best when its search succeeds and it is cheaper. */
  function Step(best: Option<Candidate>, listings: seq<Listing>, vehicles: seq<int>, c: seq<nat>): Option<Candidate>
    requires ValidIndices(c, |listings|)
  {
    var combo := Select(listings, c);
    var price := TotalPrice(combo);
    if best.Some? && price >= best.value.price then best
    else if Assignable(combo, vehicles, Empties(|combo|)) && (best.None? || price < best.value.price) then
      Some(Candidate(price, Ids(combo)))
    else best
  }

  /** `best_for_location` after the combinations `combos`, in order. */
  function BestOf(combos: seq<seq<nat>>, listings: seq<Listing>, vehicles: seq<int>): Option<Candidate>
    requires AllValid(combos, |listings|)
    decreases |combos|
  {
    if combos == [] then None
    else
      var last := combos[|combos| - 1];
      assert last in combos;
      Step(BestOf(combos[..|combos| - 1], listings, vehicles), listings, vehicles, last)
  }

  /** `best` is the candidate of the first feasible combination of least price among
      `combos`, or nothing when none is feasible: every earlier feasible combination is
      dearer, every later one at least as dear. */
  ghost predicate FirstCheapest(combos: seq<seq<nat>>, listings: seq<Listing>, vehicles: seq<int>, best: Option<Candidate>)
    requires AllValid(combos, |listings|)
  {
    match best
    case None => forall p :: 0 <= p < |combos| ==> !Feasible(listings, vehicles, combos[p])
    case Some(cand) => exists p :: 0 <= p < |combos| && ChosenAt(combos, listings, vehicles, p, cand)
  }

  ghost predicate ChosenAt(combos: seq<seq<nat>>, listings: seq<Listing>, vehicles: seq<int>, p: nat, cand: Candidate)
    requires AllValid(combos, |listings|) && p < |combos|
  {
    Feasible(listings, vehicles, combos[p]) &&
    cand == CandidateOf(listings, combos[p]) &&
    (forall q :: 0 <= q < p && Feasible(listings, vehicles, combos[q]) ==>
       CandidateOf(listings, combos[q]).price > cand.price) &&
    (forall q :: p < q < |combos| && Feasible(listings, vehicles, combos[q]) ==>
       CandidateOf(listings, combos[q]).price >= cand.price)
  }

  /** Appending a combination keeps every combination valid and in its place. */
  lemma AppendValid(combos: seq<seq<nat>>, n: nat, c: seq<nat>)
    requires AllValid(combos, n) && ValidIndices(c, n)
    ensures AllValid(combos + [c], n)
    ensures (combos + [c])[|combos|] == c
    ensures forall q :: 0 <= q < |combos| ==> (combos + [c])[q] == combos[q]
  {
  }

  /** The chosen combination stays chosen when a combination that is not cheaper follows. */
  lemma ChosenKept(combos: seq<seq<nat>>, listings: seq<Listing>, vehicles: seq<int>, p: nat, cand: Candidate, c: seq<nat>)
    requires AllValid(combos, |listings|) && ValidIndices(c, |listings|) && p < |combos|
    requires ChosenAt(combos, listings, vehicles, p, cand)
    requires Feasible(listings, vehicles, c) ==> CandidateOf(listings, c).price >= cand.price
    ensures AllValid(combos + [c], |listings|)
    ensures ChosenAt(combos + [c], listings, vehicles, p, cand)
  {
    AppendValid(combos, |listings|, c);
  }

  /** A feasible combination cheaper than every earlier feasible one is chosen when it
      comes last. */
  lemma ChosenLast(combos: seq<seq<nat>>, listings: seq<Listing>, vehicles: seq<int>, c: seq<nat>)
    requires AllValid(combos, |listings|) && ValidIndices(c, |listings|)
    requires Feasible(listings, vehicles, c)
    requires forall q :: 0 <= q < |combos| && Feasible(listings, vehicles, combos[q]) ==>
      CandidateOf(listings, combos[q]).price > CandidateOf(listings, c).price
    ensures AllValid(combos + [c], |listings|)
    ensures ChosenAt(combos + [c], listings, vehicles, |combos|, CandidateOf(listings, c))
  {
    AppendValid(combos, |listings|, c);
  }

  /** The pruning step keeps `FirstCheapest`. */
  lemma StepFirstCheapest(combos: seq<seq<nat>>, listings: seq<Listing>, vehicles: seq<int>, best: Option<Candidate>, c: seq<nat>)
    requires AllValid(combos, |listings|) && ValidIndices(c, |listings|)
    requires FirstCheapest(combos, listings, vehicles, best)
    ensures AllValid(combos + [c], |listings|)
    ensures FirstCheapest(combos + [c], listings, vehicles, Step(best, listings, vehicles, c))
  {
    AppendValid(combos, |listings|, c);
    var here := CandidateOf(listings, c);
    match best {
      case None =>
        if Feasible(listings, vehicles, c) {
          ChosenLast(combos, listings, vehicles, c);
        }
      case Some(cand) =>
        var p :| 0 <= p < |combos| && ChosenAt(combos, listings, vehicles, p, cand);
        if here.price >= cand.price || !Feasible(listings, vehicles, c) {
          ChosenKept(combos, listings, vehicles, p, cand, c);
        } else {
          ChosenLast(combos, listings, vehicles, c);
        }
    }
  }

  /** The fold finds exactly the candidate `FirstCheapest` describes. */
  lemma {:induction false} BestOfFirstCheapest(combos: seq<seq<nat>>, listings: seq<Listing>, vehicles: seq<int>)
    requires AllValid(combos, |listings|)
    ensures FirstCheapest(combos, listings, vehicles, BestOf(combos, listings, vehicles))
    decreases |combos|
  {
    if combos != [] {
      var n := |combos| - 1;
      var prefix := combos[..n];
      assert combos == prefix + [combos[n]];
      BestOfFirstCheapest(prefix, listings, vehicles);
      StepFirstCheapest(prefix, listings, vehicles, BestOf(prefix, listings, vehicles), combos[n]);
    }
  }

  /** Seen as a set, the combinations yield the candidate of least price among the feasible
      ones, and nothing only when none is feasible. */
  lemma FirstCheapestMinimal(combos: seq<seq<nat>>, listings: seq<Listing>, vehicles: seq<int>, best: Option<Candidate>)
    requires AllValid(combos, |listings|)
    requires FirstCheapest(combos, listings, vehicles, best)
    ensures best.None? <==> forall c :: c in combos ==> !Feasible(listings, vehicles, c)
    ensures best.Some? ==>
      (exists c :: c in combos && Feasible(listings, vehicles, c) && CandidateOf(listings, c) == best.value) &&
      (forall c :: c in combos && Feasible(listings, vehicles, c) ==> CandidateOf(listings, c).price >= best.value.price)
  {
    match best {
      case None =>
        forall c | c in combos ensures !Feasible(listings, vehicles, c) {
          var p :| 0 <= p < |combos| && combos[p] == c;
        }
      case Some(cand) =>
        var p :| 0 <= p < |combos| && ChosenAt(combos, listings, vehicles, p, cand);
        assert combos[p] in combos;
        forall c | c in combos && Feasible(listings, vehicles, c)
          ensures CandidateOf(listings, c).price >= cand.price
        {
          var q :| 0 <= q < |combos| && combos[q] == c;
        }
    }
  }

  /** At most one candidate meets `FirstCheapest`: it determines the search's answer. */
  lemma FirstCheapestUnique(combos: seq<seq<nat>>, listings: seq<Listing>, vehicles: seq<int>, a: Option<Candidate>, b: Option<Candidate>)
    requires AllValid(combos, |listings|)
    requires FirstCheapest(combos, listings, vehicles, a)
    requires FirstCheapest(combos, listings, vehicles, b)
    ensures a == b
  {
    FirstCheapestMinimal(combos, listings, vehicles, a);
    FirstCheapestMinimal(combos, listings, vehicles, b);
    if a.Some? && b.Some? {
      var p :| 0 <= p < |combos| && ChosenAt(combos, listings, vehicles, p, a.value);
      var q :| 0 <= q < |combos| && ChosenAt(combos, listings, vehicles, q, b.value);
      if p < q || q < p {
        assert false;
      }
    }
  }

  lemma {:induction false} EnumerationValid(n: nat, maxSize: int)
    ensures AllValid(Enumeration(n, maxSize), n)
  {
    forall c | c in Enumeration(n, maxSize) ensures ValidIndices(c, n) {
      EnumerationExact(n, maxSize, c);
    }
  }

  /** `max_comb_size`. */
  function MaxCombinationSize(listings: seq<Listing>, totalQty: int): (m: int)
    ensures m <= |listings| && m <= totalQty
    ensures m == |listings| || m == totalQty
  {
    if |listings| < totalQty then |listings| else totalQty
  }

  /** `sorted(listings, key=lambda x: x["price_in_cents"])`. */
  function ByPrice(listings: seq<Listing>): seq<Listing>
  {
    SortBy(listings, PriceOf)
  }

  /** `best_for_location` at the end of the two loops over the price-sorted listings. */
  function LocationBest(listings: seq<Listing>, vehicles: seq<int>, totalQty: int): Option<Candidate>
  {
    var sorted := ByPrice(listings);
    EnumerationValid(|sorted|, MaxCombinationSize(listings, totalQty));
    BestOf(Enumeration(|sorted|, MaxCombinationSize(listings, totalQty)), sorted, vehicles)
  }

  /** The combination `c` of up to `maxSize` of the sorted listings can hold the vehicles:
      they split among its listings so that each has a packing of its share. */
  ghost predicate Admissible(sorted: seq<Listing>, vehicles: seq<int>, maxSize: int, c: seq<nat>)
  {
    1 <= |c| <= maxSize && IsCombination(c, 0, |sorted|, |c|) &&
    ValidIndices(c, |sorted|) && PlacementExists(Select(sorted, c), vehicles)
  }

  lemma SelectNonNegative(listings: seq<Listing>, c: seq<nat>)
    requires NonNegativeListings(listings) && ValidIndices(c, |listings|)
    ensures NonNegativeListings(Select(listings, c))
  {
    var combo := Select(listings, c);
    forall li | 0 <= li < |combo| ensures combo[li].length >= 0 && combo[li].width >= 0 {
      assert combo[li] == listings[c[li]];
    }
  }

  lemma {:induction false} SortedNonNegative(listings: seq<Listing>)
    requires NonNegativeListings(listings)
    ensures NonNegativeListings(ByPrice(listings))
  {
    var sorted := ByPrice(listings);
    forall li | 0 <= li < |sorted| ensures sorted[li].length >= 0 && sorted[li].width >= 0 {
      assert sorted[li] in multiset(listings);
    }
  }

  /** For nonnegative sizes, a combination is admissible exactly when the enumeration
      holds it and the assignment search succeeds on it. */
  lemma {:induction false} AdmissibleIff(sorted: seq<Listing>, vehicles: seq<int>, maxSize: int, c: seq<nat>)
    requires NonNegativeListings(sorted) && NonNegative(vehicles)
    requires AllValid(Enumeration(|sorted|, maxSize), |sorted|)
    ensures Admissible(sorted, vehicles, maxSize, c) <==>
      c in Enumeration(|sorted|, maxSize) && Feasible(sorted, vehicles, c)
  {
    EnumerationExact(|sorted|, maxSize, c);
    if ValidIndices(c, |sorted|) {
      SelectNonNegative(sorted, c);
      AssignmentSearchExact(Select(sorted, c), vehicles);
    }
  }

  /** For listings and vehicles of nonnegative size, the search at one location finds the
      cheapest of all combinations of at most `max_comb_size` listings that can hold the
      vehicles, and finds nothing only when there is none. */
  lemma {:induction false} LocationBestOptimal(listings: seq<Listing>, vehicles: seq<int>, totalQty: int)
    requires NonNegativeListings(listings) && NonNegative(vehicles)
    ensures var sorted := ByPrice(listings);
      var maxSize := MaxCombinationSize(listings, totalQty);
      var best := LocationBest(listings, vehicles, totalQty);
      (best.None? <==> forall c :: !Admissible(sorted, vehicles, maxSize, c)) &&
      (best.Some? ==>
        (exists c :: Admissible(sorted, vehicles, maxSize, c) && CandidateOf(sorted, c) == best.value) &&
        (forall c :: Admissible(sorted, vehicles, maxSize, c) ==> CandidateOf(sorted, c).price >= best.value.price))
  {
    var sorted := ByPrice(listings);
    var n := |sorted|;
    var maxSize := MaxCombinationSize(listings, totalQty);
    var combos := Enumeration(n, maxSize);
    EnumerationValid(n, maxSize);
    var best := BestOf(combos, sorted, vehicles);
    assert best == LocationBest(listings, vehicles, totalQty);
    BestOfFirstCheapest(combos, sorted, vehicles);
    FirstCheapestMinimal(combos, sorted, vehicles, best);
    SortedNonNegative(listings);
    AdmissibleBest(sorted, vehicles, maxSize, best);
  }

  /** What `FirstCheapestMinimal` says about the enumeration, restated over admissible
      combinations. */
  lemma {:induction false} AdmissibleBest(sorted: seq<Listing>, vehicles: seq<int>, maxSize: int, best: Option<Candidate>)
    requires NonNegativeListings(sorted) && NonNegative(vehicles)
    requires AllValid(Enumeration(|sorted|, maxSize), |sorted|)
    requires best.None? <==> forall c :: c in Enumeration(|sorted|, maxSize) ==> !Feasible(sorted, vehicles, c)
    requires best.Some? ==>
      (exists c :: c in Enumeration(|sorted|, maxSize) && Feasible(sorted, vehicles, c) && CandidateOf(sorted, c) == best.value) &&
      (forall c :: c in Enumeration(|sorted|, maxSize) && Feasible(sorted, vehicles, c) ==> CandidateOf(sorted, c).price >= best.value.price)
    ensures best.None? <==> forall c :: !Admissible(sorted, vehicles, maxSize, c)
    ensures best.Some? ==>
      (exists c :: Admissible(sorted, vehicles, maxSize, c) && CandidateOf(sorted, c) == best.value) &&
      (forall c :: Admissible(sorted, vehicles, maxSize, c) ==> CandidateOf(sorted, c).price >= best.value.price)
  {
    var combos := Enumeration(|sorted|, maxSize);
    if best.Some? {
      var c :| c in combos && Feasible(sorted, vehicles, c) && CandidateOf(sorted, c) == best.value;
      AdmissibleIff(sorted, vehicles, maxSize, c);
      forall d | Admissible(sorted, vehicles, maxSize, d) ensures CandidateOf(sorted, d).price >= best.value.price {
        AdmissibleIff(sorted, vehicles, maxSize, d);
      }
    } else {
      forall d ensures !Admissible(sorted, vehicles, maxSize, d) {
        AdmissibleIff(sorted, vehicles, maxSize, d);
      }
    }
  }

  /** The body of the inner loop for the combination `c`. */
  method TryCombination(sorted: seq<Listing>, vehicles: seq<int>, c: seq<nat>, best: Option<Candidate>)
    returns (next: Option<Candidate>)
    requires ValidIndices(c, |sorted|)
    ensures next == Step(best, sorted, vehicles, c)
  {
    var combo := Select(sorted, c);
    var price := TotalPrice(combo);
    next := best;
    if best.Some? && price >= best.value.price {
      return;
    }
    var lists := new seq<int>[|combo|](_ => []);
    assert lists[..] == Empties(|combo|);
    assert vehicles[0..] == vehicles;
    var success := AssignVehicle(combo, vehicles, lists, 0);
    if success && (best.None? || price < best.value.price) {
      next := Some(Candidate(price, Ids(combo)));
    }
  }

  lemma {:induction false} BestOfAppend(combos: seq<seq<nat>>, listings: seq<Listing>, vehicles: seq<int>, c: seq<nat>)
    requires AllValid(combos + [c], |listings|)
    ensures AllValid(combos, |listings|) && ValidIndices(c, |listings|)
    ensures BestOf(combos + [c], listings, vehicles) == Step(BestOf(combos, listings, vehicles), listings, vehicles, c)
  {
    assert (combos + [c])[..|combos|] == combos;
    assert c in combos + [c];
    forall d | d in combos ensures ValidIndices(d, |listings|) {
      assert d in combos + [c];
    }
  }

  /** The inner loop of `search_vehicle`: the combinations of one size, in order. */
  method SearchSize(sorted: seq<Listing>, vehicles: seq<int>, combos: seq<seq<nat>>, ghost done: seq<seq<nat>>, best: Option<Candidate>)
    returns (next: Option<Candidate>)
    requires AllValid(done + combos, |sorted|)
    requires best == BestOf(done, sorted, vehicles)
    ensures next == BestOf(done + combos, sorted, vehicles)
  {
    next := best;
    assert done + combos[..0] == done;
    for j := 0 to |combos|
      invariant AllValid(done + combos[..j], |sorted|)
      invariant next == BestOf(done + combos[..j], sorted, vehicles)
    {
      var c := combos[j];
      assert done + combos[..j + 1] == (done + combos[..j]) + [c];
      assert AllValid(done + combos[..j + 1], |sorted|) by {
        forall d | d in done + combos[..j + 1] ensures ValidIndices(d, |sorted|) {
          assert d in done + combos;
        }
      }
      BestOfAppend(done + combos[..j], sorted, vehicles, c);
      next := TryCombination(sorted, vehicles, c, next);
    }
    assert combos[..|combos|] == combos;
  }

  /** One pass of the outer loop: the combinations of size `r`. */
  method SearchNextSize(sorted: seq<Listing>, vehicles: seq<int>, r: int, best: Option<Candidate>)
    returns (next: Option<Candidate>)
    requires r >= 1
    requires AllValid(Enumeration(|sorted|, r - 1), |sorted|)
    requires best == BestOf(Enumeration(|sorted|, r - 1), sorted, vehicles)
    ensures AllValid(Enumeration(|sorted|, r), |sorted|)
    ensures next == BestOf(Enumeration(|sorted|, r), sorted, vehicles)
  {
    var combos := CombinationsFrom(0, |sorted|, r);
    ghost var done := Enumeration(|sorted|, r - 1);
    assert Enumeration(|sorted|, r) == done + combos;
    EnumerationValid(|sorted|, r);
    next := SearchSize(sorted, vehicles, combos, done, best);
  }

  /** The outer loop over the combination sizes `1 .. maxSize`. */
  method SearchSizes(sorted: seq<Listing>, vehicles: seq<int>, maxSize: int) returns (best: Option<Candidate>)
    ensures AllValid(Enumeration(|sorted|, maxSize), |sorted|)
    ensures best == BestOf(Enumeration(|sorted|, maxSize), sorted, vehicles)
  {
    best := None;
    var r := 1;
    EnumerationValid(|sorted|, 0);
    while r <= maxSize
      invariant 1 <= r <= if maxSize < 1 then 1 else maxSize + 1
      invariant AllValid(Enumeration(|sorted|, r - 1), |sorted|)
      invariant best == BestOf(Enumeration(|sorted|, r - 1), sorted, vehicles)
    {
      best := SearchNextSize(sorted, vehicles, r, best);
      r := r + 1;
    }
    if maxSize < 1 {
      assert Enumeration(|sorted|, maxSize) == [];
    }
  }

  /** The two loops of `search_vehicle` for one location. */
  method SearchLocation(listings: seq<Listing>, vehicles: seq<int>, totalQty: int) returns (best: Option<Candidate>)
    ensures best == LocationBest(listings, vehicles, totalQty)
    ensures var sorted := ByPrice(listings);
      var combos := Enumeration(|sorted|, MaxCombinationSize(listings, totalQty));
      AllValid(combos, |sorted|) && FirstCheapest(combos, sorted, vehicles, best)
  {
    var sorted := ByPrice(listings);
    var maxSize := MaxCombinationSize(listings, totalQty);
    best := SearchSizes(sorted, vehicles, maxSize);
    BestOfFirstCheapest(Enumeration(|sorted|, maxSize), sorted, vehicles);
  }

  // ---------------------------------------------------------------------------------
  // The search over all locations

  function ListingArea(l: Listing): int
  {
    Cells(l.length) * Cells(l.width)
  }

  function Areas(listings: seq<Listing>): (areas: seq<int>)
    ensures |areas| == |listings|
    ensures forall i :: 0 <= i < |listings| ==> areas[i] == ListingArea(listings[i])
  {
    seq(|listings|, i requires 0 <= i < |listings| => ListingArea(listings[i]))
  }

  /** `total_cells_available`. */
  function Area(listings: seq<Listing>): int
  {
    Sum(Areas(listings))
  }

  /** `total_vehicle_cells_needed`. */
  function Demand(vehicles: seq<int>): int
  {
    Sum(VehicleCells(vehicles))
  }

  /** The entry a location contributes to the results, if any: none when its cells cannot
      cover the vehicles' cells, or when no combination holds the vehicles. */
  function LocationOffer(location: Location, vehicles: seq<int>, totalQty: int): Option<Offer>
  {
    if Area(location.listings) < Demand(vehicles) then None
    else OfferOf(location.id, LocationBest(location.listings, vehicles, totalQty))
  }

  /** The result entry for a location's best candidate. */
  function OfferOf(id: string, best: Option<Candidate>): Option<Offer>
  {
    match best
    case None => None
    case Some(cand) => Some(Offer(id, cand.ids, cand.price))
  }

  /** What each location of the catalog contributes, in catalog order. */
  function LocationOffers(catalog: seq<Location>, vehicles: seq<int>, totalQty: int): (opts: seq<Option<Offer>>)
    ensures |opts| == |catalog|
    ensures forall i :: 0 <= i < |catalog| ==> opts[i] == LocationOffer(catalog[i], vehicles, totalQty)
  {
    seq(|catalog|, i requires 0 <= i < |catalog| => LocationOffer(catalog[i], vehicles, totalQty))
  }

  /** The values present in `opts`, in order. */
  function Present<T>(opts: seq<Option<T>>): seq<T>
    decreases |opts|
  {
    if opts == [] then []
    else
      var prefix := Present(opts[..|opts| - 1]);
      match opts[|opts| - 1]
      case None => prefix
      case Some(x) => prefix + [x]
  }

  /** `results`, one entry per location with an offer, in catalog order. */
  function Offers(catalog: seq<Location>, vehicles: seq<int>, totalQty: int): seq<Offer>
  {
    Present(LocationOffers(catalog, vehicles, totalQty))
  }

  lemma {:induction false} PresentMembers<T>(opts: seq<Option<T>>, x: T)
    ensures x in Present(opts) <==> Some(x) in opts
    decreases |opts|
  {
    if opts != [] {
      var n := |opts| - 1;
      PresentMembers(opts[..n], x);
      assert opts == opts[..n] + [opts[n]];
    }
  }

  /** The values present keep the order of their positions: `Present(opts)[a]` comes from
      a position `at[a]` of `opts`, and the positions increase. */
  lemma {:induction false} PresentPositions<T>(opts: seq<Option<T>>) returns (at: seq<nat>)
    ensures |at| == |Present(opts)|
    ensures forall a :: 0 <= a < |at| ==> at[a] < |opts| && opts[at[a]] == Some(Present(opts)[a])
    ensures forall a, b :: 0 <= a < b < |at| ==> at[a] < at[b]
    decreases |opts|
  {
    if opts == [] {
      at := [];
    } else {
      var n := |opts| - 1;
      var prefixAt := PresentPositions(opts[..n]);
      assert forall a :: 0 <= a < |prefixAt| ==> opts[prefixAt[a]] == opts[..n][prefixAt[a]];
      if opts[n].Some? {
        at := prefixAt + [n];
      } else {
        at := prefixAt;
      }
    }
  }

  /** The results hold exactly the offers of the catalog's locations. */
  lemma OffersFromCatalog(catalog: seq<Location>, vehicles: seq<int>, totalQty: int, o: Offer)
    ensures o in Offers(catalog, vehicles, totalQty) <==>
      exists i :: 0 <= i < |catalog| && LocationOffer(catalog[i], vehicles, totalQty) == Some(o)
  {
    var opts := LocationOffers(catalog, vehicles, totalQty);
    PresentMembers(opts, o);
    if Some(o) in opts {
      var i :| 0 <= i < |opts| && opts[i] == Some(o);
    }
  }

  ghost predicate DistinctIds(catalog: seq<Location>)
  {
    forall a, b :: 0 <= a < b < |catalog| ==> catalog[a].id != catalog[b].id
  }

  /** Over a catalog whose locations are distinct, no location is offered twice, and each
      offer carries the location it was found at. */
  lemma OffersDistinctLocations(catalog: seq<Location>, vehicles: seq<int>, totalQty: int)
    requires DistinctIds(catalog)
    ensures var offers := Offers(catalog, vehicles, totalQty);
      forall a, b :: 0 <= a < b < |offers| ==> offers[a].location != offers[b].location
  {
    var opts := LocationOffers(catalog, vehicles, totalQty);
    var offers := Present(opts);
    var at := PresentPositions(opts);
    forall a, b | 0 <= a < b < |offers| ensures offers[a].location != offers[b].location {
      assert offers[a].location == catalog[at[a]].id;
      assert offers[b].location == catalog[at[b]].id;
    }
  }

  /** Over the grouped catalog, each location is offered at most once. */
  lemma GroupedOffersDistinct(all: seq<Listing>, vehicles: seq<int>, totalQty: int)
    ensures var offers := Offers(Grouped(all), vehicles, totalQty);
      forall a, b :: 0 <= a < b < |offers| ==> offers[a].location != offers[b].location
  {
    FirstOccurrencesDistinct(LocationIds(all));
    OffersDistinctLocations(Grouped(all), vehicles, totalQty);
  }

  /** `search_vehicle` over the grouped catalog; the two HTTP 400 answers are `Err`. */
  method SearchVehicle(catalog: seq<Location>, request: seq<VehicleRequest>) returns (res: Result<seq<Offer>>)
    ensures TotalQuantity(request) == 0 ==> res == Err(NoVehiclesRequested)
    ensures TotalQuantity(request) > MaxVehicles ==> res == Err(TooManyVehicles)
    ensures TotalQuantity(request) != 0 && TotalQuantity(request) <= MaxVehicles ==>
      res == Ok(SortBy(Offers(catalog, SortBy(Expanded(request), Neg), TotalQuantity(request)), OfferPrice))
  {
    var totalQty := TotalQuantity(request);
    if totalQty == 0 {
      return Err(NoVehiclesRequested);
    }
    if totalQty > MaxVehicles {
      return Err(TooManyVehicles);
    }
    var expanded := ExpandVehicles(request);
    var vehicles := SortBy(expanded, Neg);
    var results: seq<Offer> := [];
    for i := 0 to |catalog|
      invariant results == Offers(catalog[..i], vehicles, totalQty)
    {
      var location := catalog[i];
      assert LocationOffers(catalog[..i + 1], vehicles, totalQty)[..i] == LocationOffers(catalog[..i], vehicles, totalQty);
      var available := Area(location.listings);
      var needed := Demand(vehicles);
      if available >= needed {
        var best := SearchLocation(location.listings, vehicles, totalQty);
        if best.Some? {
          var (price, ids) := (best.value.price, best.value.ids);
          results := results + [Offer(location.id, ids, price)];
        }
      }
    }
    assert catalog[..|catalog|] == catalog;
    return Ok(SortBy(results, OfferPrice));
  }
}
