/** The area test of `search_vehicle` (app/main.py) skips a location whose listings have
    fewer cells in total than the vehicles need. For listings and vehicles of nonnegative
    size it never skips a location that has an offer, so the results are those of the
    search without it. */
module Prefilter {
  import opened Types
  import opened Sorting
  import opened Packing
  import opened Fit
  import opened Assignment
  import opened Combinations
  import opened Search

  // ---------------------------------------------------------------------------------
  // Sums

  /** The sum does not depend on the order of the terms. */
  lemma {:induction false} SumPermutation(a: seq<int>, b: seq<int>)
    requires multiset(a) == multiset(b)
    ensures Sum(a) == Sum(b)
    decreases |a|
  {
    if a != [] {
      assert a[0] in multiset(b);
      var k :| 0 <= k < |b| && b[k] == a[0];
      var rest := b[..k] + b[k + 1..];
      RemoveMatching(a, b, k);
      SumPermutation(a[1..], rest);
      SumRemove(b, k);
    } else {
      assert b == [];
    }
  }

  /** Taking matching elements out of two permutations of each other leaves two
      permutations of each other. */
  lemma RemoveMatching<T>(a: seq<T>, b: seq<T>, k: nat)
    requires multiset(a) == multiset(b)
    requires a != [] && k < |b| && b[k] == a[0]
    ensures multiset(a[1..]) == multiset(b[..k] + b[k + 1..])
  {
    assert b == b[..k] + [b[k]] + b[k + 1..];
    assert a == [a[0]] + a[1..];
    var rest := b[..k] + b[k + 1..];
    assert multiset(b) == multiset(b[..k]) + multiset{b[k]} + multiset(b[k + 1..]);
    assert multiset(rest) == multiset(b[..k]) + multiset(b[k + 1..]);
    assert multiset(a) == multiset{a[0]} + multiset(a[1..]);
    forall x ensures multiset(a[1..])[x] == multiset(rest)[x] {
      assert multiset(a)[x] == multiset{a[0]}[x] + multiset(a[1..])[x];
    }
  }

  lemma {:induction false} SumRepeat(x: int, n: nat)
    ensures Sum(Repeat(x, n)) == n * x
    decreases n
  {
    if n > 0 {
      assert Repeat(x, n) == [x] + Repeat(x, n - 1);
      SumAppendFront(x, Repeat(x, n - 1));
      SumRepeat(x, n - 1);
    }
  }

  /** The elements at the strictly increasing positions `c`. */
  function Pick(xs: seq<int>, c: seq<nat>): (picked: seq<int>)
    requires forall k :: 0 <= k < |c| ==> c[k] < |xs|
    ensures |picked| == |c|
  {
    seq(|c|, k requires 0 <= k < |c| => xs[c[k]])
  }

  /** Dropping nonnegative terms does not raise a sum. */
  lemma {:induction false} SumPick(xs: seq<int>, c: seq<nat>)
    requires forall k :: 0 <= k < |c| ==> c[k] < |xs|
    requires forall a, b :: 0 <= a < b < |c| ==> c[a] < c[b]
    requires forall i :: 0 <= i < |xs| ==> xs[i] >= 0
    ensures Sum(Pick(xs, c)) <= Sum(xs)
    decreases |c|
  {
    if c == [] {
      SumNonNegative(xs);
    } else {
      var n := |c| - 1;
      var m := c[n];
      var front := c[..n];
      assert forall k :: 0 <= k < n ==> front[k] < m by {
        forall k | 0 <= k < n ensures front[k] < m {
          assert c[k] < c[n];
        }
      }
      var low := xs[..m];
      SumPick(low, front);
      assert Pick(xs, c) == Pick(low, front) + [xs[m]];
      SumConcat(Pick(low, front), [xs[m]]);
      assert xs == low + ([xs[m]] + xs[m + 1..]);
      SumConcat(low, [xs[m]] + xs[m + 1..]);
      SumAppendFront(xs[m], xs[m + 1..]);
      SumNonNegative(xs[m + 1..]);
    }
  }

  // ---------------------------------------------------------------------------------
  // Rows

  /** All bins, one after the other. */
  function Flatten(bins: seq<seq<int>>): seq<int>
    decreases |bins|
  {
    if bins == [] then [] else bins[0] + Flatten(bins[1..])
  }

  lemma {:induction false} FlattenUnion(bins: seq<seq<int>>)
    ensures multiset(Flatten(bins)) == Union(bins)
    decreases |bins|
  {
    if bins != [] {
      FlattenUnion(bins[1..]);
    }
  }

  /** Bins within their rows' capacities hold no more than all rows together. */
  lemma {:induction false} BinsWithinRows(rows: seq<int>, bins: seq<seq<int>>)
    requires |bins| == |rows|
    requires forall r :: 0 <= r < |rows| ==> Sum(bins[r]) <= rows[r]
    ensures Sum(Flatten(bins)) <= Sum(rows)
    decreases |rows|
  {
    if rows != [] {
      BinsWithinRows(rows[1..], bins[1..]);
      SumConcat(bins[0], Flatten(bins[1..]));
    }
  }

  /** A packing into `rowCount` rows of `rowLen` cells uses at most all their cells. */
  lemma {:induction false} PackingWithinArea(rowCount: int, rowLen: int, cells: seq<int>)
    requires rowCount >= 0
    requires PackingExists(rowCount, rowLen, cells)
    ensures Sum(cells) <= rowCount * rowLen
  {
    var rows := InitialRows(rowCount, rowLen);
    var bins :| IsPacking(rows, multiset(cells), bins);
    BinsWithinRows(rows, bins);
    SumRepeat(rowLen, rowCount);
    FlattenUnion(bins);
    SumPermutation(Flatten(bins), cells);
  }

  /** What one listing holds in either orientation needs no more cells than it has. */
  lemma PartWithinListing(listing: Listing, part: seq<int>)
    requires listing.length >= 0 && listing.width >= 0
    requires PacksInSomeOrientation(listing, part)
    ensures Demand(part) <= ListingArea(listing)
  {
    var lenCells := Cells(listing.length);
    var widCells := Cells(listing.width);
    var cells := VehicleCells(part);
    if PackingExists(widCells, lenCells, cells) {
      PackingWithinArea(widCells, lenCells, cells);
    } else {
      PackingWithinArea(lenCells, widCells, cells);
    }
  }

  /** The vehicles split among a combination need no more cells than it has. */
  lemma {:induction false} PartsWithinCombination(combo: seq<Listing>, parts: seq<seq<int>>)
    requires NonNegativeListings(combo) && |parts| == |combo|
    requires forall li :: 0 <= li < |combo| ==> PacksInSomeOrientation(combo[li], parts[li])
    ensures Demand(Flatten(parts)) <= Area(combo)
    decreases |combo|
  {
    if combo != [] {
      PartsWithinCombination(combo[1..], parts[1..]);
      PartWithinListing(combo[0], parts[0]);
      VehicleCellsConcat(parts[0], Flatten(parts[1..]));
      SumConcat(VehicleCells(parts[0]), VehicleCells(Flatten(parts[1..])));
      assert Areas(combo) == [ListingArea(combo[0])] + Areas(combo[1..]);
      SumAppendFront(ListingArea(combo[0]), Areas(combo[1..]));
    }
  }

  /** Demand depends only on which vehicles there are, not on their order. */
  lemma DemandPermutation(a: seq<int>, b: seq<int>)
    requires multiset(a) == multiset(b)
    ensures Demand(a) == Demand(b)
  {
    VehicleCellsSub(a, b);
    VehicleCellsSub(b, a);
    SumPermutation(VehicleCells(a), VehicleCells(b));
  }

  /** The total area does not depend on the order of the listings. */
  lemma {:induction false} AreaPermutation(a: seq<Listing>, b: seq<Listing>)
    requires multiset(a) == multiset(b)
    ensures Area(a) == Area(b)
    decreases |a|
  {
    if a != [] {
      assert a[0] in multiset(b);
      var k :| 0 <= k < |b| && b[k] == a[0];
      var rest := b[..k] + b[k + 1..];
      RemoveMatching(a, b, k);
      AreaPermutation(a[1..], rest);
      AreaFront(a);
      AreaRemove(b, k);
    } else {
      assert b == [];
    }
  }

  lemma AreaFront(a: seq<Listing>)
    requires a != []
    ensures Area(a) == ListingArea(a[0]) + Area(a[1..])
  {
    assert a == [a[0]] + a[1..];
    AreaConcat([a[0]], a[1..]);
    AreaSingle(a[0]);
  }

  lemma AreaSingle(x: Listing)
    ensures Area([x]) == ListingArea(x)
  {
    assert Areas([x]) == [ListingArea(x)];
    assert [ListingArea(x)] + [] == [ListingArea(x)];
    SumAppendFront(ListingArea(x), []);
  }

  lemma AreaRemove(b: seq<Listing>, k: nat)
    requires k < |b|
    ensures Area(b[..k] + b[k + 1..]) == Area(b) - ListingArea(b[k])
  {
    assert b == b[..k] + ([b[k]] + b[k + 1..]);
    AreaConcat(b[..k], [b[k]] + b[k + 1..]);
    AreaConcat([b[k]], b[k + 1..]);
    AreaConcat(b[..k], b[k + 1..]);
    AreaSingle(b[k]);
  }

  lemma AreaConcat(a: seq<Listing>, b: seq<Listing>)
    ensures Area(a + b) == Area(a) + Area(b)
  {
    assert Areas(a + b) == Areas(a) + Areas(b);
    SumConcat(Areas(a), Areas(b));
  }

  /** A combination of distinct listings has no more cells than all of them. */
  lemma SelectedArea(listings: seq<Listing>, c: seq<nat>)
    requires NonNegativeListings(listings)
    requires IsCombination(c, 0, |listings|, |c|)
    ensures ValidIndices(c, |listings|)
    ensures Area(Select(listings, c)) <= Area(listings)
  {
    var areas := Areas(listings);
    forall i | 0 <= i < |areas| ensures areas[i] >= 0 {
      assert Cells(listings[i].length) >= 0 && Cells(listings[i].width) >= 0;
    }
    assert Areas(Select(listings, c)) == Pick(areas, c);
    SumPick(areas, c);
  }

  // ---------------------------------------------------------------------------------
  // The area test

  /** A location with an offer has at least as many cells as the vehicles need. */
  lemma OfferWithinArea(listings: seq<Listing>, vehicles: seq<int>, totalQty: int)
    requires NonNegativeListings(listings) && NonNegative(vehicles)
    requires LocationBest(listings, vehicles, totalQty).Some?
    ensures Area(listings) >= Demand(vehicles)
  {
    var sorted := ByPrice(listings);
    var maxSize := MaxCombinationSize(listings, totalQty);
    LocationBestOptimal(listings, vehicles, totalQty);
    var c :| Admissible(sorted, vehicles, maxSize, c);
    var combo := Select(sorted, c);
    var parts :| IsPlacement(combo, multiset(vehicles), parts);
    SortedNonNegative(listings);
    SelectNonNegative(sorted, c);
    PartsWithinCombination(combo, parts);
    FlattenUnion(parts);
    DemandPermutation(vehicles, Flatten(parts));
    SelectedArea(sorted, c);
    AreaPermutation(sorted, listings);
  }

  /** For nonnegative sizes the area test changes nothing: a location's entry is exactly
      its best candidate's. */
  lemma AreaTestRedundant(location: Location, vehicles: seq<int>, totalQty: int)
    requires NonNegativeListings(location.listings) && NonNegative(vehicles)
    ensures LocationOffer(location, vehicles, totalQty) ==
      OfferOf(location.id, LocationBest(location.listings, vehicles, totalQty))
  {
    if LocationBest(location.listings, vehicles, totalQty).Some? {
      OfferWithinArea(location.listings, vehicles, totalQty);
    }
  }
}
