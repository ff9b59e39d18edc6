/** The nested `assign_vehicle` search of `search_vehicle` (app/main.py): can the vehicles
    be split among the listings of one combination so that every listing holds its share?

    `Assignable` and `TryListings` follow the recursion step by step; `AssignVehicle` is the
    search itself, pushing onto and popping from the per-listing lists of an array. The
    lemmas show that the search decides exactly whether such a split exists. */
module Assignment {
  import opened Types
  import opened Packing
  import opened Fit

  /** The final check of `assign_vehicle`: every listing holds the vehicles given to it. */
  predicate AllFit(combo: seq<Listing>, lists: seq<seq<int>>)
    requires |lists| == |combo|
  {
    forall li {:trigger ListingFits(combo[li], lists[li])} :: 0 <= li < |combo| ==> ListingFits(combo[li], lists[li])
  }

  /** `assign_vehicle(idx)`: `rest` are the vehicles from `idx` on and `lists` holds the
      lists built for the vehicles before it. */
  function Assignable(combo: seq<Listing>, rest: seq<int>, lists: seq<seq<int>>): bool
    requires |lists| == |combo|
    decreases |rest|, |combo| + 1
  {
    if rest == [] then AllFit(combo, lists)
    else TryListings(combo, rest[0], rest[1..], lists, 0)
  }

  /** The loop of `assign_vehicle` over the listings from `li` on, for the vehicle `v`:
      append it, recurse if the listing still holds its list, and pop it again. */
  function TryListings(combo: seq<Listing>, v: int, rest: seq<int>, lists: seq<seq<int>>, li: nat): bool
    requires |lists| == |combo|
    decreases |rest| + 1, |combo| - li
  {
    if li >= |combo| then false
    else
      var grown := lists[li := lists[li] + [v]];
      (ListingFits(combo[li], grown[li]) && Assignable(combo, rest, grown))
      || TryListings(combo, v, rest, lists, li + 1)
  }

  /** `parts` splits the multiset `vehicles` among the listings of `combo`, and every
      listing passes the fit check on its part. */
  ghost predicate IsAssignment(combo: seq<Listing>, vehicles: multiset<int>, parts: seq<seq<int>>)
  {
    |parts| == |combo| && Union(parts) == vehicles && AllFit(combo, parts)
  }

  /** The vehicles can be split among the listings of `combo` so that each listing has a
      packing of its part in one of its orientations. */
  ghost predicate PlacementExists(combo: seq<Listing>, vehicles: seq<int>)
  {
    exists parts :: IsPlacement(combo, multiset(vehicles), parts)
  }

  /** `parts[li]` lists the vehicles given to listing `li`: every vehicle goes to exactly
      one listing, and each listing has a packing of its part in one orientation. */
  ghost predicate IsPlacement(combo: seq<Listing>, vehicles: multiset<int>, parts: seq<seq<int>>)
  {
    |parts| == |combo| && Union(parts) == vehicles &&
    forall li :: 0 <= li < |combo| ==> PacksInSomeOrientation(combo[li], parts[li])
  }

  ghost predicate NonNegativeListings(combo: seq<Listing>)
  {
    forall li :: 0 <= li < |combo| ==> combo[li].length >= 0 && combo[li].width >= 0
  }

  // ---------------------------------------------------------------------------------

  lemma UnionAppend(bins: seq<seq<int>>, j: nat, v: int)
    requires j < |bins|
    ensures Union(bins[j := bins[j] + [v]]) == Union(bins) + multiset{v}
  {
    UnionUpdate(bins, j, bins[j] + [v]);
    assert multiset(bins[j] + [v]) == multiset(bins[j]) + multiset{v};
    assert Union(bins[j := bins[j] + [v]]) + multiset(bins[j]) == (Union(bins) + multiset{v}) + multiset(bins[j]);
    MultisetCancel(Union(bins[j := bins[j] + [v]]), Union(bins) + multiset{v}, multiset(bins[j]));
  }

  lemma {:induction false} TryListingsWitness(combo: seq<Listing>, v: int, rest: seq<int>, lists: seq<seq<int>>, li: nat)
    returns (j: nat)
    requires |lists| == |combo|
    requires TryListings(combo, v, rest, lists, li)
    ensures li <= j < |combo|
    ensures ListingFits(combo[j], lists[j] + [v])
    ensures Assignable(combo, rest, lists[j := lists[j] + [v]])
    decreases |combo| - li
  {
    var grown := lists[li := lists[li] + [v]];
    if ListingFits(combo[li], grown[li]) && Assignable(combo, rest, grown) {
      j := li;
    } else {
      j := TryListingsWitness(combo, v, rest, lists, li + 1);
    }
  }

  lemma {:induction false} TryListingsFrom(combo: seq<Listing>, v: int, rest: seq<int>, lists: seq<seq<int>>, li: nat, j: nat)
    requires |lists| == |combo|
    requires li <= j < |combo|
    requires ListingFits(combo[j], lists[j] + [v])
    requires Assignable(combo, rest, lists[j := lists[j] + [v]])
    ensures TryListings(combo, v, rest, lists, li)
    decreases j - li
  {
    if li < j {
      TryListingsFrom(combo, v, rest, lists, li + 1, j);
    } else {
      var grown := lists[li := lists[li] + [v]];
      assert grown[li] == lists[li] + [v];
    }
  }

  /** The split a successful search builds. */
  lemma {:induction false} AssignableWitness(combo: seq<Listing>, rest: seq<int>, lists: seq<seq<int>>)
    returns (parts: seq<seq<int>>)
    requires |lists| == |combo|
    requires Assignable(combo, rest, lists)
    ensures IsAssignment(combo, Union(lists) + multiset(rest), parts)
    decreases |rest|
  {
    if rest == [] {
      parts := lists;
      assert AllFit(combo, lists);
    } else {
      var v := rest[0];
      var j := TryListingsWitness(combo, v, rest[1..], lists, 0);
      var grown := lists[j := lists[j] + [v]];
      parts := AssignableWitness(combo, rest[1..], grown);
      UnionPush(lists, j, rest);
    }
  }

  /** Moving the next vehicle onto list `j` keeps the vehicles all together. */
  lemma UnionPush(lists: seq<seq<int>>, j: nat, rest: seq<int>)
    requires j < |lists| && rest != []
    ensures Union(lists[j := lists[j] + [rest[0]]]) + multiset(rest[1..]) == Union(lists) + multiset(rest)
  {
    var v := rest[0];
    UnionAppend(lists, j, v);
    assert rest == [v] + rest[1..];
    assert multiset(rest) == multiset{v} + multiset(rest[1..]);
  }

  /** Soundness: a successful search leaves a split of all vehicles among the listings that
      passes the fit check for every listing. */
  lemma {:induction false} AssignableSound(combo: seq<Listing>, rest: seq<int>, lists: seq<seq<int>>)
    requires |lists| == |combo|
    requires Assignable(combo, rest, lists)
    ensures exists parts :: IsAssignment(combo, Union(lists) + multiset(rest), parts)
  {
    var parts := AssignableWitness(combo, rest, lists);
  }

  /** Finds a listing whose part has room for one more `v`. */
  lemma {:induction false} FindRoom(lists: seq<seq<int>>, parts: seq<seq<int>>, v: int) returns (j: nat)
    requires |lists| == |parts|
    requires forall li :: 0 <= li < |parts| ==> multiset(lists[li]) <= multiset(parts[li])
    requires Union(parts)[v] > Union(lists)[v]
    ensures j < |parts| && multiset(lists[j])[v] < multiset(parts[j])[v]
    decreases |parts|
  {
    if multiset(lists[0])[v] < multiset(parts[0])[v] {
      j := 0;
    } else {
      j := FindRoom(lists[1..], parts[1..], v);
      j := j + 1;
    }
  }

  /** Completeness: when the vehicles still to place can be added to the lists built so far
      so that every listing passes the fit check, the search finds a way. */
  lemma {:induction false} AssignableComplete(combo: seq<Listing>, rest: seq<int>, lists: seq<seq<int>>, parts: seq<seq<int>>)
    requires NonNegativeListings(combo)
    requires |lists| == |combo| && |parts| == |combo|
    requires forall li :: 0 <= li < |combo| ==> multiset(lists[li]) <= multiset(parts[li])
    requires forall li :: 0 <= li < |combo| ==> NonNegative(parts[li])
    requires AllFit(combo, parts)
    requires Union(parts) == Union(lists) + multiset(rest)
    ensures Assignable(combo, rest, lists)
    decreases |rest|
  {
    if rest == [] {
      forall li | 0 <= li < |combo| ensures ListingFits(combo[li], lists[li]) {
        ListingFitsMonotone(combo[li], parts[li], lists[li]);
      }
    } else {
      var v := rest[0];
      assert rest == [v] + rest[1..];
      var j := FindRoom(lists, parts, v);
      var grown := lists[j := lists[j] + [v]];
      assert grown[j] == lists[j] + [v];
      assert multiset(grown[j]) <= multiset(parts[j]) by {
        assert multiset(grown[j]) == multiset(lists[j]) + multiset{v};
      }
      ListingFitsMonotone(combo[j], parts[j], grown[j]);
      UnionPush(lists, j, rest);
      forall li | 0 <= li < |combo| ensures multiset(grown[li]) <= multiset(parts[li]) {
        if li != j {
          assert grown[li] == lists[li];
        }
      }
      AssignableComplete(combo, rest[1..], grown, parts);
      TryListingsFrom(combo, v, rest[1..], lists, 0, j);
    }
  }

  /** Every element of one list of a split of nonnegative vehicles is nonnegative. */
  lemma {:induction false} PartsNonNegative(parts: seq<seq<int>>, vehicles: seq<int>)
    requires Union(parts) == multiset(vehicles) && NonNegative(vehicles)
    ensures forall li :: 0 <= li < |parts| ==> NonNegative(parts[li])
  {
    forall li | 0 <= li < |parts| ensures NonNegative(parts[li]) {
      forall x | x in Union(parts) ensures x >= 0 {
        var i :| 0 <= i < |vehicles| && vehicles[i] == x;
      }
      BinElementsNonNegative(parts, li);
    }
  }

  /** The search from empty lists succeeds exactly when the vehicles can be split among the
      listings so that each listing has a packing of its part in one of its orientations. */
  lemma {:induction false} AssignmentSearchExact(combo: seq<Listing>, vehicles: seq<int>)
    requires NonNegativeListings(combo) && NonNegative(vehicles)
    ensures Assignable(combo, vehicles, Empties(|combo|)) <==> PlacementExists(combo, vehicles)
  {
    var empty := Empties(|combo|);
    UnionOfEmpties(|combo|);
    assert Union(empty) + multiset(vehicles) == multiset(vehicles);
    if Assignable(combo, vehicles, empty) {
      var parts := AssignableWitness(combo, vehicles, empty);
      PartsNonNegative(parts, vehicles);
      forall li | 0 <= li < |combo| ensures PacksInSomeOrientation(combo[li], parts[li]) {
        ListingFitsExact(combo[li], parts[li]);
      }
      assert IsPlacement(combo, multiset(vehicles), parts);
    }
    if PlacementExists(combo, vehicles) {
      var parts :| IsPlacement(combo, multiset(vehicles), parts);
      PartsNonNegative(parts, vehicles);
      forall li | 0 <= li < |combo| ensures ListingFits(combo[li], parts[li]) {
        ListingFitsExact(combo[li], parts[li]);
      }
      AssignableComplete(combo, vehicles, empty, parts);
    }
  }

  // ---------------------------------------------------------------------------------
  // Smaller placements

  /** A placement of nonnegative vehicles, with one vehicle `v` taken out, is a placement
      of the others. */
  lemma PlacementRemove(combo: seq<Listing>, more: seq<int>, fewer: seq<int>, v: int, parts: seq<seq<int>>)
      returns (rest: seq<seq<int>>)
    requires NonNegativeListings(combo) && NonNegative(more)
    requires multiset(more) == multiset(fewer) + multiset{v}
    requires IsPlacement(combo, multiset(more), parts)
    ensures IsPlacement(combo, multiset(fewer), rest)
  {
    assert v in Union(parts);
    var r := UnionMember(parts, v);
    var k :| 0 <= k < |parts[r]| && parts[r][k] == v;
    var part := parts[r][..k] + parts[r][k + 1..];
    rest := parts[r := part];
    RemoveFromBin(parts, r, k);
    assert Union(rest) == multiset(fewer);
    PartsNonNegative(parts, more);
    PartRemove(combo[r], parts[r], k);
    forall li | 0 <= li < |combo| ensures PacksInSomeOrientation(combo[li], rest[li]) {
      if li != r {
        assert rest[li] == parts[li];
      }
    }
  }

  /** A listing that holds some nonnegative vehicles still holds them with one taken out. */
  lemma PartRemove(listing: Listing, whole: seq<int>, k: nat)
    requires listing.length >= 0 && listing.width >= 0
    requires NonNegative(whole) && k < |whole|
    requires PacksInSomeOrientation(listing, whole)
    ensures PacksInSomeOrientation(listing, whole[..k] + whole[k + 1..])
  {
    var part := whole[..k] + whole[k + 1..];
    assert whole == whole[..k] + [whole[k]] + whole[k + 1..];
    assert multiset(part) <= multiset(whole);
    assert NonNegative(part) by {
      forall i | 0 <= i < |part| ensures part[i] >= 0 {
        assert part[i] == if i < k then whole[i] else whole[i + 1];
      }
    }
    ListingFitsExact(listing, whole);
    ListingFitsMonotone(listing, whole, part);
    ListingFitsExact(listing, part);
  }

  lemma {:induction false} UnionConcat(a: seq<seq<int>>, b: seq<seq<int>>)
    ensures Union(a + b) == Union(a) + Union(b)
    decreases |a|
  {
    if a == [] {
      assert a + b == b;
    } else {
      assert (a + b)[0] == a[0] && (a + b)[1..] == a[1..] + b;
      UnionConcat(a[1..], b);
    }
  }

  /** Fewer vehicles than listings leave some listing with nothing. */
  lemma {:induction false} EmptyPart(parts: seq<seq<int>>) returns (j: nat)
    requires |Union(parts)| < |parts|
    ensures j < |parts| && parts[j] == []
    decreases |parts|
  {
    if parts[0] == [] {
      j := 0;
    } else {
      assert |Union(parts)| == |parts[0]| + |Union(parts[1..])|;
      j := EmptyPart(parts[1..]);
      j := j + 1;
    }
  }

  /** A listing with nothing to hold can be left out of a placement. */
  lemma PlacementDropEmpty(combo: seq<Listing>, vehicles: multiset<int>, parts: seq<seq<int>>, j: nat)
    requires IsPlacement(combo, vehicles, parts)
    requires j < |parts| && parts[j] == []
    ensures IsPlacement(combo[..j] + combo[j + 1..], vehicles, parts[..j] + parts[j + 1..])
  {
    var combo' := combo[..j] + combo[j + 1..];
    var parts' := parts[..j] + parts[j + 1..];
    assert parts == parts[..j] + ([parts[j]] + parts[j + 1..]);
    UnionConcat(parts[..j], [parts[j]] + parts[j + 1..]);
    UnionConcat([parts[j]], parts[j + 1..]);
    assert [parts[j]][1..] == [];
    UnionConcat(parts[..j], parts[j + 1..]);
    forall li | 0 <= li < |combo'| ensures PacksInSomeOrientation(combo'[li], parts'[li]) {
      if li < j {
        assert combo'[li] == combo[li] && parts'[li] == parts[li];
      } else {
        assert combo'[li] == combo[li + 1] && parts'[li] == parts[li + 1];
      }
    }
  }

  // ---------------------------------------------------------------------------------

  /** The loop that ends `assign_vehicle` once every vehicle has a listing. */
  method AllListingsFit(combo: seq<Listing>, lists: seq<seq<int>>) returns (ok: bool)
    requires |lists| == |combo|
    ensures ok == AllFit(combo, lists)
  {
    for li := 0 to |combo|
      invariant forall j :: 0 <= j < li ==> ListingFits(combo[j], lists[j])
    {
      var fits := ListingCanFitAssigned(combo[li], lists[li]);
      if !fits {
        return false;
      }
    }
    return true;
  }

  /** `assign_vehicle(idx)` over the per-listing lists `lists`. On success the lists are
      left as the witness; on failure every list is back as it was. */
  method AssignVehicle(combo: seq<Listing>, vehicles: seq<int>, lists: array<seq<int>>, idx: nat)
    returns (ok: bool)
    requires lists.Length == |combo| && idx <= |vehicles|
    modifies lists
    ensures ok == Assignable(combo, vehicles[idx..], old(lists[..]))
    ensures ok ==> IsAssignment(combo, Union(old(lists[..])) + multiset(vehicles[idx..]), lists[..])
    ensures !ok ==> lists[..] == old(lists[..])
    decreases |vehicles| - idx
  {
    if idx == |vehicles| {
      ok := AllListingsFit(combo, lists[..]);
      assert vehicles[idx..] == [];
      return;
    }
    var v := vehicles[idx];
    ghost var start := lists[..];
    ghost var rest := vehicles[idx + 1..];
    assert vehicles[idx..] == [v] + rest;
    for li := 0 to |combo|
      invariant lists[..] == start
      invariant Assignable(combo, vehicles[idx..], start) == TryListings(combo, v, rest, start, li)
    {
      ghost var grown := start[li := start[li] + [v]];
      lists[li] := lists[li] + [v];
      assert lists[..] == grown && grown[li] == start[li] + [v];
      var fits := ListingCanFitAssigned(combo[li], lists[li]);
      if fits {
        ok := AssignVehicle(combo, vehicles, lists, idx + 1);
        if ok {
          UnionPush(start, li, vehicles[idx..]);
          return;
        }
      }
      assert (start[li] + [v])[..|start[li]|] == start[li];
      lists[li] := lists[li][..|lists[li]| - 1];
      assert lists[..] == start;
    }
    return false;
  }
}
