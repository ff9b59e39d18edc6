/** `LISTINGS_BY_LOCATION` (app/main.py): the catalog grouped by location id, the
    locations in the order they first occur and each group in catalog order. */
module Catalog {
  import opened Types

  /** The distinct elements of `ids`, in the order of their first occurrence: the keys of a
      dictionary filled from `ids`. */
  function FirstOccurrences(ids: seq<string>): seq<string>
    decreases |ids|
  {
    if ids == [] then []
    else
      var prefix := FirstOccurrences(ids[..|ids| - 1]);
      if ids[|ids| - 1] in prefix then prefix else prefix + [ids[|ids| - 1]]
  }

  function LocationIds(all: seq<Listing>): (ids: seq<string>)
    ensures |ids| == |all|
    ensures forall i :: 0 <= i < |all| ==> ids[i] == all[i].location
  {
    seq(|all|, i requires 0 <= i < |all| => all[i].location)
  }

  /** The listings of location `id`, in catalog order. */
  function ListingsAt(all: seq<Listing>, id: string): seq<Listing>
    decreases |all|
  {
    if all == [] then []
    else
      var prefix := ListingsAt(all[..|all| - 1], id);
      if all[|all| - 1].location == id then prefix + [all[|all| - 1]] else prefix
  }

  /** The grouped catalog, one entry per location. */
  function Grouped(all: seq<Listing>): seq<Location>
  {
    var ids := FirstOccurrences(LocationIds(all));
    seq(|ids|, g requires 0 <= g < |ids| => Location(ids[g], ListingsAt(all, ids[g])))
  }

  /** The module-level loop with `setdefault(...).append(L)`; the dictionary is a map with
      its keys kept in insertion order. */
  method GroupByLocation(all: seq<Listing>) returns (groups: seq<Location>)
    ensures groups == Grouped(all)
  {
    var byLocation: map<string, seq<Listing>> := map[];
    var keys: seq<string> := [];
    for i := 0 to |all|
      invariant keys == FirstOccurrences(LocationIds(all[..i]))
      invariant forall id :: id in byLocation <==> id in keys
      invariant forall id :: id in byLocation ==> byLocation[id] == ListingsAt(all[..i], id)
    {
      var listing := all[i];
      var id := listing.location;
      assert all[..i + 1][..i] == all[..i];
      assert LocationIds(all[..i + 1])[..i] == LocationIds(all[..i]);
      if id in byLocation {
        byLocation := byLocation[id := byLocation[id] + [listing]];
      } else {
        byLocation := byLocation[id := [listing]];
        keys := keys + [id];
        assert ListingsAt(all[..i], id) == [] by {
          ListingsAtNone(all[..i], id);
        }
      }
    }
    assert all[..|all|] == all;
    groups := seq(|keys|, g requires 0 <= g < |keys| => Location(keys[g], byLocation[keys[g]]));
  }

  lemma {:induction false} ListingsAtNone(all: seq<Listing>, id: string)
    requires id !in FirstOccurrences(LocationIds(all))
    ensures ListingsAt(all, id) == []
    decreases |all|
  {
    if all != [] {
      var n := |all| - 1;
      assert LocationIds(all)[..n] == LocationIds(all[..n]);
      ListingsAtNone(all[..n], id);
    }
  }

  /** Every location of the catalog is a key, and nothing else is. */
  lemma {:induction false} FirstOccurrencesMembers(ids: seq<string>, id: string)
    ensures id in FirstOccurrences(ids) <==> id in ids
    decreases |ids|
  {
    if ids != [] {
      var n := |ids| - 1;
      FirstOccurrencesMembers(ids[..n], id);
      assert ids == ids[..n] + [ids[n]];
    }
  }

  /** The keys are distinct. */
  lemma {:induction false} FirstOccurrencesDistinct(ids: seq<string>)
    ensures forall a, b :: 0 <= a < b < |FirstOccurrences(ids)| ==>
      FirstOccurrences(ids)[a] != FirstOccurrences(ids)[b]
    decreases |ids|
  {
    if ids != [] {
      FirstOccurrencesDistinct(ids[..|ids| - 1]);
    }
  }

  /** A group holds exactly the catalog's listings at its location, each as often as the
      catalog lists it. */
  lemma {:induction false} ListingsAtExact(all: seq<Listing>, id: string, l: Listing)
    ensures multiset(ListingsAt(all, id))[l] == if l.location == id then multiset(all)[l] else 0
    decreases |all|
  {
    if all != [] {
      var n := |all| - 1;
      ListingsAtExact(all[..n], id, l);
      assert all == all[..n] + [all[n]];
    }
  }

  /** The grouping keeps every listing of the catalog, in exactly one group: the one of
      its own location. */
  lemma GroupedPartition(all: seq<Listing>, l: Listing)
    ensures forall g :: 0 <= g < |Grouped(all)| ==>
      multiset(Grouped(all)[g].listings)[l] == if Grouped(all)[g].id == l.location then multiset(all)[l] else 0
    ensures l in all ==> exists g :: 0 <= g < |Grouped(all)| && Grouped(all)[g].id == l.location
    ensures forall a, b :: 0 <= a < b < |Grouped(all)| ==> Grouped(all)[a].id != Grouped(all)[b].id
  {
    var ids := FirstOccurrences(LocationIds(all));
    forall g | 0 <= g < |Grouped(all)|
      ensures multiset(Grouped(all)[g].listings)[l] == if Grouped(all)[g].id == l.location then multiset(all)[l] else 0
    {
      ListingsAtExact(all, ids[g], l);
    }
    if l in all {
      var i :| 0 <= i < |all| && all[i] == l;
      assert LocationIds(all)[i] == l.location;
      FirstOccurrencesMembers(LocationIds(all), l.location);
      var g :| 0 <= g < |ids| && ids[g] == l.location;
      assert Grouped(all)[g].id == l.location;
    }
    FirstOccurrencesDistinct(LocationIds(all));
  }
}
