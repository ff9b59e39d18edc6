/** `expand_vehicles` and the quantity total of `search_vehicle` (app/main.py): the request
    items become one length per requested vehicle, item by item. */
module Expansion {
  import opened Types
  import opened Packing

  /** `range(q)` runs `q` times, and not at all when `q` is negative. */
  function Times(q: int): nat
  {
    if q < 0 then 0 else q
  }

  /** `sum(r["quantity"] for r in input_list)`: the signed total of the quantities. */
  function TotalQuantity(request: seq<VehicleRequest>): int
    decreases |request|
  {
    if request == [] then 0
    else TotalQuantity(request[..|request| - 1]) + request[|request| - 1].quantity
  }

  /** The expanded list, built item by item: each item adds its length `quantity` times. */
  function Expanded(request: seq<VehicleRequest>): seq<int>
    decreases |request|
  {
    if request == [] then []
    else
      var item := request[|request| - 1];
      Expanded(request[..|request| - 1]) + Repeat(item.length, Times(item.quantity))
  }

  /** How many vehicles of `length` the request asks for. */
  function Requested(request: seq<VehicleRequest>, length: int): nat
    decreases |request|
  {
    if request == [] then 0
    else
      var item := request[|request| - 1];
      Requested(request[..|request| - 1], length) + (if item.length == length then Times(item.quantity) else 0)
  }

  ghost predicate NonNegativeQuantities(request: seq<VehicleRequest>)
  {
    forall i :: 0 <= i < |request| ==> request[i].quantity >= 0
  }

  /** `expand_vehicles`. */
  method ExpandVehicles(request: seq<VehicleRequest>) returns (vehicles: seq<int>)
    ensures vehicles == Expanded(request)
  {
    vehicles := [];
    for i := 0 to |request|
      invariant vehicles == Expanded(request[..i])
    {
      var length := request[i].length;
      var q := request[i].quantity;
      ghost var before := vehicles;
      var k := 0;
      while k < q
        invariant 0 <= k <= Times(q)
        invariant vehicles == before + Repeat(length, k)
      {
        vehicles := vehicles + [length];
        k := k + 1;
      }
      assert request[..i + 1][..i] == request[..i];
    }
    assert request[..|request|] == request;
  }

  /** Expansion works item by item, so the request's order is kept: the vehicles of
      earlier items come first. */
  lemma {:induction false} ExpandedConcat(a: seq<VehicleRequest>, b: seq<VehicleRequest>)
    ensures Expanded(a + b) == Expanded(a) + Expanded(b)
    decreases |b|
  {
    if b == [] {
      assert a + b == a;
    } else {
      var n := |b| - 1;
      assert (a + b)[..|a + b| - 1] == a + b[..n];
      ExpandedConcat(a, b[..n]);
    }
  }

  /** An item contributes its length `quantity` times, between the vehicles of the items
      before it and those of the items after it. */
  lemma {:induction false} ExpandedItem(before: seq<VehicleRequest>, item: VehicleRequest, after: seq<VehicleRequest>)
    ensures Expanded(before + [item] + after) ==
      Expanded(before) + Repeat(item.length, Times(item.quantity)) + Expanded(after)
  {
    ExpandedConcat(before + [item], after);
    ExpandedConcat(before, [item]);
    ExpandedSingle(item);
  }

  lemma ExpandedSingle(item: VehicleRequest)
    ensures Expanded([item]) == Repeat(item.length, Times(item.quantity))
  {
    assert [item][..0] == [];
  }

  /** Every expanded length is the length of an item asking for at least one vehicle, and
      every such item contributes its length. */
  lemma {:induction false} ExpandedMembers(request: seq<VehicleRequest>, length: int)
    ensures length in Expanded(request) <==>
      exists i :: 0 <= i < |request| && request[i].length == length && request[i].quantity > 0
    decreases |request|
  {
    if request != [] {
      var n := |request| - 1;
      var prefix := request[..n];
      ExpandedMembers(prefix, length);
      if exists i :: 0 <= i < |request| && request[i].length == length && request[i].quantity > 0 {
        var i :| 0 <= i < |request| && request[i].length == length && request[i].quantity > 0;
        if i < n {
          assert prefix[i] == request[i];
        } else {
          assert Repeat(length, Times(request[n].quantity))[0] == length;
        }
      }
      if length in Expanded(prefix) {
        var i :| 0 <= i < |prefix| && prefix[i].length == length && prefix[i].quantity > 0;
        assert request[i] == prefix[i];
      }
    }
  }

  /** The expansion holds each length exactly as often as the request asks for it. */
  lemma {:induction false} ExpandedCounts(request: seq<VehicleRequest>, length: int)
    ensures multiset(Expanded(request))[length] == Requested(request, length)
    decreases |request|
  {
    if request != [] {
      var n := |request| - 1;
      var item := request[n];
      ExpandedCounts(request[..n], length);
      var block := Repeat(item.length, Times(item.quantity));
      assert multiset(block)[length] == (if item.length == length then Times(item.quantity) else 0) by {
        RepeatCount(item.length, Times(item.quantity), length);
      }
    }
  }

  lemma {:induction false} RepeatCount(x: int, k: nat, y: int)
    ensures multiset(Repeat(x, k))[y] == if x == y then k else 0
    decreases k
  {
    if k > 0 {
      assert Repeat(x, k) == Repeat(x, k - 1) + [x];
      RepeatCount(x, k - 1, y);
    }
  }

  /** With no negative quantity, the expansion has exactly `total_qty` vehicles. */
  lemma {:induction false} ExpandedLength(request: seq<VehicleRequest>)
    requires NonNegativeQuantities(request)
    ensures |Expanded(request)| == TotalQuantity(request)
    decreases |request|
  {
    if request != [] {
      var n := |request| - 1;
      assert NonNegativeQuantities(request[..n]) by {
        forall i | 0 <= i < n ensures request[..n][i].quantity >= 0 {
          assert request[..n][i] == request[i];
        }
      }
      ExpandedLength(request[..n]);
    }
  }

  /** A negative quantity adds no vehicle but lowers the total, so the expansion is never
      shorter than the total. */
  lemma {:induction false} ExpandedAtLeastTotal(request: seq<VehicleRequest>)
    ensures |Expanded(request)| >= TotalQuantity(request)
    decreases |request|
  {
    if request != [] {
      ExpandedAtLeastTotal(request[..|request| - 1]);
    }
  }
}
