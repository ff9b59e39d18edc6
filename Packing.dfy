/** The row-packing oracle `can_pack_into_rows` (app/main.py): can a multiset of vehicle
    cell lengths be placed into `rowCount` rows of `rowLen` cells each?

    `Placeable` and `TryRows` follow the nested `place` search step by step, with its
    symmetry pruning; `Place` and `CanPackIntoRows` are the in-place search over an array
    of remaining row capacities, proved equal to them. The lemmas show that the pruned
    search decides exactly whether a packing exists (`CanPackSound`, `CanPackComplete`). */
module Packing {
  import opened Sorting

  function Neg(x: int): int { -x }

  function Repeat(x: int, n: nat): (r: seq<int>)
    ensures |r| == n
    ensures forall i :: 0 <= i < n ==> r[i] == x
  {
    seq(n, _ => x)
  }

  function Sum(s: seq<int>): int
  {
    if s == [] then 0 else s[0] + Sum(s[1..])
  }

  /** The rows `[row_len_cells] * row_count`: an empty list for a negative count. */
  function InitialRows(rowCount: int, rowLen: int): seq<int>
  {
    Repeat(rowLen, if rowCount < 0 then 0 else rowCount)
  }

  // ---------------------------------------------------------------------------------
  // The search, as functions of the remaining row capacities

  /** `place(idx)`: the remaining capacities are `rows` and `items` are the vehicles still
      to place, in order. */
  function Placeable(rows: seq<int>, items: seq<int>): bool
    decreases |items|, |rows| + 1
  {
    if items == [] then true else TryRows(rows, items[0], items[1..], 0, {})
  }

  /** The loop of `place` over the rows from `r` on, for the vehicle `v`; `seen` holds the
      remaining capacities of the rows already tried without success. */
  function TryRows(rows: seq<int>, v: int, rest: seq<int>, r: nat, seen: set<int>): bool
    decreases |rest| + 1, |rows| - r
  {
    if r >= |rows| then false
    else if rows[r] >= v && rows[r] !in seen then
      Placeable(rows[r := rows[r] - v], rest) || TryRows(rows, v, rest, r + 1, seen + {rows[r]})
    else
      TryRows(rows, v, rest, r + 1, seen)
  }

  /** `can_pack_into_rows`: sort the vehicles largest first, reject at once when one is
      longer than a row, otherwise search. */
  function CanPack(rowCount: int, rowLen: int, cells: seq<int>): bool
  {
    var sorted := SortBy(cells, Neg);
    if exists i :: 0 <= i < |sorted| && sorted[i] > rowLen then false
    else Placeable(InitialRows(rowCount, rowLen), sorted)
  }

  // ---------------------------------------------------------------------------------
  // Reference definitions: the search without pruning, and packings

  /** The vehicles `items` can be placed one after the other, each into some row whose
      remaining capacity is at least its length. */
  ghost predicate Reach(rows: seq<int>, items: seq<int>)
    decreases |items|
  {
    items == [] ||
    exists r :: 0 <= r < |rows| && rows[r] >= items[0] && Reach(rows[r := rows[r] - items[0]], items[1..])
  }

  /** Placing `items` one by one, each into some row with room, can end with the remaining
      capacities `final`. */
  ghost predicate Leaves(rows: seq<int>, items: seq<int>, final: seq<int>)
    decreases |items|
  {
    if items == [] then final == rows
    else exists r :: 0 <= r < |rows| && rows[r] >= items[0] && Leaves(rows[r := rows[r] - items[0]], items[1..], final)
  }

  /** All items put into any bin. */
  function Union(bins: seq<seq<int>>): multiset<int>
  {
    if bins == [] then multiset{} else multiset(bins[0]) + Union(bins[1..])
  }

  /** `bins[r]` lists the vehicles put into row `r`: every vehicle of `items` is in exactly
      one row and no row holds more than its capacity. */
  ghost predicate IsPacking(rows: seq<int>, items: multiset<int>, bins: seq<seq<int>>)
  {
    |bins| == |rows| && Union(bins) == items &&
    forall r :: 0 <= r < |rows| ==> Sum(bins[r]) <= rows[r]
  }

  ghost predicate Packable(rows: seq<int>, items: multiset<int>)
  {
    exists bins :: IsPacking(rows, items, bins)
  }

  /** The vehicles `cells` can be packed into `rowCount` rows of `rowLen` cells. */
  ghost predicate PackingExists(rowCount: int, rowLen: int, cells: seq<int>)
  {
    Packable(InitialRows(rowCount, rowLen), multiset(cells))
  }

  // ---------------------------------------------------------------------------------
  // Facts about sums and bins

  lemma {:induction false} SumAppendFront(v: int, s: seq<int>)
    ensures Sum([v] + s) == v + Sum(s)
  {
    assert ([v] + s)[1..] == s;
  }

  lemma {:induction false} SumConcat(a: seq<int>, b: seq<int>)
    ensures Sum(a + b) == Sum(a) + Sum(b)
    decreases |a|
  {
    if a != [] {
      assert (a + b)[1..] == a[1..] + b;
      SumConcat(a[1..], b);
    } else {
      assert a + b == b;
    }
  }

  lemma {:induction false} SumNonNegative(s: seq<int>)
    requires forall i :: 0 <= i < |s| ==> s[i] >= 0
    ensures Sum(s) >= 0
    decreases |s|
  {
    if s != [] {
      SumNonNegative(s[1..]);
    }
  }

  /** Taking the `k`-th element out of a bin lowers its sum by that element. */
  lemma {:induction false} SumRemove(s: seq<int>, k: nat)
    requires k < |s|
    ensures Sum(s[..k] + s[k + 1..]) == Sum(s) - s[k]
  {
    assert s == s[..k] + ([s[k]] + s[k + 1..]);
    SumConcat(s[..k], [s[k]] + s[k + 1..]);
    SumAppendFront(s[k], s[k + 1..]);
    SumConcat(s[..k], s[k + 1..]);
  }

  lemma {:induction false} UnionUpdate(bins: seq<seq<int>>, r: nat, b: seq<int>)
    requires r < |bins|
    ensures Union(bins[r := b]) + multiset(bins[r]) == Union(bins) + multiset(b)
    decreases |bins|
  {
    if r == 0 {
      assert bins[r := b][1..] == bins[1..];
    } else {
      var tail := bins[1..];
      assert bins[r := b] == [bins[0]] + tail[r - 1 := b];
      assert tail[r - 1] == bins[r];
      UnionUpdate(tail, r - 1, b);
      calc {
        Union(bins[r := b]) + multiset(bins[r]);
        multiset(bins[0]) + Union(tail[r - 1 := b]) + multiset(tail[r - 1]);
        multiset(bins[0]) + (Union(tail) + multiset(b));
        Union(bins) + multiset(b);
      }
    }
  }

  lemma MultisetCancel(x: multiset<int>, y: multiset<int>, m: multiset<int>)
    requires x + m == y + m
    ensures x == y
  {
    assert forall a :: x[a] == (x + m)[a] - m[a] && y[a] == (y + m)[a] - m[a];
  }

  lemma {:induction false} BinInUnion(bins: seq<seq<int>>, r: nat)
    requires r < |bins|
    ensures multiset(bins[r]) <= Union(bins)
    decreases |bins|
  {
    if r > 0 {
      BinInUnion(bins[1..], r - 1);
    }
  }

  lemma {:induction false} UnionMember(bins: seq<seq<int>>, x: int) returns (r: nat)
    requires x in Union(bins)
    ensures r < |bins| && x in bins[r]
    decreases |bins|
  {
    if x in multiset(bins[0]) {
      r := 0;
    } else {
      r := UnionMember(bins[1..], x);
      r := r + 1;
    }
  }

  /** `n` empty lists. */
  function Empties(n: nat): seq<seq<int>>
  {
    seq(n, _ => [])
  }

  lemma {:induction false} UnionOfEmpties(n: nat)
    ensures Union(Empties(n)) == multiset{}
    decreases n
  {
    if n > 0 {
      assert Empties(n)[1..] == Empties(n - 1);
      UnionOfEmpties(n - 1);
    }
  }

  /** Taking the `k`-th vehicle out of bin `r`. */
  lemma {:induction false} RemoveFromBin(bins: seq<seq<int>>, r: nat, k: nat)
    requires r < |bins| && k < |bins[r]|
    ensures Union(bins[r := bins[r][..k] + bins[r][k + 1..]]) == Union(bins) - multiset{bins[r][k]}
    ensures Sum(bins[r][..k] + bins[r][k + 1..]) == Sum(bins[r]) - bins[r][k]
  {
    var b := bins[r];
    var b' := b[..k] + b[k + 1..];
    assert b == b[..k] + [b[k]] + b[k + 1..];
    assert multiset(b) == multiset(b') + multiset{b[k]};
    UnionUpdate(bins, r, b');
    assert (Union(bins[r := b']) + multiset{b[k]}) + multiset(b') == Union(bins) + multiset(b');
    MultisetCancel(Union(bins[r := b']) + multiset{b[k]}, Union(bins), multiset(b'));
    SumRemove(b, k);
  }

  /** Every element of a packing of nonnegative vehicles is nonnegative. */
  lemma {:induction false} BinElementsNonNegative(bins: seq<seq<int>>, r: nat)
    requires r < |bins|
    requires forall x :: x in Union(bins) ==> x >= 0
    ensures forall i :: 0 <= i < |bins[r]| ==> bins[r][i] >= 0
  {
    BinInUnion(bins, r);
    forall i | 0 <= i < |bins[r]| ensures bins[r][i] >= 0 {
      assert bins[r][i] in multiset(bins[r]);
    }
  }

  /** With no vehicle, every row set with nonnegative capacities has a packing. */
  lemma EmptyPackable(rows: seq<int>)
    requires forall r :: 0 <= r < |rows| ==> rows[r] >= 0
    ensures Packable(rows, multiset{})
  {
    var bins := Empties(|rows|);
    UnionOfEmpties(|rows|);
    assert IsPacking(rows, multiset{}, bins);
  }

  // ---------------------------------------------------------------------------------
  // The pruned search decides Reach

  function Swap(s: seq<int>, i: nat, j: nat): seq<int>
    requires i < |s| && j < |s|
  {
    s[i := s[j]][j := s[i]]
  }

  /** Exchanging two rows does not change what can be placed. */
  lemma {:induction false} ReachSwap(rows: seq<int>, items: seq<int>, i: nat, j: nat)
    requires i < |rows| && j < |rows|
    requires Reach(rows, items)
    ensures Reach(Swap(rows, i, j), items)
    decreases |items|
  {
    if items != [] {
      var v := items[0];
      var r :| 0 <= r < |rows| && rows[r] >= v && Reach(rows[r := rows[r] - v], items[1..]);
      var r' := if r == i then j else if r == j then i else r;
      var after := rows[r := rows[r] - v];
      ReachSwap(after, items[1..], i, j);
      assert Swap(rows, i, j)[r'] == rows[r];
      assert Swap(rows, i, j)[r' := rows[r] - v] == Swap(after, i, j);
    }
  }

  /** Two rows with the same remaining capacity are interchangeable. */
  lemma ReachSameCapacity(rows: seq<int>, a: nat, b: nat, y: int, items: seq<int>)
    requires a < |rows| && b < |rows| && rows[a] == rows[b]
    ensures Reach(rows[a := y], items) <==> Reach(rows[b := y], items)
  {
    assert Swap(rows[a := y], a, b) == rows[b := y];
    assert Swap(rows[b := y], a, b) == rows[a := y];
    if Reach(rows[a := y], items) {
      ReachSwap(rows[a := y], items, a, b);
    }
    if Reach(rows[b := y], items) {
      ReachSwap(rows[b := y], items, a, b);
    }
  }

  /** Each value in `seen` is the capacity of an earlier row from which the rest could not
      be placed. */
  ghost predicate SeenFailed(rows: seq<int>, v: int, rest: seq<int>, r: nat, seen: set<int>)
  {
    forall x :: x in seen ==>
      exists q :: 0 <= q < r && q < |rows| && rows[q] == x && !Reach(rows[q := x - v], rest)
  }

  lemma {:induction false} PlaceableIsReach(rows: seq<int>, items: seq<int>)
    ensures Placeable(rows, items) == Reach(rows, items)
    decreases |items|, |rows| + 1
  {
    if items != [] {
      TryRowsIsReach(rows, items[0], items[1..], 0, {});
    }
  }

  lemma {:induction false} TryRowsIsReach(rows: seq<int>, v: int, rest: seq<int>, r: nat, seen: set<int>)
    requires SeenFailed(rows, v, rest, r, seen)
    ensures TryRows(rows, v, rest, r, seen) <==>
      exists q :: r <= q < |rows| && rows[q] >= v && Reach(rows[q := rows[q] - v], rest)
    decreases |rest| + 1, |rows| - r
  {
    if r < |rows| {
      if rows[r] >= v && rows[r] !in seen {
        PlaceableIsReach(rows[r := rows[r] - v], rest);
        if !Reach(rows[r := rows[r] - v], rest) {
          assert SeenFailed(rows, v, rest, r + 1, seen + {rows[r]});
          TryRowsIsReach(rows, v, rest, r + 1, seen + {rows[r]});
        }
      } else {
        if rows[r] in seen {
          var q :| 0 <= q < r && q < |rows| && rows[q] == rows[r] && !Reach(rows[q := rows[r] - v], rest);
          ReachSameCapacity(rows, q, r, rows[r] - v, rest);
        }
        TryRowsIsReach(rows, v, rest, r + 1, seen);
      }
    }
  }

  // ---------------------------------------------------------------------------------
  // Reach and packings

  /** Putting `v` into row `r` of a packing of the rows left after placing it. */
  lemma PackingAddFront(rows: seq<int>, r: nat, v: int, rest: multiset<int>, bins: seq<seq<int>>)
    requires r < |rows|
    requires IsPacking(rows[r := rows[r] - v], rest, bins)
    ensures IsPacking(rows, rest + multiset{v}, bins[r := [v] + bins[r]])
  {
    var bins' := bins[r := [v] + bins[r]];
    UnionUpdate(bins, r, [v] + bins[r]);
    assert multiset([v] + bins[r]) == multiset{v} + multiset(bins[r]);
    assert Union(bins') + multiset(bins[r]) == (rest + multiset{v}) + multiset(bins[r]);
    MultisetCancel(Union(bins'), rest + multiset{v}, multiset(bins[r]));
    forall q | 0 <= q < |rows| ensures Sum(bins'[q]) <= rows[q] {
      if q == r {
        SumAppendFront(v, bins[r]);
      } else {
        assert bins'[q] == bins[q] && rows[r := rows[r] - v][q] == rows[q];
      }
    }
  }

  /** Taking the `k`-th vehicle out of row `r` of a packing of nonnegative vehicles: what
      remains is a packing of the other vehicles into the rows left after placing it, and
      the row had room for it. */
  lemma PackingTakeOut(rows: seq<int>, items: multiset<int>, bins: seq<seq<int>>, r: nat, k: nat)
    requires IsPacking(rows, items, bins)
    requires forall x :: x in items ==> x >= 0
    requires r < |bins| && k < |bins[r]|
    ensures rows[r] >= bins[r][k]
    ensures IsPacking(rows[r := rows[r] - bins[r][k]], items - multiset{bins[r][k]},
                      bins[r := bins[r][..k] + bins[r][k + 1..]])
  {
    var v := bins[r][k];
    var b' := bins[r][..k] + bins[r][k + 1..];
    var rows' := rows[r := rows[r] - v];
    var bins' := bins[r := b'];
    RemoveFromBin(bins, r, k);
    BinElementsNonNegative(bins, r);
    assert forall i :: 0 <= i < |b'| ==> b'[i] >= 0;
    SumNonNegative(b');
    forall q | 0 <= q < |rows'| ensures Sum(bins'[q]) <= rows'[q] {
      if q != r {
        assert bins'[q] == bins[q] && rows'[q] == rows[q];
      }
    }
  }

  /** One placement into row `r`, followed by the placement of the rest. */
  lemma ReachStep(rows: seq<int>, items: seq<int>, r: nat)
    requires items != [] && r < |rows| && rows[r] >= items[0]
    requires Reach(rows[r := rows[r] - items[0]], items[1..])
    ensures Reach(rows, items)
  {
  }

  /** A sequence of placements that never overfills a row gives a packing. */
  lemma {:induction false} ReachSound(rows: seq<int>, items: seq<int>)
    requires forall r :: 0 <= r < |rows| ==> rows[r] >= 0
    requires Reach(rows, items)
    ensures Packable(rows, multiset(items))
  {
    var bins := ReachPacking(rows, items);
  }

  /** The packing that a sequence of placements builds. */
  lemma {:induction false} ReachPacking(rows: seq<int>, items: seq<int>) returns (bins: seq<seq<int>>)
    requires forall r :: 0 <= r < |rows| ==> rows[r] >= 0
    requires Reach(rows, items)
    ensures IsPacking(rows, multiset(items), bins)
    decreases |items|
  {
    if items == [] {
      bins := Empties(|rows|);
      UnionOfEmpties(|rows|);
    } else {
      var v := items[0];
      var r :| 0 <= r < |rows| && rows[r] >= v && Reach(rows[r := rows[r] - v], items[1..]);
      var rest := ReachPacking(rows[r := rows[r] - v], items[1..]);
      PackingAddFront(rows, r, v, multiset(items[1..]), rest);
      TailMultiset(items);
      bins := rest[r := [v] + rest[r]];
    }
  }

  /** Placements that end somewhere are placements. */
  lemma {:induction false} LeavesReach(rows: seq<int>, items: seq<int>, final: seq<int>)
    requires Leaves(rows, items, final)
    ensures Reach(rows, items)
    decreases |items|
  {
    if items != [] {
      var r :| 0 <= r < |rows| && rows[r] >= items[0] && Leaves(rows[r := rows[r] - items[0]], items[1..], final);
      LeavesReach(rows[r := rows[r] - items[0]], items[1..], final);
    }
  }

  /** After placing nonnegative items into rows of nonnegative capacity, there are as many
      rows as before, no row holds more capacity than before or less than none, and the
      capacity taken is the items' total. */
  lemma {:induction false} LeavesCapacity(rows: seq<int>, items: seq<int>, final: seq<int>)
    requires forall r :: 0 <= r < |rows| ==> rows[r] >= 0
    requires forall i :: 0 <= i < |items| ==> items[i] >= 0
    requires Leaves(rows, items, final)
    ensures |final| == |rows|
    ensures forall r :: 0 <= r < |rows| ==> 0 <= final[r] <= rows[r]
    ensures Sum(final) + Sum(items) == Sum(rows)
    decreases |items|
  {
    if items != [] {
      var v := items[0];
      var r :| 0 <= r < |rows| && rows[r] >= v && Leaves(rows[r := rows[r] - v], items[1..], final);
      var next := rows[r := rows[r] - v];
      LeavesCapacity(next, items[1..], final);
      SumUpdate(rows, r, rows[r] - v);
    }
  }

  /** Changing one element changes the sum by the difference. */
  lemma {:induction false} SumUpdate(s: seq<int>, k: nat, x: int)
    requires k < |s|
    ensures Sum(s[k := x]) == Sum(s) - s[k] + x
    decreases |s|
  {
    if k > 0 {
      assert s[k := x][1..] == s[1..][k - 1 := x];
      SumUpdate(s[1..], k - 1, x);
    }
  }

  /** The elements of a sequence of nonnegative values, as a multiset. */
  lemma SeqNonNegative(items: seq<int>)
    requires forall i :: 0 <= i < |items| ==> items[i] >= 0
    ensures forall x :: x in multiset(items) ==> x >= 0
  {
    forall x | x in multiset(items) ensures x >= 0 {
      var i :| 0 <= i < |items| && items[i] == x;
    }
  }

  /** A vehicle of a packing of nonnegative vehicles sits in some row with room for it;
      taking it out leaves a packing of the others into the rows left after placing it. */
  lemma TakeOutAny(rows: seq<int>, items: multiset<int>, bins: seq<seq<int>>, x: int)
      returns (r: nat, rest: seq<seq<int>>)
    requires IsPacking(rows, items, bins)
    requires forall y :: y in items ==> y >= 0
    requires x in items
    ensures r < |rows| && rows[r] >= x
    ensures IsPacking(rows[r := rows[r] - x], items - multiset{x}, rest)
  {
    r := UnionMember(bins, x);
    var k :| 0 <= k < |bins[r]| && bins[r][k] == x;
    PackingTakeOut(rows, items, bins, r, k);
    rest := bins[r := bins[r][..k] + bins[r][k + 1..]];
  }

  /** Conversely, a packing of nonnegative vehicles can be reached by placing them one
      after the other in any order. */
  lemma {:induction false} ReachComplete(rows: seq<int>, items: seq<int>, bins: seq<seq<int>>)
    requires forall i :: 0 <= i < |items| ==> items[i] >= 0
    requires IsPacking(rows, multiset(items), bins)
    ensures Reach(rows, items)
    decreases |items|
  {
    if items != [] {
      var v := items[0];
      var tail := items[1..];
      SeqNonNegative(items);
      TailMultiset(items);
      var r, rest := TakeOutAny(rows, multiset(items), bins, v);
      ReachComplete(rows[r := rows[r] - v], tail, rest);
      ReachStep(rows, items, r);
    }
  }

  /** Dropping the first element of a sequence. */
  lemma TailMultiset(items: seq<int>)
    requires items != []
    ensures multiset(items) - multiset{items[0]} == multiset(items[1..])
    ensures items[0] in multiset(items)
  {
    assert items == [items[0]] + items[1..];
  }

  /** Rows with at least the capacities of a packing's rows hold the same packing. */
  lemma PackingWiden(narrow: seq<int>, rows: seq<int>, items: multiset<int>, bins: seq<seq<int>>)
    requires |narrow| == |rows| && forall r :: 0 <= r < |rows| ==> narrow[r] <= rows[r]
    requires IsPacking(narrow, items, bins)
    ensures IsPacking(rows, items, bins)
  {
  }

  /** A sub-multiset that is not the whole has an element to spare. */
  lemma Excess(items: multiset<int>, fewer: multiset<int>) returns (x: int)
    requires fewer <= items && fewer != items
    ensures x in items && fewer <= items - multiset{x}
    ensures |items - multiset{x}| < |items|
  {
    assert exists a :: items[a] > fewer[a] by {
      if forall a :: items[a] <= fewer[a] {
        assert false;
      }
    }
    x :| items[x] > fewer[x];
    var smaller := items - multiset{x};
    assert items == smaller + multiset{x};
  }

  /** One vehicle fewer can still be packed. */
  lemma PackableRemove(rows: seq<int>, items: multiset<int>, x: int)
    requires forall y :: y in items ==> y >= 0
    requires x in items
    requires Packable(rows, items)
    ensures Packable(rows, items - multiset{x})
  {
    var bins :| IsPacking(rows, items, bins);
    var r, rest := TakeOutAny(rows, items, bins, x);
    PackingWiden(rows[r := rows[r] - x], rows, items - multiset{x}, rest);
  }

  /** Fewer nonnegative vehicles can still be packed. */
  lemma {:induction false} PackableSub(rows: seq<int>, items: multiset<int>, fewer: multiset<int>)
    requires forall x :: x in items ==> x >= 0
    requires fewer <= items
    requires Packable(rows, items)
    ensures Packable(rows, fewer)
    decreases |items|
  {
    if fewer != items {
      var x := Excess(items, fewer);
      var smaller := items - multiset{x};
      PackableRemove(rows, items, x);
      assert forall y :: y in smaller ==> y in items;
      PackableSub(rows, smaller, fewer);
    }
  }

  // ---------------------------------------------------------------------------------
  // Properties of the oracle

  /** `can_pack_into_rows` answers false when a vehicle is longer than a row. */
  lemma CanPackRejectsOversized(rowCount: int, rowLen: int, cells: seq<int>, i: nat)
    requires i < |cells| && cells[i] > rowLen
    ensures !CanPack(rowCount, rowLen, cells)
  {
    var sorted := SortBy(cells, Neg);
    assert cells[i] in multiset(cells);
    assert cells[i] in multiset(sorted);
    var j :| 0 <= j < |sorted| && sorted[j] == cells[i];
  }

  /** Soundness: when the oracle answers true, the vehicles can be packed into the rows. */
  lemma CanPackSound(rowCount: int, rowLen: int, cells: seq<int>)
    requires rowLen >= 0
    requires CanPack(rowCount, rowLen, cells)
    ensures PackingExists(rowCount, rowLen, cells)
  {
    var sorted := SortBy(cells, Neg);
    var rows := InitialRows(rowCount, rowLen);
    PlaceableIsReach(rows, sorted);
    ReachSound(rows, sorted);
  }

  /** Completeness: when nonnegative vehicles can be packed, the oracle answers true, in
      spite of its pruning. */
  lemma CanPackComplete(rowCount: int, rowLen: int, cells: seq<int>)
    requires forall i :: 0 <= i < |cells| ==> cells[i] >= 0
    requires PackingExists(rowCount, rowLen, cells)
    ensures CanPack(rowCount, rowLen, cells)
  {
    var sorted := SortBy(cells, Neg);
    var rows := InitialRows(rowCount, rowLen);
    var bins :| IsPacking(rows, multiset(cells), bins);
    SeqNonNegative(cells);
    forall i | 0 <= i < |sorted| ensures sorted[i] >= 0 && sorted[i] <= rowLen {
      assert sorted[i] in multiset(sorted);
      var r, rest := TakeOutAny(rows, multiset(cells), bins, sorted[i]);
    }
    assert IsPacking(rows, multiset(sorted), bins);
    ReachComplete(rows, sorted, bins);
    PlaceableIsReach(rows, sorted);
  }

  // ---------------------------------------------------------------------------------
  // The in-place search

  /** `place(idx)` over the array of remaining capacities: decrements a row, recurses,
      and restores the row when the recursion fails. */
  method Place(rows: array<int>, items: seq<int>, idx: nat) returns (ok: bool)
    requires idx <= |items|
    modifies rows
    ensures ok == Placeable(old(rows[..]), items[idx..])
    ensures ok ==> Leaves(old(rows[..]), items[idx..], rows[..])
    ensures !ok ==> rows[..] == old(rows[..])
    decreases |items| - idx
  {
    if idx == |items| {
      assert items[idx..] == [];
      return true;
    }
    var v := items[idx];
    ghost var start := rows[..];
    ghost var rest := items[idx + 1..];
    assert items[idx..] == [v] + rest;
    var seen: set<int> := {};
    for r := 0 to rows.Length
      invariant rows[..] == start
      invariant Placeable(start, items[idx..]) == TryRows(start, v, rest, r, seen)
    {
      if rows[r] >= v && rows[r] !in seen {
        rows[r] := rows[r] - v;
        assert rows[..] == start[r := start[r] - v];
        ok := Place(rows, items, idx + 1);
        if ok {
          assert Leaves(start, items[idx..], rows[..]);
          return;
        }
        rows[r] := rows[r] + v;
        assert rows[..] == start;
        seen := seen + {rows[r]};
      }
    }
    return false;
  }

  /** `can_pack_into_rows` itself. */
  method CanPackIntoRows(rowCount: int, rowLen: int, vehicleCells: seq<int>) returns (ok: bool)
    ensures ok == CanPack(rowCount, rowLen, vehicleCells)
  {
    var sorted := SortBy(vehicleCells, Neg);
    if exists i :: 0 <= i < |sorted| && sorted[i] > rowLen {
      return false;
    }
    var n := if rowCount < 0 then 0 else rowCount;
    var rows := new int[n](_ => rowLen);
    assert rows[..] == InitialRows(rowCount, rowLen);
    ok := Place(rows, sorted, 0);
  }
}
