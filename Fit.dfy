/** `listing_can_fit_assigned` (app/main.py): can the vehicles lengths to one listing be
    packed into it? Lengths are converted to 10-foot cells by floor division and both
    orientations of the listing are tried. */
module Fit {
  import opened Types
  import opened Packing

  /** Feet per cell. */
  const CellFeet: int := 10

  /** `x // 10`: Dafny's division by a positive constant rounds down like Python's. */
  function Cells(feet: int): (c: int)
    ensures CellFeet * c <= feet < CellFeet * (c + 1)
  {
    feet / CellFeet
  }

  function VehicleCells(lengths: seq<int>): (cells: seq<int>)
    ensures |cells| == |lengths|
    ensures forall i :: 0 <= i < |lengths| ==> cells[i] == Cells(lengths[i])
  {
    seq(|lengths|, i requires 0 <= i < |lengths| => Cells(lengths[i]))
  }

  /** Orientation A: `width // 10` rows of `length // 10` cells; orientation B swaps them.
      An empty assignment always fits. */
  function ListingFits(listing: Listing, lengths: seq<int>): bool
  {
    if lengths == [] then true
    else
      var lenCells := Cells(listing.length);
      var widCells := Cells(listing.width);
      var cells := VehicleCells(lengths);
      CanPack(widCells, lenCells, cells) || CanPack(lenCells, widCells, cells)
  }

  /** The vehicles have a packing into the listing in one of its two orientations. */
  ghost predicate PacksInSomeOrientation(listing: Listing, lengths: seq<int>)
  {
    var lenCells := Cells(listing.length);
    var widCells := Cells(listing.width);
    var cells := VehicleCells(lengths);
    PackingExists(widCells, lenCells, cells) || PackingExists(lenCells, widCells, cells)
  }

  ghost predicate NonNegative(s: seq<int>)
  {
    forall i :: 0 <= i < |s| ==> s[i] >= 0
  }

  /** The answer does not depend on which side of the listing is called its length. */
  lemma ListingFitsSymmetric(listing: Listing, lengths: seq<int>)
    ensures ListingFits(listing.(length := listing.width, width := listing.length), lengths)
            == ListingFits(listing, lengths)
  {
  }

  /** For listings and vehicles of nonnegative size, the check answers true exactly when the
      vehicles have a packing into the listing in one of its orientations; in particular an
      empty assignment fits. */
  lemma ListingFitsExact(listing: Listing, lengths: seq<int>)
    requires listing.length >= 0 && listing.width >= 0
    requires NonNegative(lengths)
    ensures ListingFits(listing, lengths) <==> PacksInSomeOrientation(listing, lengths)
  {
    var lenCells := Cells(listing.length);
    var widCells := Cells(listing.width);
    var cells := VehicleCells(lengths);
    assert forall i :: 0 <= i < |cells| ==> cells[i] >= 0;
    if lengths == [] {
      assert multiset(cells) == multiset{};
      EmptyPackable(InitialRows(widCells, lenCells));
    } else {
      if CanPack(widCells, lenCells, cells) {
        CanPackSound(widCells, lenCells, cells);
      }
      if CanPack(lenCells, widCells, cells) {
        CanPackSound(lenCells, widCells, cells);
      }
      if PackingExists(widCells, lenCells, cells) {
        CanPackComplete(widCells, lenCells, cells);
      }
      if PackingExists(lenCells, widCells, cells) {
        CanPackComplete(lenCells, widCells, cells);
      }
    }
  }

  lemma VehicleCellsConcat(a: seq<int>, b: seq<int>)
    ensures VehicleCells(a + b) == VehicleCells(a) + VehicleCells(b)
  {
  }

  /** Converting to cells keeps sub-multisets. */
  lemma {:induction false} VehicleCellsSub(fewer: seq<int>, lengths: seq<int>)
    requires multiset(fewer) <= multiset(lengths)
    ensures multiset(VehicleCells(fewer)) <= multiset(VehicleCells(lengths))
    decreases |fewer|
  {
    if fewer != [] {
      var x := fewer[0];
      assert fewer == [x] + fewer[1..];
      assert x in multiset(lengths);
      var k :| 0 <= k < |lengths| && lengths[k] == x;
      var others := lengths[..k] + lengths[k + 1..];
      assert lengths == lengths[..k] + [x] + lengths[k + 1..];
      assert multiset(lengths) == multiset(others) + multiset{x};
      assert multiset(fewer) == multiset(fewer[1..]) + multiset{x};
      assert multiset(fewer[1..]) <= multiset(others) by {
        forall a ensures multiset(fewer[1..])[a] <= multiset(others)[a] {
          assert multiset(fewer)[a] <= multiset(lengths)[a];
        }
      }
      VehicleCellsSub(fewer[1..], others);
      VehicleCellsConcat([x], fewer[1..]);
      VehicleCellsConcat(lengths[..k], [x]);
      VehicleCellsConcat(lengths[..k] + [x], lengths[k + 1..]);
      VehicleCellsConcat(lengths[..k], lengths[k + 1..]);
    }
  }

  /** A listing that holds some nonnegative vehicles holds any sub-multiset of them. */
  lemma ListingFitsMonotone(listing: Listing, lengths: seq<int>, fewer: seq<int>)
    requires listing.length >= 0 && listing.width >= 0
    requires NonNegative(lengths)
    requires multiset(fewer) <= multiset(lengths)
    requires ListingFits(listing, lengths)
    ensures ListingFits(listing, fewer)
  {
    forall i | 0 <= i < |fewer| ensures fewer[i] >= 0 {
      assert fewer[i] in multiset(lengths);
    }
    ListingFitsExact(listing, lengths);
    ListingFitsExact(listing, fewer);
    var lenCells := Cells(listing.length);
    var widCells := Cells(listing.width);
    var cells := VehicleCells(lengths);
    VehicleCellsSub(fewer, lengths);
    forall x | x in multiset(cells) ensures x >= 0 {
      var i :| 0 <= i < |cells| && cells[i] == x;
    }
    if PackingExists(widCells, lenCells, cells) {
      PackableSub(InitialRows(widCells, lenCells), multiset(cells), multiset(VehicleCells(fewer)));
    } else {
      PackableSub(InitialRows(lenCells, widCells), multiset(cells), multiset(VehicleCells(fewer)));
    }
  }

  /** `listing_can_fit_assigned`, running the in-place oracle for both orientations. */
  method ListingCanFitAssigned(listing: Listing, lengths: seq<int>) returns (ok: bool)
    ensures ok == ListingFits(listing, lengths)
  {
    if lengths == [] {
      return true;
    }
    var lenCells := Cells(listing.length);
    var widCells := Cells(listing.width);
    var cells := VehicleCells(lengths);
    var okA := CanPackIntoRows(widCells, lenCells, cells);
    var okB := CanPackIntoRows(lenCells, widCells, cells);
    ok := okA || okB;
  }
}
