# Vehicle search, verified model

This project models the search engine of a small vehicle-storage service (`app/main.py`). A
request lists vehicles by length and quantity. The catalog lists storage listings, each with a
location, a length, a width (in feet) and a price (in cents). For every location, the engine
finds the cheapest combination of at most `max_comb_size` of that location's listings
(the smaller of their number and the requested total) that can hold all the vehicles. It
answers with one offer per location that has one, cheapest first. When no quantity is
negative and no price is negative, the cap loses nothing: no combination of more listings
is cheaper (see "## Left out" for what happens otherwise).

Whether vehicles fit is decided on a grid of 10-foot cells. Every length is converted by
floor division. A listing is seen as rows of cells in one of two orientations: `width // 10`
rows of `length // 10` cells, or the swap. The vehicles given to a listing must go, in one
orientation, into rows whose summed vehicle lengths stay within the row length.

The modules follow the program's parts:

- `Types`: the records (listing, request item, location, candidate, offer) and the two
  rejections of a request, as an `Error` inside a `Result`.
- `Sorting`: the stable sort used for the vehicles (longest first), the listings (by price,
  `ByPrice`) and the offers (by price).
- `Packing`: `can_pack_into_rows` with its inner backtracking `place`. `Place` works in place
  on an array of remaining row capacities. `Placeable`/`TryRows` are the same search as
  functions. The lemmas prove the search exact with respect to the existence of a packing,
  in spite of its "equal remaining capacity already tried" pruning and its quick rejection
  of oversized vehicles.
- `Fit`: `listing_can_fit_assigned`, the cell conversion and the two orientations.
- `Assignment`: the nested `assign_vehicle` search. `AssignVehicle` pushes onto and pops
  from an array of per-listing lists. It is proved to decide exactly whether the vehicles
  can be split among a combination's listings so that each listing holds its share.
- `Combinations`: the combinations of listing indices, of sizes `1 .. max_comb_size`, in the
  lexicographic order in which `itertools.combinations` yields them.
- `Expansion`: `expand_vehicles` and the total quantity.
- `Catalog`: the grouping of the catalog by location (`LISTINGS_BY_LOCATION`).
- `Search`: the per-location search with its pruning and best tracking, the area test, and
  the whole handler (`SearchVehicle`), which takes the grouped catalog and the request as
  parameters.
- `Prefilter`: proves that the area test never discards a location that has an offer.
- `Properties`: the properties of the whole search. When no size, price or quantity is
  negative, a location's best price does not fall when a vehicle is added. For nonnegative
  sizes, the answer over the grouped catalog is a list of cheapest offers, one for every
  location that has one, in ascending price. This holds among the combinations within
  `max_comb_size`, and, when in addition no quantity and no price is negative, among all
  combinations.

The per-location search is specified twice. `BestOf` is a fold over the enumeration, step
by step as the loops run. `FirstCheapest` is a declarative description: the first
combination of least price among those whose assignment search succeeds.
`LocationBestOptimal` then says, in terms of packings alone, that the result is a cheapest
combination of at most `max_comb_size` listings that can hold the vehicles, and that nothing
is found only when there is no such combination. `Properties.CapLosesNothing` adds that,
with no more vehicles than `total_qty` and no negative price, the cap leaves out no cheaper
combination.

The model follows the code where the service's data would not reach a case:

- In the service's data, listing sizes and vehicle lengths are positive, and quantities and
  prices are nonnegative. The code does not check this, and the model takes quantities,
  sizes and prices as plain integers. The properties that need the assumption state it as a precondition, in
  the weaker form "nonnegative".
- A negative quantity adds no vehicle, because `range(q)` is empty, but it still lowers the
  total that is checked against the cap of 5.

## Model

| member | source | states |
|---|---|---|
| Sorting.SortBy | app/main.py:186 | the sorted list is a permutation of its input, ordered ascending by the key (for the offers: by total price) |
| Sorting.SortByStable | app/main.py:132 | the sort is stable: the elements of any one key come out in the order they went in, so listings of equal price keep their catalog order, which fixes the enumeration order |
| Packing.CanPackRejectsOversized | app/main.py:50-51 | the oracle answers false whenever some vehicle needs more cells than a row has |
| Packing.PlaceableIsReach | app/main.py:57-70 | skipping a row whose remaining capacity equals one already tried never loses a placement: the pruned search succeeds exactly when placing the vehicles one by one, each into some row with room, succeeds |
| Packing.Placeable | app/main.py:57-70 | `place(0)` as a function, built on `TryRows`; what it decides is stated by `Packing.PlaceableIsReach` and `Packing.CanPackSound` |
| Packing.TryRows | app/main.py:61-69 | the loop over the rows inside `place`, skipping rows whose remaining capacity was already tried; stated through `Packing.PlaceableIsReach` |
| Packing.InitialRows | app/main.py:54 | `[row_len_cells] * row_count`: `row_count` rows of `row_len_cells` cells, none for a negative count; its length and entries are stated by `Packing.Repeat` |
| Packing.CanPack | app/main.py:42-72 | `can_pack_into_rows` as a function: the quick rejection of oversized vehicles, then `place(0)` on the longest-first vehicles; its meaning is stated by `Packing.CanPackSound`, `Packing.CanPackComplete` and `Packing.CanPackRejectsOversized` |
| Packing.CanPackSound | app/main.py:42-72 | when the oracle answers true, the vehicles split into `row_count` bins whose sums stay within `row_len_cells` |
| Packing.CanPackComplete | app/main.py:42-72 | when nonnegative vehicles have such a split, the oracle answers true |
| Packing.Place | app/main.py:57-70 | `place(idx)` on the array of remaining capacities answers the search from `idx` on. On success the array holds the capacities left after placing the vehicles from `idx` on one by one, each into a row with room; on failure it is exactly as it was |
| Packing.LeavesCapacity | app/main.py:63-67 | for nonnegative sizes, the capacities left after such placements are as many rows as before, each between 0 and its old capacity, and they lack exactly the vehicles' total |
| Packing.LeavesReach | app/main.py:57-70 | placements that leave some capacities are placements, so `Packing.PlaceableIsReach` applies to them |
| Packing.CanPackIntoRows | app/main.py:42-72 | the method with its quick rejection and `[row_len] * row_count` array answers what the oracle does |
| Fit.Cells | app/main.py:84-88 | `x // 10` is the number of whole 10-foot cells in `x` |
| Fit.VehicleCells | app/main.py:88 | `veh_cells`: one entry per vehicle, in order, each the vehicle's length in whole 10-foot cells |
| Fit.ListingFits | app/main.py:75-100 | `listing_can_fit_assigned` as a function: true for no vehicles, otherwise orientation A or B; its meaning is stated by `Fit.ListingFitsExact` |
| Fit.ListingFitsExact | app/main.py:75-100 | for nonnegative sizes, a listing passes exactly when its vehicles have a packing in one of its two orientations; an empty assignment always passes |
| Fit.ListingFitsSymmetric | app/main.py:90-100 | swapping a listing's length and width does not change the answer |
| Fit.ListingFitsMonotone | app/main.py:161-167 | for nonnegative sizes, a listing that holds some vehicles also holds any sub-multiset of them, so the early check after each push only cuts off failing branches |
| Fit.ListingCanFitAssigned | app/main.py:75-100 | the method answers what the fit check does, trying orientation A and then B |
| Assignment.AllListingsFit | app/main.py:152-157 | the final loop answers true exactly when every listing of the combination holds its list |
| Assignment.AllFit | app/main.py:152-157 | the final check of `assign_vehicle` as a predicate: every listing of the combination passes the fit check on its own list; the loop `Assignment.AllListingsFit` answers it |
| Assignment.Assignable | app/main.py:150-168 | `assign_vehicle(idx)` as a function over the lists built so far; its meaning is stated by `Assignment.AssignableSound`, `Assignment.AssignableComplete` and `Assignment.AssignmentSearchExact` |
| Assignment.TryListings | app/main.py:161-168 | the loop over the combination's listings inside `assign_vehicle`, with the push, the quick prune and the pop; stated through `Assignment.Assignable` |
| Assignment.AssignVehicle | app/main.py:150-168 | the search answers the recursion's result. On success the lists split the vehicles of `vehicles_sorted[idx:]`, together with those already assigned, among the listings, and every listing holds its list. On failure every list is back to what it was |
| Assignment.AssignableSound | app/main.py:150-170 | a successful search yields a split of all vehicles among the listings in which every listing passes the fit check |
| Assignment.AssignableComplete | app/main.py:150-170 | for nonnegative sizes, any split that passes the fit check and extends the lists built so far makes the search succeed |
| Assignment.AssignmentSearchExact | app/main.py:150-170 | for nonnegative sizes, `assign_vehicle(0)` succeeds exactly when the vehicles can be split among the combination's listings so that each listing has a packing of its part in one orientation |
| Combinations.CombinationsFromExact | app/main.py:136 | the generator yields exactly the strictly increasing index sequences of the requested size |
| Combinations.CombinationsFromOrdered | app/main.py:136 | the generator yields them in strictly increasing lexicographic order, so never the same one twice |
| Combinations.EnumerationExact | app/main.py:135-136 | the two loops meet exactly the combinations of sizes `1 .. max_comb_size` |
| Combinations.CombinationsFrom | app/main.py:136 | `itertools.combinations` over index positions, as a function; what it yields is stated by `Combinations.CombinationsFromExact` and `Combinations.CombinationsFromOrdered` |
| Combinations.Enumeration | app/main.py:135-136 | the combinations of sizes 1 to `max_comb_size`, smaller sizes first; stated by `Combinations.EnumerationExact` |
| Expansion.ExpandVehicles | app/main.py:31-39 | the nested loops build the expansion: each item's length is appended `quantity` times, item by item |
| Expansion.Expanded | app/main.py:31-39 | `expand_vehicles` as a function; its meaning is stated by `Expansion.ExpandedItem`, `Expansion.ExpandedCounts` and `Expansion.ExpandedMembers` |
| Expansion.TotalQuantity | app/main.py:107 | `total_qty`, the sum of the quantities; related to the number of vehicles by `Expansion.ExpandedLength` and `Expansion.ExpandedAtLeastTotal` |
| Expansion.ExpandedItem | app/main.py:34-38 | in request order, each item contributes its length `quantity` times (none for a negative quantity), between the vehicles of the items before and after it |
| Expansion.ExpandedCounts | app/main.py:31-39 | every length occurs in the expansion exactly as often as the request asks for it |
| Expansion.ExpandedMembers | app/main.py:34-38 | a length is in the expansion exactly when some item of that length has a positive quantity |
| Expansion.ExpandedLength | app/main.py:107 | with no negative quantity, the expansion has exactly `total_qty` vehicles |
| Expansion.ExpandedAtLeastTotal | app/main.py:107 | in any case the expansion has at least `total_qty` vehicles |
| Catalog.GroupByLocation | app/main.py:21-23 | the `setdefault(...).append` loop yields one group per location, in order of first occurrence, each holding that location's listings in catalog order |
| Catalog.Grouped | app/main.py:21-23 | `LISTINGS_BY_LOCATION` as a function of the catalog; its meaning is stated by `Catalog.GroupedPartition` and `Catalog.ListingsAtExact` |
| Catalog.FirstOccurrences | app/main.py:21-23 | the dictionary's keys in insertion order, each location once where it first occurs; stated by `Catalog.FirstOccurrencesMembers` and `Catalog.FirstOccurrencesDistinct` |
| Catalog.ListingsAt | app/main.py:21-23 | the list that `setdefault(...).append` builds for one location, in catalog order; stated by `Catalog.ListingsAtExact` |
| Catalog.FirstOccurrencesMembers | app/main.py:21-23 | the grouping has a key for every location of the catalog and for nothing else |
| Catalog.FirstOccurrencesDistinct | app/main.py:21-23 | no location is a key twice |
| Catalog.ListingsAtExact | app/main.py:22-23 | a group holds exactly the listings of its location, each as often as the catalog lists it |
| Catalog.GroupedPartition | app/main.py:21-23 | every listing of the catalog is in exactly one group, the one of its location, and the groups' locations are distinct |
| Search.MaxCombinationSize | app/main.py:130 | `max_comb_size` is the smaller of the number of listings and `total_qty` |
| Search.TotalPrice | app/main.py:138 | `combo_price`, the summed price of a combination's listings |
| Search.Ids | app/main.py:137 | `combo_ids` has one entry per listing of the combination, the listing's id, in combination order |
| Search.ByPrice | app/main.py:132 | `listings_sorted`: the listings by ascending price, equal prices in catalog order, by `Sorting.SortBy` and `Sorting.SortByStable` |
| Search.Feasible | app/main.py:146-170 | `assign_vehicle(0)` from empty lists succeeds for the combination; what that means in packings, for nonnegative sizes, is stated by `Search.AdmissibleIff` and `Assignment.AssignmentSearchExact` |
| Search.Step | app/main.py:140-174 | one pass of the inner loop as a function; what the fold of it computes is stated by `Search.StepFirstCheapest` |
| Search.BestOf | app/main.py:135-174 | the fold of `Search.Step` over the enumeration; stated by `Search.BestOfFirstCheapest` |
| Search.LocationBest | app/main.py:127-174 | `best_for_location` after the two loops over the price-sorted listings, as a function; what it is is stated by `Search.BestOfFirstCheapest`, `Search.LocationBestOptimal` and `Properties.LocationBestMonotone` |
| Search.StepFirstCheapest | app/main.py:140-174 | skipping a combination no cheaper than the best so far, and keeping only strictly cheaper successes, preserves "the best is the first feasible combination of least price" |
| Search.BestOfFirstCheapest | app/main.py:135-174 | after the loops, `best_for_location` is the first feasible combination of least price in enumeration order, or nothing when none is feasible |
| Search.FirstCheapestMinimal | app/main.py:135-174 | the best found is the candidate of a feasible combination, no feasible combination is cheaper, and nothing is found only when none is feasible |
| Search.FirstCheapestUnique | app/main.py:127-174 | that description admits only one answer, so the location's result is determined |
| Search.LocationBestOptimal | app/main.py:127-174 | for nonnegative sizes, the location's result has the price and ids of a combination of at most `max_comb_size` listings that can hold the vehicles, and no such combination is cheaper; there is no result exactly when there is no such combination |
| Search.AdmissibleBest | app/main.py:135-174 | for nonnegative sizes, the first-cheapest description, restated in terms of packings: a result is a cheapest combination of at most `maxSize` listings that can hold the vehicles, and there is none exactly when no such combination can |
| Search.TryCombination | app/main.py:137-174 | one pass of the inner loop: a combination no cheaper than the best is skipped, otherwise a successful assignment search that is cheaper becomes the best, with the combination's summed price and ids |
| Search.SearchSize | app/main.py:136-174 | the inner loop over the combinations of one size continues the fold |
| Search.SearchSizes | app/main.py:135-174 | the outer loop over the sizes `1 .. max_comb_size` ends with the fold over all combinations of those sizes, in enumeration order |
| Search.SearchNextSize | app/main.py:135-136 | one pass of the outer loop, for size `r`, extends the fold from the combinations of sizes below `r` to those of sizes up to `r` |
| Search.SearchLocation | app/main.py:127-174 | the two loops over the price-sorted listings end with the fold's result, which meets the first-cheapest description |
| Search.Area | app/main.py:122 | `total_cells_available`, the summed cell count of a location's listings; used by `Prefilter.OfferWithinArea` |
| Search.Demand | app/main.py:123 | `total_vehicle_cells_needed`, the summed cell count of the vehicles; used by `Prefilter.OfferWithinArea` |
| Search.LocationOffer | app/main.py:121-183 | one location's entry: nothing when the area test fails, otherwise the location's best with its id; stated by `Prefilter.AreaTestRedundant` and `Properties.SortedOffersOptimal` |
| Search.OfferOf | app/main.py:177-183 | the entry appended for a location: none without a best, otherwise the location id with the best's ids and price |
| Search.Offers | app/main.py:117-183 | `results`, the entries of the locations that have one, in catalog order; stated by `Search.OffersFromCatalog` and `Search.OffersDistinctLocations` |
| Search.OffersFromCatalog | app/main.py:119-183 | the results hold exactly the entries of the locations that have one |
| Search.OffersDistinctLocations | app/main.py:119-183 | over a catalog with distinct locations, no location has two results |
| Search.GroupedOffersDistinct | app/main.py:119-183 | over the grouped catalog, each location contributes at most one result |
| Search.SearchVehicle | app/main.py:104-187 | a total of 0 is rejected as "no vehicles" and a total above 5 as "too many", before any search. Otherwise the answer is the locations' results, each for the longest-first vehicles, sorted ascending by price |
| Prefilter.OfferWithinArea | app/main.py:121-125 | for nonnegative sizes, a location with a result has at least as many cells as the vehicles need |
| Prefilter.AreaTestRedundant | app/main.py:121-125 | for nonnegative sizes, skipping locations by area changes no location's result |
| Properties.LocationBestMonotone | app/main.py:127-174 | for nonnegative sizes and prices, and at most `q` vehicles for the total `q`, that is, no negative quantity: adding one vehicle (and one to `total_qty`) never lowers a location's best price and never gives a result to a location that had none |
| Properties.AdmissibleFewer | app/main.py:150-170 | for nonnegative sizes and prices, and at most `q` vehicles after the removal: a combination of at most `q + 1` listings that holds the vehicles gives one of at most `q` listings, no larger and no dearer, that holds them less one vehicle, since a listing left with nothing can be dropped |
| Properties.SortedOffersOptimal | app/main.py:117-186 | for nonnegative sizes, the sorted results over the grouped catalog name no location twice, ascend by price, give each location a cheapest combination of at most `max_comb_size` listings that holds the vehicles, and include every location that has such a combination |
| Properties.SearchVehicleOptimal | app/main.py:104-187 | the same, among combinations of at most `max_comb_size` listings, for the longest-first expansion of a request of nonnegative lengths and its `total_qty` |
| Properties.AdmissibleShrink | app/main.py:129-130 | for nonnegative prices, `q` at least 1 and at most `q` vehicles, any combination that holds the vehicles gives one of at most `q` listings, no larger and no dearer, that holds them too |
| Properties.CapLosesNothing | app/main.py:129-130 | for nonnegative prices, a positive total and no more vehicles than it, limiting the combinations to `max_comb_size` listings leaves out no cheaper combination that holds the vehicles |
| Properties.SortedOffersCheapestOverall | app/main.py:117-186 | for nonnegative sizes and prices, a positive total and no more vehicles than it, each sorted result is cheapest among all combinations of its location, of any size, that hold the vehicles, and every location with such a combination has a result |
| Properties.SearchVehicleCheapestOverall | app/main.py:104-187 | the same for a request of nonnegative lengths and quantities whose `total_qty` is positive |

## Left out

- The web layer is not modelled: the FastAPI app, the route and `HTTPException`. The two
  rejections are the `Err` results of `SearchVehicle`.
- The pydantic request model and `.dict()` are not modelled: a request is a sequence of
  integer `(length, quantity)` pairs.
- Loading `listings.json` and the missing-file `RuntimeError` are file I/O. The listings are
  a parameter of `GroupByLocation`, and `SearchVehicle` takes the grouped catalog as a
  parameter.
- `itertools.combinations` and `sorted` are library calls. They are modelled by our own
  generator and insertion sort.
- `sum(...)` and list comprehensions are modelled as functions, not loops.
- Running time and the exponential blow-up are not modelled.
- Packing.CanPackSound: stated only for a nonnegative row length. Sizes in the service's
  data are positive.
- Packing.CanPackComplete: stated only for vehicles of nonnegative cell length.
- Fit.ListingFitsExact: stated only for nonnegative listing sizes and vehicle lengths.
- Assignment.AssignmentSearchExact: stated only for nonnegative listing sizes and vehicle
  lengths.
- Search.LocationBestOptimal: stated only for nonnegative listing sizes and vehicle lengths.
- Prefilter.AreaTestRedundant: stated only for nonnegative listing sizes and vehicle
  lengths. With negative sizes, the area test can drop a location that has a result.
- Expansion.ExpandedLength: holds only when no quantity is negative. A negative quantity
  counts in `total_qty` but adds no vehicle. As a result, the cap of 5 does not bound the
  number of vehicles in that case, which the model reproduces as written.
- Properties.LocationBestMonotone: stated only for nonnegative listing prices and sizes,
  nonnegative vehicle lengths, and no more vehicles than `total_qty`, that is, no negative
  quantity. The service's data meets all three. Without them the property fails. With a negative price: a location has a listing A of 20 by 10 feet at 100 cents
  and a listing N of 0 by 0 feet at -50 cents. For one 10-foot vehicle, `max_comb_size` is
  1 and the best is [A] at 100. For two, `max_comb_size` grows to 2, and [N, A] holds both
  vehicles in A, since an empty list always fits, at 50. With a negative quantity: a
  location has three listings of 10 by 10 feet at 100 cents each and a listing B of 30 by
  10 feet at 1000. The request `[(10, 3), (7, -1)]` has three 1-cell vehicles but a total
  of 2, so `max_comb_size` is 2. No pair of small listings holds three cells, and the best
  is [B] at 1000. Adding `(5, 1)`, a vehicle of 0 cells, raises the total to 3, and the
  three small listings at 300 win.
- Properties.SortedOffersOptimal: cheapest only among combinations of at most
  `max_comb_size` listings, as the code searches. With a negative quantity the cap can hide
  a cheaper combination: a location has three listings of 10 by 10 feet at 100 cents each
  and a listing B of 30 by 10 feet at 1000; the request `[(10, 3), (7, -1)]` has three
  vehicles but a total of 2, so the answer is [B] at 1000, while the three small listings
  at 300 hold the vehicles too. `Properties.SortedOffersCheapestOverall` gives the
  unbounded form when no quantity is negative and prices are nonnegative.
- Properties.SearchVehicleOptimal: the same bound and the same example.
- Properties.SearchVehicleCheapestOverall: stated only for nonnegative prices, sizes,
  lengths and quantities, for the reason above.
- Search.AdmissibleBest: stated only for nonnegative listing sizes and vehicle lengths. For
  a negative row length the fit check and the existence of a packing differ.
  Like the search, it speaks only of combinations of at most `maxSize` listings;
  `Properties.CapLosesNothing` covers the rest.
