/** Records of the vehicle search: storage listings, request items, offers and the
    error results that stand for the handler's HTTP 400 rejections. */
module Types {

  /** A storage listing of the catalog; lengths are in feet, the price in cents. */
  datatype Listing = Listing(id: string, location: string, length: int, width: int, price: int)

  /** One item of the request: `quantity` vehicles of `length` feet. */
  datatype VehicleRequest = VehicleRequest(length: int, quantity: int)

  /** All listings of one location, in catalog order. */
  datatype Location = Location(id: string, listings: seq<Listing>)

  /** The cheapest combination found at one location. */
  datatype Candidate = Candidate(price: int, ids: seq<string>)

  /** One entry of the search result. */
  datatype Offer = Offer(location: string, listingIds: seq<string>, price: int)

  datatype Option<T> = None | Some(value: T)

  /** The two rejections of a request, before any search is run. */
  datatype Error = NoVehiclesRequested | TooManyVehicles

  datatype Result<T> = Ok(value: T) | Err(error: Error)

  function PriceOf(l: Listing): int { l.price }

  function OfferPrice(o: Offer): int { o.price }
}
