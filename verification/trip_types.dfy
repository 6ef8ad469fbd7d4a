/** The values the trip repository stores and exchanges. */
module TripTypes {

  datatype Option<+T> = None | Some(value: T)

  datatype Result<+T, +E> = Success(value: T) | Failure(error: E)

  /** The one error the repository raises itself (`messages.tripNotFound`). */
  datatype Error = TripNotFound

  /** Document ids: Mongoose assigns a fresh `_id` to every saved trip. */
  type TripId = nat

  /** Ids of user documents (drivers and passengers). */
  type UserId = nat

  /** The fields of a trip document other than its id. `freeSeats` is an
      unbounded integer: nothing in the repository keeps it non-negative. */
  datatype TripData = TripData(
    driver: UserId,
    from: string,
    to: string,
    departure: int,
    freeSeats: int,
    passengers: seq<UserId>)

  /** A stored trip document. */
  datatype Trip = Trip(id: TripId, data: TripData)

  /** The keys an update's `tripData` object carries: a field is `Some` when the
      key is present and `None` when it is not. */
  datatype Patch = Patch(
    driver: Option<UserId>,
    from: Option<string>,
    to: Option<string>,
    departure: Option<int>,
    freeSeats: Option<int>,
    passengers: Option<seq<UserId>>)

  const EmptyPatch := Patch(None, None, None, None, None, None)

  function Pick<T>(patched: Option<T>, current: T): T {
    if patched.Some? then patched.value else current
  }

  /** `_.extend(trip, tripData)`: every key present in the patch overwrites the
      trip's field, every other field is kept. */
  function Extend(d: TripData, p: Patch): (r: TripData)
    ensures p.driver.Some? ==> r.driver == p.driver.value
    ensures p.driver.None? ==> r.driver == d.driver
    ensures p.from.Some? ==> r.from == p.from.value
    ensures p.from.None? ==> r.from == d.from
    ensures p.to.Some? ==> r.to == p.to.value
    ensures p.to.None? ==> r.to == d.to
    ensures p.departure.Some? ==> r.departure == p.departure.value
    ensures p.departure.None? ==> r.departure == d.departure
    ensures p.freeSeats.Some? ==> r.freeSeats == p.freeSeats.value
    ensures p.freeSeats.None? ==> r.freeSeats == d.freeSeats
    ensures p.passengers.Some? ==> r.passengers == p.passengers.value
    ensures p.passengers.None? ==> r.passengers == d.passengers
  {
    TripData(
      Pick(p.driver, d.driver),
      Pick(p.from, d.from),
      Pick(p.to, d.to),
      Pick(p.departure, d.departure),
      Pick(p.freeSeats, d.freeSeats),
      Pick(p.passengers, d.passengers))
  }

  function PickLater<T>(first: Option<T>, second: Option<T>): Option<T> {
    if second.Some? then second else first
  }

  /** The patch `_.extend({}, p, q)`: keys of `q` win over keys of `p`. */
  function Merge(p: Patch, q: Patch): Patch {
    Patch(
      PickLater(p.driver, q.driver),
      PickLater(p.from, q.from),
      PickLater(p.to, q.to),
      PickLater(p.departure, q.departure),
      PickLater(p.freeSeats, q.freeSeats),
      PickLater(p.passengers, q.passengers))
  }

  /** Extending with an object that has no keys changes nothing. */
  lemma ExtendEmpty(d: TripData)
    ensures Extend(d, EmptyPatch) == d
  {
  }

  /** Applying the same patch twice is the same as applying it once. */
  lemma ExtendIdempotent(d: TripData, p: Patch)
    ensures Extend(Extend(d, p), p) == Extend(d, p)
  {
  }

  /** Two updates in a row act as one update with the merged patch. */
  lemma ExtendTwice(d: TripData, p: Patch, q: Patch)
    ensures Extend(Extend(d, p), q) == Extend(d, Merge(p, q))
  {
  }
}
