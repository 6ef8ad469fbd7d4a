/** The trip repository's writes: a store of trip documents that `save`
    extends and `addPassenger` and `update` change in place. */
module TripRepository {
  import opened TripTypes
  import opened TripQueries

  /** The store after the trip with `t`'s id has been overwritten by `t`:
      same ids in the same order, that one trip replaced, every lookup of
      another id unchanged. */
  function ReplaceTrip(trips: seq<Trip>, t: Trip): (r: seq<Trip>)
    ensures |r| == |trips|
    ensures forall i :: 0 <= i < |r| ==> r[i].id == trips[i].id
    ensures forall i :: 0 <= i < |r| && trips[i].id != t.id ==> r[i] == trips[i]
    ensures FindById(r, t.id) == if FindById(trips, t.id).Some? then Some(t) else None
    ensures forall id :: id != t.id ==> FindById(r, id) == FindById(trips, id)
  {
    if trips == [] then []
    else
      var r := [if trips[0].id == t.id then t else trips[0]] + ReplaceTrip(trips[1..], t);
      assert r[1..] == ReplaceTrip(trips[1..], t);
      r
  }

  /** The trip after `addPassenger`: `passengers.push(passengerId)` and
      `freeSeats -= 1`, with no check of the seats left or of a passenger
      already on board. */
  function WithPassenger(t: Trip, passengerId: UserId): (r: Trip)
    ensures r.id == t.id
    ensures r.data.passengers == t.data.passengers + [passengerId]
    ensures r.data.freeSeats == t.data.freeSeats - 1
    ensures r.data.driver == t.data.driver && r.data.from == t.data.from
    ensures r.data.to == t.data.to && r.data.departure == t.data.departure
  {
    t.(data := t.data.(passengers := t.data.passengers + [passengerId], freeSeats := t.data.freeSeats - 1))
  }

  /** Joining moves one seat from free to taken: the number of passengers
      plus the free seats stays what it was. Nothing stops a full trip from
      going below zero free seats, nor a passenger from joining twice. */
  lemma JoinKeepsCapacity(t: Trip, passengerId: UserId)
    ensures |WithPassenger(t, passengerId).data.passengers| + WithPassenger(t, passengerId).data.freeSeats
         == |t.data.passengers| + t.data.freeSeats
    ensures t.data.freeSeats <= 0 ==> WithPassenger(t, passengerId).data.freeSeats < 0
    ensures multiset(WithPassenger(t, passengerId).data.passengers)[passengerId]
         == multiset(t.data.passengers)[passengerId] + 1
  {
  }

  /** The trip collection. `trips` holds the documents in the store's
      natural order; `nextId` is the next id handed out, above every id in
      use. */
  class Repository {
    var trips: seq<Trip>
    var nextId: TripId

    ghost predicate Valid()
      reads this
    {
      && UniqueIds(trips)
      && forall t :: t in trips ==> t.id < nextId
    }

    constructor ()
      ensures Valid() && trips == []
    {
      trips := [];
      nextId := 0;
    }

    /** `save(tripData)`: stores a new document with a fresh id. Afterwards
        `findById` of that id returns it, `getAll` contains it, and every
        other lookup is as before. */
    method Save(data: TripData) returns (saved: Trip)
      requires Valid()
      modifies this
      ensures Valid()
      ensures saved.data == data
      ensures old(FindById(trips, saved.id)).None?
      ensures trips == old(trips) + [saved]
      ensures FindById(trips, saved.id) == Some(saved)
      ensures forall id :: id != saved.id ==> FindById(trips, id) == old(FindById(trips, id))
      ensures saved in GetAll(trips)
    {
      saved := Trip(nextId, data);
      forall id ensures FindById(trips + [saved], id) == (if FindById(trips, id).Some? then FindById(trips, id)
                                                        else if saved.id == id then Some(saved) else None) {
        FindAfterAppend(trips, saved, id);
      }
      trips := trips + [saved];
      nextId := nextId + 1;
    }

    /** `addPassenger(tripId, passengerId)`: fails with `tripNotFound` and
        changes nothing when no trip has that id; otherwise appends the
        passenger, takes one free seat, leaves every other field and every
        other trip as it was, and returns the saved trip. */
    method AddPassenger(tripId: TripId, passengerId: UserId) returns (r: Result<Trip, Error>)
      requires Valid()
      modifies this
      ensures Valid() && nextId == old(nextId)
      ensures old(FindById(trips, tripId)).None? ==> r == Failure(TripNotFound) && trips == old(trips)
      ensures old(FindById(trips, tripId)).Some? ==>
        var before := old(FindById(trips, tripId)).value;
        && r.Success?
        && r.value.id == tripId
        && r.value.data.passengers == before.data.passengers + [passengerId]
        && r.value.data.freeSeats == before.data.freeSeats - 1
        && r.value.data.driver == before.data.driver
        && r.value.data.from == before.data.from
        && r.value.data.to == before.data.to
        && r.value.data.departure == before.data.departure
        && FindById(trips, tripId) == Some(r.value)
        && (forall id :: id != tripId ==> FindById(trips, id) == old(FindById(trips, id)))
        && trips == ReplaceTrip(old(trips), r.value)
    {
      var found := FindById(trips, tripId);
      if found.None? {
        return Failure(TripNotFound);
      }
      var updated := WithPassenger(found.value, passengerId);
      trips := ReplaceTrip(trips, updated);
      r := Success(updated);
    }

    /** `update(tripId, tripData)`: fails with `tripNotFound` and changes
        nothing when no trip has that id; otherwise overwrites exactly the
        fields the patch carries (`_.extend`), keeps the rest and every
        other trip, and returns the saved trip. */
    method Update(tripId: TripId, patch: Patch) returns (r: Result<Trip, Error>)
      requires Valid()
      modifies this
      ensures Valid() && nextId == old(nextId)
      ensures old(FindById(trips, tripId)).None? ==> r == Failure(TripNotFound) && trips == old(trips)
      ensures old(FindById(trips, tripId)).Some? ==>
        var before := old(FindById(trips, tripId)).value;
        && r.Success?
        && r.value.id == tripId
        && (patch.driver.Some? ==> r.value.data.driver == patch.driver.value)
        && (patch.driver.None? ==> r.value.data.driver == before.data.driver)
        && (patch.from.Some? ==> r.value.data.from == patch.from.value)
        && (patch.from.None? ==> r.value.data.from == before.data.from)
        && (patch.to.Some? ==> r.value.data.to == patch.to.value)
        && (patch.to.None? ==> r.value.data.to == before.data.to)
        && (patch.departure.Some? ==> r.value.data.departure == patch.departure.value)
        && (patch.departure.None? ==> r.value.data.departure == before.data.departure)
        && (patch.freeSeats.Some? ==> r.value.data.freeSeats == patch.freeSeats.value)
        && (patch.freeSeats.None? ==> r.value.data.freeSeats == before.data.freeSeats)
        && (patch.passengers.Some? ==> r.value.data.passengers == patch.passengers.value)
        && (patch.passengers.None? ==> r.value.data.passengers == before.data.passengers)
        && FindById(trips, tripId) == Some(r.value)
        && (forall id :: id != tripId ==> FindById(trips, id) == old(FindById(trips, id)))
        && trips == ReplaceTrip(old(trips), r.value)
    {
      var found := FindById(trips, tripId);
      if found.None? {
        return Failure(TripNotFound);
      }
      var updated := found.value.(data := Extend(found.value.data, patch));
      trips := ReplaceTrip(trips, updated);
      r := Success(updated);
    }
  }
}
