/** The read-only operations of the trip repository, as functions of the
    stored trips (a sequence in the store's natural order). */
module TripQueries {
  import opened TripTypes
  import opened Sequences
  import opened Pagination

  /** Every stored trip has its own id. */
  predicate UniqueIds(trips: seq<Trip>) {
    forall i, j :: 0 <= i < j < |trips| ==> trips[i].id != trips[j].id
  }

  /** `findById`: the stored trip with this id, or nothing. */
  function FindById(trips: seq<Trip>, id: TripId): (r: Option<Trip>)
    ensures r.Some? ==> r.value in trips && r.value.id == id
    ensures r.None? <==> forall t :: t in trips ==> t.id != id
  {
    if trips == [] then None
    else if trips[0].id == id then Some(trips[0])
    else FindById(trips[1..], id)
  }

  /** With unique ids, looking up a stored trip's id finds that very trip. */
  lemma {:induction false} FindStored(trips: seq<Trip>, i: nat)
    requires UniqueIds(trips) && i < |trips|
    ensures FindById(trips, trips[i].id) == Some(trips[i])
  {
    if i > 0 {
      FindStored(trips[1..], i - 1);
    }
  }

  /** Looking up an id after appending a trip: earlier trips win, the appended
      trip is found by its own id, and nothing else is found. */
  lemma {:induction false} FindAfterAppend(trips: seq<Trip>, t: Trip, id: TripId)
    ensures FindById(trips + [t], id)
         == if FindById(trips, id).Some? then FindById(trips, id)
            else if t.id == id then Some(t)
            else None
  {
    if trips == [] {
      assert trips + [t] == [t];
    } else {
      assert (trips + [t])[1..] == trips[1..] + [t];
      FindAfterAppend(trips[1..], t, id);
    }
  }

  /** `getAll`: every stored trip, in the store's order; each trip `findById`
      can return is among them and, with unique ids, each of them is what
      `findById` returns for its id. */
  function GetAll(trips: seq<Trip>): (r: seq<Trip>)
    ensures |r| == |trips|
    ensures forall t :: t in r <==> t in trips
    ensures forall id :: FindById(trips, id).Some? ==> FindById(trips, id).value in r
    ensures UniqueIds(trips) ==> forall i :: 0 <= i < |r| ==> FindById(trips, r[i].id) == Some(r[i])
  {
    assert UniqueIds(trips) ==> forall i :: 0 <= i < |trips| ==> FindById(trips, trips[i].id) == Some(trips[i]) by {
      if UniqueIds(trips) {
        forall i | 0 <= i < |trips| ensures FindById(trips, trips[i].id) == Some(trips[i]) {
          FindStored(trips, i);
        }
      }
    }
    trips
  }

  /** The condition "driven by this driver", as a query condition. */
  function DrivenBy(driverId: UserId): Trip -> bool {
    (t: Trip) => t.data.driver == driverId
  }

  /** `findByDriverId`: the trips of one driver, every one of them. The
      query's path `driver.id` is read as the trip's driver reference. */
  function FindByDriverId(trips: seq<Trip>, driverId: UserId): (r: seq<Trip>)
    ensures forall t :: t in r <==> t in trips && t.data.driver == driverId
    ensures forall t :: multiset(r)[t] == if t.data.driver == driverId then multiset(trips)[t] else 0
  {
    Select(trips, DrivenBy(driverId))
  }

  /** Ordered by departure time, earliest first. */
  predicate SortedByDeparture(s: seq<Trip>) {
    forall i, j :: 0 <= i < j < |s| ==> s[i].data.departure <= s[j].data.departure
  }

  /** No trip of `s` leaves before `d`. */
  predicate DepartNoEarlier(s: seq<Trip>, d: int) {
    forall k :: 0 <= k < |s| ==> s[k].data.departure >= d
  }

  /** A rearrangement keeps a lower bound on departures. */
  lemma DepartNoEarlierRearranged(a: seq<Trip>, b: seq<Trip>, d: int)
    requires multiset(a) == multiset(b) && DepartNoEarlier(b, d)
    ensures DepartNoEarlier(a, d)
  {
    forall k | 0 <= k < |a| ensures a[k].data.departure >= d {
      assert a[k] in multiset(b);
    }
  }

  /** Places `t` into a sequence ordered by departure, before the first trip
      that leaves no earlier than it. */
  function InsertByDeparture(t: Trip, s: seq<Trip>): (r: seq<Trip>)
    requires SortedByDeparture(s)
    ensures SortedByDeparture(r)
    ensures multiset(r) == multiset(s) + multiset{t}
  {
    if s == [] then [t]
    else if t.data.departure <= s[0].data.departure then [t] + s
    else
      var rest := InsertByDeparture(t, s[1..]);
      assert s == [s[0]] + s[1..];
      assert multiset(rest) == multiset(s[1..] + [t]);
      DepartNoEarlierRearranged(rest, s[1..] + [t], s[0].data.departure);
      [s[0]] + rest
  }

  /** `.sort('departure')`: the same trips, ordered by departure. The
      repository leaves the order of trips with equal departures to the
      database; this sort keeps their stored order (each trip is inserted
      ahead of the later-stored trips with its departure). Any other order
      the database may pick is covered by `IsDepartureOrder`. */
  function SortByDeparture(s: seq<Trip>): (r: seq<Trip>)
    ensures SortedByDeparture(r)
    ensures multiset(r) == multiset(s)
  {
    if s == [] then []
    else
      assert s == [s[0]] + s[1..];
      InsertByDeparture(s[0], SortByDeparture(s[1..]))
  }

  /** No two different trips of `s` leave at the same time. */
  predicate NoTiedDepartures(s: seq<Trip>) {
    forall x, y :: x in s && y in s && x.data.departure == y.data.departure ==> x == y
  }

  /** The results `.sort('departure')` may give for the trips `s`: exactly
      those trips, ordered by departure. Trips with equal departures may come
      in any order, and each query may pick its own. */
  predicate IsDepartureOrder(r: seq<Trip>, s: seq<Trip>) {
    SortedByDeparture(r) && multiset(r) == multiset(s)
  }

  /** The first trip of a departure order leaves no later than any other. */
  lemma HeadLeavesFirst(r: seq<Trip>, x: Trip)
    requires SortedByDeparture(r) && x in r
    ensures r[0].data.departure <= x.data.departure
  {
    var k :| 0 <= k < |r| && r[k] == x;
    if k > 0 {
      assert r[0].data.departure <= r[k].data.departure;
    }
  }

  /** Dropping the first trip keeps an order by departure, less that trip. */
  lemma TailSorted(r: seq<Trip>)
    requires r != [] && SortedByDeparture(r)
    ensures SortedByDeparture(r[1..])
    ensures multiset(r[1..]) == multiset(r) - multiset{r[0]}
  {
    assert r == [r[0]] + r[1..];
  }

  /** Dropping the first trip keeps a sequence free of tied departures. */
  lemma TailNoTies(r: seq<Trip>)
    requires r != [] && NoTiedDepartures(r)
    ensures NoTiedDepartures(r[1..])
  {
    forall x, y | x in r[1..] && y in r[1..] && x.data.departure == y.data.departure
      ensures x == y
    {
      assert x in r && y in r;
    }
  }

  /** Two departure orders of the same trips, free of ties, start alike. */
  lemma SameFirst(r1: seq<Trip>, r2: seq<Trip>)
    requires r1 != [] && r2 != []
    requires SortedByDeparture(r1) && SortedByDeparture(r2)
    requires multiset(r1) == multiset(r2) && NoTiedDepartures(r1)
    ensures r1[0] == r2[0]
  {
    assert r1[0] in multiset(r2) && r2[0] in multiset(r1);
    HeadLeavesFirst(r1, r2[0]);
    HeadLeavesFirst(r2, r1[0]);
    assert r1[0] in r1 && r2[0] in r1;
  }

  /** One step of `DepartureOrderUnique`: the first trips agree, and the
      rests are again departure orders of the same trips, free of ties. */
  lemma FirstAndRest(r1: seq<Trip>, r2: seq<Trip>)
    requires r1 != [] && SortedByDeparture(r1) && SortedByDeparture(r2)
    requires multiset(r1) == multiset(r2) && NoTiedDepartures(r1)
    ensures r2 != [] && r1[0] == r2[0]
    ensures SortedByDeparture(r1[1..]) && SortedByDeparture(r2[1..])
    ensures multiset(r1[1..]) == multiset(r2[1..]) && NoTiedDepartures(r1[1..])
  {
    assert r1[0] in multiset(r2);
    SameFirst(r1, r2);
    TailSorted(r1);
    TailSorted(r2);
    TailNoTies(r1);
  }

  /** Without tied departures the order by departure is unique: any two
      departure orders of the same trips are the same sequence. */
  lemma {:induction false} DepartureOrderUnique(r1: seq<Trip>, r2: seq<Trip>)
    requires SortedByDeparture(r1) && SortedByDeparture(r2)
    requires multiset(r1) == multiset(r2) && NoTiedDepartures(r1)
    ensures r1 == r2
    decreases |r1|
  {
    if r1 == [] {
      assert |r2| == |multiset(r2)| == 0;
    } else {
      FirstAndRest(r1, r2);
      DepartureOrderUnique(r1[1..], r2[1..]);
      assert r1 == [r1[0]] + r1[1..] && r2 == [r2[0]] + r2[1..];
    }
  }

  /** Rearranging trips keeps them free of tied departures. */
  lemma NoTiesRearranged(a: seq<Trip>, b: seq<Trip>)
    requires multiset(a) == multiset(b) && NoTiedDepartures(b)
    ensures NoTiedDepartures(a)
  {
    forall x, y | x in a && y in a && x.data.departure == y.data.departure
      ensures x == y
    {
      assert x in multiset(b) && y in multiset(b);
    }
  }

  /** Without tied departures, every order `.sort('departure')` may return
      is the model's `SortByDeparture`: the database's choice for ties does
      not matter. */
  lemma SortByDepartureAnyTieOrder(s: seq<Trip>, order: seq<Trip>)
    requires IsDepartureOrder(order, s) && NoTiedDepartures(s)
    ensures order == SortByDeparture(s)
  {
    NoTiesRearranged(SortByDeparture(s), s);
    DepartureOrderUnique(SortByDeparture(s), order);
  }

  /** The condition `departure >= date`, as a query condition. */
  function DepartsFrom(date: int): Trip -> bool {
    (t: Trip) => t.data.departure >= date
  }

  /** `findDepartingAfter`: exactly the trips leaving at or after `date`,
      ordered by departure. */
  function FindDepartingAfter(trips: seq<Trip>, date: int): (r: seq<Trip>)
    ensures SortedByDeparture(r)
    ensures forall t :: multiset(r)[t] == if t.data.departure >= date then multiset(trips)[t] else 0
    ensures forall t :: t in r <==> t in trips && t.data.departure >= date
  {
    var r := SortByDeparture(Select(trips, DepartsFrom(date)));
    assert forall t :: t in r <==> t in multiset(r);
    r
  }

  /** The options `filter` reads. Absent keys are `None`; `page` is the
      requested page and `pageSize` the page length. */
  datatype FilterOptions = FilterOptions(
    from: Option<string>,
    to: Option<string>,
    departureAfter: Option<int>,
    freeSeats: Option<int>,
    driverId: Option<UserId>,
    page: Option<nat>,
    pageSize: nat)

  /** The canonical place name a `from` or `to` option asks for, or `None`
      when the option imposes no condition: an absent or empty name, or one
      whose title-cased form is empty, is falsy and filters nothing. */
  function PlaceCriterion(place: Option<string>, titleCase: string -> string): (c: Option<string>)
    ensures place.None? || place == Some("") ==> c.None?
    ensures c.Some? ==> place.Some? && c.value == titleCase(place.value) && c.value != ""
    ensures place.Some? && place.value != "" && titleCase(place.value) != "" ==> c.Some?
  {
    if place.Some? && place.value != "" && titleCase(place.value) != "" then
      Some(titleCase(place.value))
    else
      None
  }

  /** `options.departureAfter || new Date()`, with the current time passed in. */
  function DepartureBound(opts: FilterOptions, now: int): (bound: int)
    ensures opts.departureAfter.Some? ==> bound == opts.departureAfter.value
    ensures opts.departureAfter.None? ==> bound == now
  {
    if opts.departureAfter.Some? then opts.departureAfter.value else now
  }

  /** The conjunction of the conditions `filter` adds to its query. The
      departure bound always applies; with no route, seat or driver option
      it is the only condition. */
  predicate Matches(opts: FilterOptions, now: int, titleCase: string -> string, t: Trip)
    ensures Matches(opts, now, titleCase, t) ==> t.data.departure >= DepartureBound(opts, now)
    ensures opts.from.None? && opts.to.None? && opts.freeSeats.None? && opts.driverId.None? ==>
              (Matches(opts, now, titleCase, t) <==> t.data.departure >= DepartureBound(opts, now))
  {
    && t.data.departure >= DepartureBound(opts, now)
    && (PlaceCriterion(opts.from, titleCase).Some? ==> t.data.from == PlaceCriterion(opts.from, titleCase).value)
    && (PlaceCriterion(opts.to, titleCase).Some? ==> t.data.to == PlaceCriterion(opts.to, titleCase).value)
    && (opts.freeSeats.Some? && opts.freeSeats.value != 0 ==> t.data.freeSeats >= opts.freeSeats.value)
    && (opts.driverId.Some? ==> t.data.driver == opts.driverId.value)
  }

  /** Falsy options filter nothing: an empty `from` or `to` and a
      `freeSeats` of 0 act as if the key were absent, and each supplied
      criterion can only remove trips. */
  lemma FalsyCriteriaIgnored(opts: FilterOptions, now: int, titleCase: string -> string, t: Trip)
    ensures Matches(opts.(from := Some("")), now, titleCase, t) == Matches(opts.(from := None), now, titleCase, t)
    ensures Matches(opts.(to := Some("")), now, titleCase, t) == Matches(opts.(to := None), now, titleCase, t)
    ensures Matches(opts.(freeSeats := Some(0)), now, titleCase, t) == Matches(opts.(freeSeats := None), now, titleCase, t)
    ensures Matches(opts, now, titleCase, t) ==>
              && Matches(opts.(from := None), now, titleCase, t)
              && Matches(opts.(to := None), now, titleCase, t)
              && Matches(opts.(freeSeats := None), now, titleCase, t)
              && Matches(opts.(driverId := None), now, titleCase, t)
  {
  }

  /** `Matches` as a query condition. */
  function MatchesAll(opts: FilterOptions, now: int, titleCase: string -> string): Trip -> bool {
    (t: Trip) => Matches(opts, now, titleCase, t)
  }

  /** Every trip the query matches, ordered by departure, before paging. */
  function Matching(trips: seq<Trip>, opts: FilterOptions, now: int, titleCase: string -> string): (r: seq<Trip>)
    ensures SortedByDeparture(r)
    ensures forall t :: multiset(r)[t] == if Matches(opts, now, titleCase, t) then multiset(trips)[t] else 0
  {
    SortByDeparture(Select(trips, MatchesAll(opts, now, titleCase)))
  }

  /** `filter`: one page of the matching trips ordered by departure. It holds
      at most `pageSize` trips, each a stored trip satisfying every supplied
      condition, and they are the matching trips at positions
      `(page - 1) * pageSize` onward, with an absent or zero page read as 1. */
  function Filter(trips: seq<Trip>, opts: FilterOptions, now: int, titleCase: string -> string): (r: seq<Trip>)
    requires opts.pageSize > 0
    ensures |r| <= opts.pageSize
    ensures |r| == if Offset(EffectivePage(opts.page), opts.pageSize) >= |Matching(trips, opts, now, titleCase)| then 0
                   else Min(opts.pageSize, |Matching(trips, opts, now, titleCase)| - Offset(EffectivePage(opts.page), opts.pageSize))
    ensures forall t :: t in r ==> t in trips && Matches(opts, now, titleCase, t)
    ensures forall i :: 0 <= i < |r| ==>
      && Offset(EffectivePage(opts.page), opts.pageSize) + i < |Matching(trips, opts, now, titleCase)|
      && r[i] == Matching(trips, opts, now, titleCase)[Offset(EffectivePage(opts.page), opts.pageSize) + i]
  {
    var all := Matching(trips, opts, now, titleCase);
    var r := Page(all, EffectivePage(opts.page), opts.pageSize);
    PageWithin(all, EffectivePage(opts.page), opts.pageSize);
    assert forall t :: t in r ==> multiset(all)[t] > 0 by {
      forall t | t in r ensures multiset(all)[t] > 0 {
        assert t in multiset(r);
      }
    }
    r
  }
}
