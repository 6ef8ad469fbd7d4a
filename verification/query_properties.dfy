/** What the queries promise when used together: paging through `filter`,
    its defaults, and how it relates to `findDepartingAfter`. */
module QueryProperties {
  import opened TripTypes
  import opened Sequences
  import opened Pagination
  import opened TripQueries

  /** With unique ids no trip is stored twice. */
  lemma {:induction false} UniqueIdsNoRepeats(trips: seq<Trip>)
    requires UniqueIds(trips)
    ensures forall t :: multiset(trips)[t] <= 1
  {
    if trips != [] {
      var rest := trips[1..];
      assert trips == [trips[0]] + rest;
      assert UniqueIds(rest);
      UniqueIdsNoRepeats(rest);
      assert trips[0] !in rest by {
        forall k | 0 <= k < |rest| ensures rest[k] != trips[0] {
          assert rest[k].id == trips[k + 1].id;
        }
      }
    }
  }

  /** The page number only picks the window: which trips match and in what
      order does not depend on it. */
  lemma MatchingIgnoresPage(trips: seq<Trip>, opts: FilterOptions, page: Option<nat>, now: int, titleCase: string -> string)
    ensures Matching(trips, opts.(page := page), now, titleCase) == Matching(trips, opts, now, titleCase)
  {
    SelectAgreeing(trips, MatchesAll(opts.(page := page), now, titleCase), MatchesAll(opts, now, titleCase));
  }

  /** `filter` on page p is page p of the sorted matching trips: it skips
      `(p - 1) * pageSize` of them and returns at most `pageSize`. */
  lemma FilterIsPage(trips: seq<Trip>, opts: FilterOptions, p: nat, now: int, titleCase: string -> string)
    requires opts.pageSize > 0 && p >= 1
    ensures Filter(trips, opts.(page := Some(p)), now, titleCase)
         == Page(Matching(trips, opts, now, titleCase), p, opts.pageSize)
  {
    MatchingIgnoresPage(trips, opts, Some(p), now, titleCase);
  }

  /** An absent page and page 0 both give page 1 (`options.page || 1`). */
  lemma FilterPageDefault(trips: seq<Trip>, opts: FilterOptions, now: int, titleCase: string -> string)
    requires opts.pageSize > 0
    ensures Filter(trips, opts.(page := None), now, titleCase) == Filter(trips, opts.(page := Some(1)), now, titleCase)
    ensures Filter(trips, opts.(page := Some(0)), now, titleCase) == Filter(trips, opts.(page := Some(1)), now, titleCase)
  {
    MatchingIgnoresPage(trips, opts, None, now, titleCase);
    MatchingIgnoresPage(trips, opts, Some(0), now, titleCase);
    MatchingIgnoresPage(trips, opts, Some(1), now, titleCase);
  }

  /** Each page is a query of its own, and the database may order trips
      with equal departures differently each time. When no two matching
      trips leave at the same time, whatever order it picks, the page it
      returns is the model's `filter` page. */
  lemma FilterAnyTieOrder(trips: seq<Trip>, opts: FilterOptions, p: nat, order: seq<Trip>, now: int, titleCase: string -> string)
    requires opts.pageSize > 0 && p >= 1
    requires IsDepartureOrder(order, Select(trips, MatchesAll(opts, now, titleCase)))
    requires NoTiedDepartures(Matching(trips, opts, now, titleCase))
    ensures Filter(trips, opts.(page := Some(p)), now, titleCase) == Page(order, p, opts.pageSize)
  {
    var picked := Select(trips, MatchesAll(opts, now, titleCase));
    NoTiesRearranged(picked, Matching(trips, opts, now, titleCase));
    SortByDepartureAnyTieOrder(picked, order);
    FilterIsPage(trips, opts, p, now, titleCase);
  }

  /** With a tie the page lemmas below fail: two different trips leaving at
      the same time may be ordered one way by the query for page 1 and the
      other way by the query for page 2, so that one of them is returned
      twice and the other never. */
  lemma TiedPagesMayRepeat(a: Trip, b: Trip)
    requires a != b && a.data.departure == b.data.departure
    ensures IsDepartureOrder([a, b], [a, b]) && IsDepartureOrder([b, a], [a, b])
    ensures Page([a, b], 1, 1) == [a] && Page([b, a], 2, 1) == [a]
    ensures b !in Page([a, b], 1, 1) + Page([b, a], 2, 1)
  {
    assert multiset([b, a]) == multiset([a, b]);
  }

  /** The results of `filter` for pages 1 to k, read one after the other. */
  function FilterPages(trips: seq<Trip>, opts: FilterOptions, k: nat, now: int, titleCase: string -> string): seq<Trip>
    requires opts.pageSize > 0
  {
    if k == 0 then []
    else FilterPages(trips, opts, k - 1, now, titleCase) + Filter(trips, opts.(page := Some(k)), now, titleCase)
  }

  /** Reading pages 1 to k gives the first k * pageSize matching trips in
      order: pages are contiguous and do not overlap. Each page is a query
      of its own, so this needs the matching trips to have no tied
      departures (see `FilterAnyTieOrder` and `TiedPagesMayRepeat`). */
  lemma {:induction false} FilterPagesPrefix(trips: seq<Trip>, opts: FilterOptions, k: nat, now: int, titleCase: string -> string)
    requires opts.pageSize > 0 && NoTiedDepartures(Matching(trips, opts, now, titleCase))
    ensures FilterPages(trips, opts, k, now, titleCase)
         == FirstPages(Matching(trips, opts, now, titleCase), k, opts.pageSize)
  {
    if k > 0 {
      var all := Matching(trips, opts, now, titleCase);
      FilterPagesPrefix(trips, opts, k - 1, now, titleCase);
      FilterIsPage(trips, opts, k, now, titleCase);
      assert FirstPages(all, k, opts.pageSize) == FirstPages(all, k - 1, opts.pageSize) + Page(all, k, opts.pageSize);
    }
  }

  /** Enough pages give back every matching trip, in departure order, each
      exactly once. */
  lemma FilterPagesCoverAll(trips: seq<Trip>, opts: FilterOptions, k: nat, now: int, titleCase: string -> string)
    requires opts.pageSize > 0 && k * opts.pageSize >= |Matching(trips, opts, now, titleCase)|
    requires NoTiedDepartures(Matching(trips, opts, now, titleCase))
    ensures FilterPages(trips, opts, k, now, titleCase) == Matching(trips, opts, now, titleCase)
  {
    FilterPagesPrefix(trips, opts, k, now, titleCase);
    AllPages(Matching(trips, opts, now, titleCase), k, opts.pageSize);
  }

  /** Page p followed by page p + 1 is the unbroken run of matching trips
      that starts at page p's offset. */
  lemma FilterAdjacentPages(trips: seq<Trip>, opts: FilterOptions, p: nat, now: int, titleCase: string -> string)
    requires opts.pageSize > 0 && p >= 1 && NoTiedDepartures(Matching(trips, opts, now, titleCase))
    ensures Filter(trips, opts.(page := Some(p)), now, titleCase) + Filter(trips, opts.(page := Some(p + 1)), now, titleCase)
         == SkipLimit(Matching(trips, opts, now, titleCase), Offset(p, opts.pageSize), 2 * opts.pageSize)
  {
    FilterIsPage(trips, opts, p, now, titleCase);
    FilterIsPage(trips, opts, p + 1, now, titleCase);
    AdjacentPages(Matching(trips, opts, now, titleCase), p, opts.pageSize);
  }

  /** In a store with unique ids and no tied departures among the matching
      trips, two different pages share no trip. */
  lemma FilterPagesDisjoint(trips: seq<Trip>, opts: FilterOptions, p: nat, q: nat, now: int, titleCase: string -> string)
    requires opts.pageSize > 0 && UniqueIds(trips) && p >= 1 && q >= 1 && p != q
    requires NoTiedDepartures(Matching(trips, opts, now, titleCase))
    ensures forall t :: t in Filter(trips, opts.(page := Some(p)), now, titleCase)
                    ==> t !in Filter(trips, opts.(page := Some(q)), now, titleCase)
  {
    var all := Matching(trips, opts, now, titleCase);
    UniqueIdsNoRepeats(trips);
    assert forall t :: multiset(all)[t] <= 1;
    CountsAtMostOne(all);
    FilterIsPage(trips, opts, p, now, titleCase);
    FilterIsPage(trips, opts, q, now, titleCase);
    DistinctPagesDisjoint(all, p, q, opts.pageSize);
  }

  /** Absent criteria restrict nothing: every stored trip that meets the
      supplied criteria is returned on some page (when no other matching
      trip leaves at the same time, so that every page query orders the
      matching trips alike). */
  lemma FilterComplete(trips: seq<Trip>, opts: FilterOptions, t: Trip, now: int, titleCase: string -> string)
    requires opts.pageSize > 0 && t in trips && Matches(opts, now, titleCase, t)
    requires NoTiedDepartures(Matching(trips, opts, now, titleCase))
    ensures exists p :: p >= 1 && t in Filter(trips, opts.(page := Some(p)), now, titleCase)
  {
    var all := Matching(trips, opts, now, titleCase);
    assert t in all by {
      assert multiset(all)[t] == multiset(trips)[t];
      assert t in multiset(trips);
    }
    var p := OnSomePage(all, t, opts.pageSize);
    FilterIsPage(trips, opts, p, now, titleCase);
  }

  /** Without route, seat or driver criteria `filter` matches exactly what
      `findDepartingAfter` returns for the same departure bound, in the same
      order when no two of those trips leave at the same time. */
  lemma MatchingWithoutCriteria(trips: seq<Trip>, opts: FilterOptions, now: int, titleCase: string -> string)
    requires opts.from.None? && opts.to.None? && opts.freeSeats.None? && opts.driverId.None?
    requires NoTiedDepartures(Matching(trips, opts, now, titleCase))
    ensures Matching(trips, opts, now, titleCase) == FindDepartingAfter(trips, DepartureBound(opts, now))
  {
    var bound := DepartureBound(opts, now);
    SelectAgreeing(trips, MatchesAll(opts, now, titleCase), DepartsFrom(bound));
  }

  /** When one page can hold the whole store, the first page of the default
      search is every upcoming trip, in the order `findDepartingAfter(now)`
      gives when no two upcoming trips leave at the same time. */
  lemma DefaultSearchIsUpcoming(trips: seq<Trip>, pageSize: nat, now: int, titleCase: string -> string)
    requires pageSize > 0 && pageSize >= |trips|
    requires NoTiedDepartures(FindDepartingAfter(trips, now))
    ensures Filter(trips, FilterOptions(None, None, None, None, None, None, pageSize), now, titleCase)
         == FindDepartingAfter(trips, now)
  {
    var opts := FilterOptions(None, None, None, None, None, None, pageSize);
    NoTiesRearranged(Matching(trips, opts, now, titleCase), FindDepartingAfter(trips, now));
    MatchingWithoutCriteria(trips, opts, now, titleCase);
    var all := Matching(trips, opts, now, titleCase);
    assert |all| == |multiset(all)|;
    var picked := Select(trips, DepartsFrom(now));
    assert |all| == |multiset(picked)| == |picked| <= |trips|;
  }

  /** A trip that has already left is absent from the default search but
      still among its driver's trips. */
  lemma PastTripOnlyInDriverHistory(trips: seq<Trip>, opts: FilterOptions, t: Trip, now: int, titleCase: string -> string)
    requires opts.pageSize > 0 && opts.departureAfter.None? && t in trips && t.data.departure < now
    ensures t !in Filter(trips, opts, now, titleCase)
    ensures t in FindByDriverId(trips, t.data.driver)
  {
  }

  /** A worked search: of a Madrid-Paris trip with two free seats, a full
      Madrid-Paris trip and a Paris-Madrid trip, searching from "madrid" to
      "paris" for at least one free seat finds only the first. */
  lemma SearchByRouteAndSeats(now: int, titleCase: string -> string)
    requires titleCase("madrid") == "Madrid" && titleCase("paris") == "Paris"
    ensures
      var day := 86400;
      var a := Trip(1, TripData(7, "Madrid", "Paris", now + day, 2, []));
      var b := Trip(2, TripData(7, "Madrid", "Paris", now + 2 * day, 0, []));
      var c := Trip(3, TripData(8, "Paris", "Madrid", now + day, 3, []));
      var opts := FilterOptions(Some("madrid"), Some("paris"), None, Some(1), None, None, 10);
      Filter([a, b, c], opts, now, titleCase) == [a]
  {
    var day := 86400;
    var a := Trip(1, TripData(7, "Madrid", "Paris", now + day, 2, []));
    var b := Trip(2, TripData(7, "Madrid", "Paris", now + 2 * day, 0, []));
    var c := Trip(3, TripData(8, "Paris", "Madrid", now + day, 3, []));
    var opts := FilterOptions(Some("madrid"), Some("paris"), None, Some(1), None, None, 10);
    var keep := MatchesAll(opts, now, titleCase);
    assert PlaceCriterion(opts.from, titleCase) == Some("Madrid");
    assert PlaceCriterion(opts.to, titleCase) == Some("Paris");
    assert keep(a);
    assert !keep(b);
    assert !keep(c);
    assert Select([c], keep) == [] by {
      assert [c][1..] == [];
    }
    assert Select([b, c], keep) == [] by {
      assert [b, c][1..] == [c];
    }
    assert Select([a, b, c], keep) == [a] by {
      assert [a, b, c][1..] == [b, c];
    }
    assert SortByDeparture([a]) == [a] by {
      assert [a][1..] == [];
    }
    assert Matching([a, b, c], opts, now, titleCase) == [a];
  }
}
