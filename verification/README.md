# Trip repository model

This project models the trip repository of the TripRoulette ride-sharing backend. The repository is the data-access layer for trips: drivers publish a trip with a route (`from`, `to`), a `departure` time and a number of `freeSeats`. Passengers search trips and join them.

The model replaces the Mongoose collection with an in-memory store. The store is a sequence of trip documents in their natural order, each with its own id. The repository's eight operations are modelled against it:

- `save`, `addPassenger` and `update` change the store. They are methods of the class `TripRepository.Repository`, which holds the store and the next fresh id.
- `findById`, `getAll`, `findByDriverId`, `findDepartingAfter` and `filter` only read. They are functions of the stored sequence, in module `TripQueries`.

Modules:

- `TripTypes`: trip documents, update patches, and `_.extend` as `Extend`.
- `Sequences`: selection of a subsequence (what a `where` clause does) and distinctness.
- `Pagination`: `options.page || 1`, and the `skip`/`limit` window with its laws.
- `TripQueries`: the read operations, and the conditions `filter` builds.
- `QueryProperties`: what paging through `filter` guarantees, and how `filter` relates to `findDepartingAfter` and `findByDriverId`.
- `TripRepository`: the store class and its three writes.

Foreign pieces are parameters of the model:

- the current time (`new Date()`) is the integer `now`;
- `String.prototype.toTitleCase` is the function parameter `titleCase`, about which nothing is assumed.

The model follows the repository code where it departs from what one might expect; what it does not capture is listed under "Left out":

- There is no version field, no conditional write and no retry loop.
- `addPassenger` checks neither the seats left nor whether the passenger is already on board. `freeSeats` can become negative, and a passenger can appear twice (`JoinKeepsCapacity`).
- There is no `totalSeats` field. The quantity `|passengers| + freeSeats` is what `addPassenger` keeps unchanged.
- `update` copies every key of the patch, including `freeSeats` and `passengers`; it has no allow-list.
- Only a falsy page (absent or 0) becomes page 1.
- Ties in departure are not broken by id. Each query may order trips that leave at the same time in its own way (`IsDepartureOrder`). The lemmas that combine several queries therefore require that no two matching trips leave at the same time.

## Model

| member | source | states |
|---|---|---|
| TripQueries.FindById | Code/server/data/repositories/trips.js:7-17 | the result is a stored trip with the requested id, and it is absent exactly when no stored trip has that id |
| TripQueries.FindStored | Code/server/data/repositories/trips.js:7-17 | in a store with unique ids, looking up any stored trip's id returns that very trip |
| TripQueries.GetAll | Code/server/data/repositories/trips.js:19-27 | every stored trip is returned, as many as are stored. Every trip `findById` can return is among them. With unique ids, each returned trip is what `findById` gives for its id |
| TripQueries.FindAfterAppend | Code/server/data/repositories/trips.js:29-37 | after a trip is appended, lookups of ids already stored are unchanged, its own id finds it, and every other id still finds nothing |
| TripRepository.Repository.Save | Code/server/data/repositories/trips.js:29-37 | stores the given fields under a fresh id, at the end of the store. Afterwards `findById` of the new id returns the saved trip, `getAll` contains it, every other lookup is unchanged, and ids stay unique |
| TripQueries.FindByDriverId | Code/server/data/repositories/trips.js:39-51 | a trip is returned exactly when it is stored and has the given driver, as often as it is stored |
| TripQueries.SortByDeparture | Code/server/data/repositories/trips.js:58 | the result is ordered by non-decreasing departure and is a permutation of the input |
| TripQueries.DepartureOrderUnique | Code/server/data/repositories/trips.js:58 | two orders by departure of the same trips, with no two trips leaving at the same time, are the same sequence |
| TripQueries.SortByDepartureAnyTieOrder | Code/server/data/repositories/trips.js:58 | without tied departures, any order the database may return for `.sort('departure')` is the model's sorted sequence |
| TripQueries.FindDepartingAfter | Code/server/data/repositories/trips.js:53-65 | returns exactly the stored trips with departure at or after the date, each as often as stored, in non-decreasing departure order |
| TripRepository.ReplaceTrip | Code/server/data/repositories/trips.js:75-78 | saving a changed document keeps the ids and their order. Only the trip with that id is replaced; `findById` of its id returns the new version, and lookups of other ids are unchanged |
| TripRepository.Repository.AddPassenger | Code/server/data/repositories/trips.js:67-82 | an unknown id fails with `tripNotFound` and leaves the store unchanged. Otherwise `passengers` grows by the passenger at its end, `freeSeats` drops by exactly one, and the other fields, the other trips and the id counter are unchanged. The saved trip is returned |
| TripRepository.WithPassenger | Code/server/data/repositories/trips.js:73-74 | the joined trip keeps its id, driver, route and departure. Its passengers gain the new passenger at the end, and its free seats drop by exactly one |
| TripRepository.JoinKeepsCapacity | Code/server/data/repositories/trips.js:73-74 | joining keeps `\|passengers\| + freeSeats` unchanged. A trip with no free seat goes negative, and a passenger already on board is added again |
| TripRepository.Repository.Update | Code/server/data/repositories/trips.js:84-99 | an unknown id fails with `tripNotFound` and leaves the store unchanged. Otherwise each field present in the patch takes the patch's value, each absent field keeps its old value, and the other trips are unchanged. The saved trip is returned |
| TripTypes.Extend | Code/server/data/repositories/trips.js:90 | each field whose key the patch carries takes the patch's value; each other field keeps its value |
| TripTypes.ExtendEmpty | Code/server/data/repositories/trips.js:90 | extending a trip with a patch that has no keys leaves it unchanged |
| TripTypes.ExtendIdempotent | Code/server/data/repositories/trips.js:90 | applying the same patch twice equals applying it once |
| TripTypes.ExtendTwice | Code/server/data/repositories/trips.js:90 | two updates in a row equal one update with the merged patch, in which later keys win |
| Sequences.Select | Code/server/data/repositories/trips.js:108-118 | a `where` selection keeps exactly the elements that satisfy the condition, each as often as in the input, and is no longer than the input |
| Pagination.EffectivePage | Code/server/data/repositories/trips.js:104 | the page used is at least 1: a requested page of 1 or more is used as given, and an absent page or page 0 becomes page 1 |
| Pagination.SkipLimit | Code/server/data/repositories/trips.js:122-123 | skipping n and limiting to `size` returns the entries from position n on, at most `size` of them, and nothing when n is past the end |
| Pagination.Page | Code/server/data/repositories/trips.js:122-123 | page p holds the entries from offset `(p - 1) * pageSize` onward: exactly `pageSize` of them, or fewer when the result ends first, and none when the offset is past the end |
| Pagination.FirstPagesPrefix | Code/server/data/repositories/trips.js:122-123 | pages 1 to k read in order are exactly the first `k * pageSize` entries: no overlap, no gap |
| Pagination.AllPages | Code/server/data/repositories/trips.js:122-123 | enough pages give back the whole ordered result |
| Pagination.AdjacentPages | Code/server/data/repositories/trips.js:122-123 | page p followed by page p + 1 is the unbroken run of `2 * pageSize` entries starting at page p's offset |
| Pagination.DistinctPagesDisjoint | Code/server/data/repositories/trips.js:122-123 | when no entry repeats, two different pages share no entry |
| Pagination.OnSomePage | Code/server/data/repositories/trips.js:122-123 | every entry of the result lies on some page |
| TripQueries.PlaceCriterion | Code/server/data/repositories/trips.js:102-103 | an absent or empty place imposes no condition. A condition is always the title-cased, non-empty form of the given place, and a place whose title-cased form is non-empty always gives one |
| TripQueries.DepartureBound | Code/server/data/repositories/trips.js:109 | the bound is `departureAfter` when it is given, and the current time otherwise |
| TripQueries.Matches | Code/server/data/repositories/trips.js:108-118 | a matching trip always meets the departure bound. With no route, seat or driver option, meeting the bound is all that matching takes |
| TripQueries.FalsyCriteriaIgnored | Code/server/data/repositories/trips.js:102-103 | an empty `from` or `to` and a `freeSeats` of 0 filter exactly as an absent key does, and each supplied criterion can only remove trips |
| TripQueries.Matching | Code/server/data/repositories/trips.js:108-121 | the trips the query matches, ordered by departure. Each stored trip that satisfies every supplied condition appears as often as it is stored, and no other trip appears |
| TripQueries.Filter | Code/server/data/repositories/trips.js:101-133 | returns exactly `pageSize` trips, or the rest when fewer matching trips remain past the offset, and none when the offset is past the end. Each is a stored trip that meets the departure bound (`departureAfter`, else now) and every supplied condition: title-cased `from`/`to`, non-zero minimum `freeSeats`, and driver. They are the matching trips, in departure order, from offset `(page - 1) * pageSize`, where an absent or zero page is 1 |
| QueryProperties.MatchingIgnoresPage | Code/server/data/repositories/trips.js:108-121 | the page number does not change which trips match or their order |
| QueryProperties.FilterIsPage | Code/server/data/repositories/trips.js:120-123 | `filter` for page p equals page p of the sorted matching trips |
| QueryProperties.FilterPageDefault | Code/server/data/repositories/trips.js:104 | an absent page and page 0 both return the same trips as page 1 |
| QueryProperties.FilterAnyTieOrder | Code/server/data/repositories/trips.js:120-123 | when no two matching trips leave at the same time, whatever order the database uses, the page it returns is the model's `filter` page |
| QueryProperties.TiedPagesMayRepeat | Code/server/data/repositories/trips.js:120-123 | with two trips leaving at the same time, the queries for pages 1 and 2 may return the same trip twice and never the other |
| QueryProperties.FilterPagesPrefix | Code/server/data/repositories/trips.js:120-123 | when no two matching trips leave at the same time, the `filter` results for pages 1 to k, read in order, are the first k pages of the sorted matching trips |
| QueryProperties.FilterPagesCoverAll | Code/server/data/repositories/trips.js:120-123 | when no two matching trips leave at the same time, enough pages return every matching trip once, in order: their concatenation is the unpaginated sorted result |
| QueryProperties.FilterAdjacentPages | Code/server/data/repositories/trips.js:120-123 | when no two matching trips leave at the same time, consecutive pages are contiguous: page p then page p + 1 is one unbroken run of matching trips |
| QueryProperties.FilterPagesDisjoint | Code/server/data/repositories/trips.js:120-123 | in a store with unique ids, where no two matching trips leave at the same time, two different pages share no trip |
| QueryProperties.UniqueIdsNoRepeats | Code/server/data/repositories/trips.js:29-37 | a store whose ids are unique holds no trip twice |
| QueryProperties.FilterComplete | Code/server/data/repositories/trips.js:108-118 | absent criteria do not restrict: when no two matching trips leave at the same time, every stored trip that meets the supplied criteria appears on some page |
| QueryProperties.MatchingWithoutCriteria | Code/server/data/repositories/trips.js:108-109 | with no route, seat or driver criterion, and no two such trips leaving at the same time, `filter` matches exactly what `findDepartingAfter` returns for the same departure bound, in the same order |
| QueryProperties.DefaultSearchIsUpcoming | Code/server/data/repositories/trips.js:101-123 | when one page can hold the whole store and no two upcoming trips leave at the same time, the first page of a search with no criteria equals `findDepartingAfter(now)` |
| QueryProperties.PastTripOnlyInDriverHistory | Code/server/data/repositories/trips.js:109 | with no `departureAfter`, a trip that left before now is absent from `filter` (trips.js:109). It is still returned by `findByDriverId`, whose `driver.id` path (trips.js:44) is read as the trip's driver reference |
| QueryProperties.SearchByRouteAndSeats | Code/server/data/repositories/trips.js:102-118 | worked example with three trips. Searching from "madrid" to "paris" for at least one free seat returns only the Madrid-Paris trip that has seats |

## Left out

- Mongoose, the Bluebird promises and the callbacks are left out. Database errors passed to `reject(err)` are left out too. The only modelled error is `tripNotFound`.
- `populate` joins and field projections (trips.js:10, 43, 124-125) are left out. They shape the output for display and do not change which trips are returned.
- The implementation of `toTitleCase` is not part of this model. It is a function parameter.
- `new Date()` is the parameter `now`.
- Dates are integers, so `departure` and `departureAfter` compare as numbers. Date objects, their casting from strings by Mongoose, and invalid dates are left out.
- `filter` writes the defaulted page back into the caller's `options` object (trips.js:104). In the model the options are a value, so the caller sees no change.
- Extend: a key present in `tripData` with the value `undefined` is not modelled. `_.extend` copies it and so clears the field; in the model a patch field is either absent or holds a value.
- The `options.sort` key (trips.js:121) is left out: the model always sorts by departure.
- SortByDeparture: the database decides the order of trips with equal departures, and may decide it differently for each query. The model's sort keeps their stored order; `IsDepartureOrder` stands for any order the database may choose, and `SortByDepartureAnyTieOrder` shows that the choice matters only when departures are tied.
- FilterPagesPrefix: not promised when two matching trips leave at the same time, because each page query may order them differently (`TiedPagesMayRepeat`).
- FilterPagesCoverAll: not promised with tied departures, for the same reason.
- FilterAdjacentPages: not promised with tied departures, for the same reason.
- FilterPagesDisjoint: not promised with tied departures: a trip can then be returned on two pages.
- FilterComplete: not promised with tied departures: a trip can then be missed by every page.
- MatchingWithoutCriteria: with tied departures the two queries return the same trips, but possibly in different orders.
- DefaultSearchIsUpcoming: with tied departures the two queries return the same trips, but possibly in different orders.
- An absent `pageSize` is left out (its default is commented out at trips.js:105). `Filter` requires a positive `pageSize`, so the database's "limit 0 means no limit" never applies.
- Negative page numbers are left out: `page` is a `nat`. The database rejects the negative skip they produce, and that error is not modelled.
- JavaScript truthiness is modelled for `from`, `to` and `freeSeats`: an empty string and the number 0 count as absent. `departureAfter` is a date, which is always truthy when present, so only its absence falls back to now. `driverId` counts as absent only when it is missing.
- FindByDriverId: `findByDriverId` queries the path `driver.id` before `populate` has run. The model reads that path as the trip's driver reference. What the database does with a path that the stored reference may not have is left out.
- Concurrency is left out: the read-modify-save race in `addPassenger` and `update`, and any locking or retry. Every operation is one atomic step on the store.
- The id generator is left out; a counter stands in for it.
- Keys of an update patch other than the six trip fields (such as `_id`) are left out.
- users-controllers.js (HTTP handling) and models/index.js (a module loader) are not part of this model.
