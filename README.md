# Event spot reservations: a model of the reservation engine

The service keeps a catalog in memory. It holds a list of events and a
list of spots; each spot has a name, a status and the id of the event it
belongs to. The service answers three lookups: an event by id, the spots
of an event, and a batch reservation `reserve(eventId, names)`. A batch
reservation is all or nothing and runs in three passes over the request:

1. The existence pass collects every requested name that matches no spot
   of the event. Request order and repeats are kept.
2. The availability pass collects every requested name whose matching
   spot is already `"reserved"`.
3. The commit sets `"reserved"`, in place, on every spot of the event
   that a requested name matches.

A request has one of four outcomes: event not found (404), spots not
found (404), already reserved (400) or reserved (201). Each comes with a
message such as `Spot A3, B1 not found`.

The project has four modules:

- `Catalog` (catalog.dfy) holds the `Event` and `Spot` records. It also
  holds the lookup `EventById` (the first event with the id, or `None`)
  and the listing `SpotsFor` (the event's spots, in store order).
- `Reservation` (reservation.dfy) states each pass as a function of the
  store: `Missing`, `ReservedHits` (built from `TakenFor`), `Commit`,
  the decision `Decide`, the new state `After`, and `Respond`, which
  gives the status code and message. The properties of the engine are
  proved as lemmas about these functions.
- `Store` (store.dfy) is the class `EventStore`. It keeps the events as
  a sequence and the spots as an array that is updated in place. Each
  method runs one of the handler's loops and is proved equal to the
  matching function. `ReserveSpot` runs the lookup and then the three
  passes, and says which outcome it returns and what the array holds
  afterwards.
- `Scenarios` (scenarios.dfy) works through a small catalog: event 1
  with spot A1 available and spot A2 reserved.

The model keeps two behaviours of the source that a reader might not expect:

- A name repeated in a request is applied again at commit, which changes
  nothing further. The source does this and nothing dedupes the request.
- The availability pass reports a name once for every reserved spot it
  matches. The inner loop in the source does not stop at the first
  match. A name is reported once per occurrence in the request for
  every reserved spot of that name (`ReservedHitsCount`). If names are
  unique within an event, this is once per occurrence in the request
  (`ReservedHitsCountUnique`).

## Model

| member | source | states |
|---|---|---|
| Catalog.EventByIdFirst | main.go:90-100 | The lookup is `None` exactly when no event has the id. Otherwise it is the event at the first position whose id matches. |
| Catalog.SpotsForMembers | main.go:131-136 | The listing holds exactly the store's spots whose event id matches, and is no longer than the store. |
| Catalog.SpotsForConcat | main.go:131-136 | The listing keeps store order: listing `a + b` gives the listing of `a` followed by the listing of `b`. |
| Catalog.SpotsForIsolation | main.go:131-136 | Listing event A never returns a spot of another event B, and every spot of A appears in it. |
| Reservation.MissingMembers | main.go:177-189 | A name appears in the not-found report exactly when it was requested and matches no spot of the event. The report is no longer than the request. |
| Reservation.MissingConcat | main.go:177-189 | The not-found report keeps request order: the report for `a + b` is the report for `a` followed by the report for `b`. |
| Reservation.MissingCount | main.go:177-189 | Repeats are kept: a missing name is reported as many times as it was requested, and a name that exists is never reported. |
| Reservation.MissingEmpty | main.go:186-193 | The existence pass reports nothing exactly when every requested name matches a spot of the event. |
| Reservation.TakenForSpec | main.go:198-205 | Every entry is the requested name, and there is at least one entry exactly when a reserved spot of the event has that name. |
| Reservation.TakenForUnique | main.go:198-205 | If names are unique within each event, a name gets one entry when its spot is reserved and none otherwise. |
| Reservation.ReservedHitsMembers | main.go:196-206 | A name appears in the already-reserved report exactly when it was requested and a reserved spot of the event has that name. |
| Reservation.ReservedHitsConcat | main.go:196-206 | The already-reserved report keeps request order: the report for `a + b` is the report for `a` followed by the report for `b`. |
| Reservation.ReservedHitsCount | main.go:196-206 | A requested name is reported as many times as it was requested, times the number of reserved spots of the event with that name. When the event has two reserved spots with the same name, that name is reported twice per request. |
| Reservation.ReservedHitsCountUnique | main.go:196-206 | If names are unique within each event, a reserved name is reported as many times as it was requested, and no other name is reported. |
| Reservation.ReservedHitsEmpty | main.go:196-210 | The availability pass reports nothing exactly when no spot matched by a requested name is reserved. |
| Reservation.CommitFrame | main.go:213-219 | The commit keeps the store's length and every spot's id, name and event id. Spots of other events, and spots no requested name matches, are unchanged. Every matched spot ends `"reserved"`. |
| Reservation.CommitSameNames | main.go:213-219 | The commit depends only on which names are requested, so reordering or repeating names changes nothing. |
| Reservation.CommitIdempotent | main.go:213-219 | Committing the same batch twice gives the same store as committing it once. |
| Reservation.ReserveUnknownEvent | main.go:164-174 | When no event has the id, the outcome is event-not-found whatever the names are, and the spots are unchanged. |
| Reservation.ReserveAtomic | main.go:171-210 | Every outcome other than success leaves the spots exactly as they were. |
| Reservation.ReserveExistenceFirst | main.go:177-210 | If the event exists and one requested name matches no spot, the outcome is not-found with the full `Missing` report, which includes that name. This holds even if other requested spots are reserved. The spots are unchanged. |
| Reservation.ReserveAlreadyReserved | main.go:196-210 | If every name exists but a requested spot is reserved, the outcome is already-reserved with the full `ReservedHits` report, which names that spot. The spots are unchanged. |
| Reservation.ReserveSucceedsIff | main.go:163-221 | A request succeeds exactly when the event exists, every name matches a spot, and no matching spot is reserved. |
| Reservation.ReserveSuccessEffect | main.go:213-221 | On success, every spot of the event matched by a requested name was not reserved before and differs afterwards only in its status, now `"reserved"`. Every other spot is unchanged. |
| Reservation.ReserveNeverReleases | main.go:213-219 | No request, whatever its outcome, moves a spot out of `"reserved"`, and the store keeps its length. |
| Reservation.ReserveTwice | main.go:196-219 | Once a non-empty batch has succeeded, sending the same batch again gives already-reserved and lists every requested name. |
| Reservation.ReserveEmptyBatch | main.go:177-221 | An empty batch for a known event succeeds and changes nothing. |
| Reservation.JoinConcat | main.go:191 | Joining two non-empty lists puts exactly one separator between their joined forms, as `strings.Join` does. |
| Reservation.RespondCodes | main.go:171-221 | The status code is 201 exactly on success and 400 exactly on already-reserved. It is 404 exactly when the event or a spot was not found. |
| Store.EventStore.constructor | main.go:35-40 | The store starts with the given events and spots, in a fresh array. |
| Store.EventStore.FindEvent | main.go:90-100 | The lookup loop stops at the first matching event and so returns `EventById` of the events. The same loop appears at lines 119-129 and 164-174. |
| Store.EventStore.ListSpots | main.go:119-136 | Returns not-found exactly when the event is unknown. Otherwise it returns `SpotsFor` of the current spots. |
| Store.EventStore.MissingSpots | main.go:177-189 | The nested existence loop, which breaks at the first matching spot, returns `Missing` of the current spots. |
| Store.EventStore.ReservedSpots | main.go:196-206 | The nested availability loop returns `ReservedHits` of the current spots. |
| Store.EventStore.MarkReserved | main.go:213-219 | The commit loop updates the spot array in place by index and leaves it equal to `Commit` of the old spots. |
| Store.EventStore.ReserveSpot | main.go:163-221 | Returns `Decide` of the events and the old spots, checking the event, then existence, then availability. Afterwards the array is `After` of that outcome: the committed spots on success, the old spots otherwise. The events are never modified. |
| Scenarios.ReserveA1 | main.go:163-221 | Reserving the available A1 succeeds. A1 becomes reserved and A2 is unchanged. |
| Scenarios.ReserveA2 | main.go:196-210 | Reserving the reserved A2 is refused with the report `["A2"]`. |
| Scenarios.ReserveA1AndZ9 | main.go:177-193 | Reserving `["A1", "Z9"]` is refused as not found with the report `["Z9"]`, and A1 stays available. |
| Scenarios.ReserveUnknown | main.go:164-174 | A request for event 99, which does not exist, is refused as event-not-found. |
| Scenarios.Answers | main.go:172-221 | The code and message for each outcome of the cases above. |
| Scenarios.TwoMissingNames | main.go:191 | Two missing names are reported as `Spot A3, B1 not found`. |

## Left out

- HTTP routing, response headers and JSON encoding of answers (main.go:49-55, 67-75, 102-103, 138-139) are transport plumbing. `Respond` stands for what `writeResponse` is given.
- `ListEvents` (main.go:72-75) only encodes the `events` field, which every method reads directly.
- Loading the catalog from `data.json` and the start-up panic (main.go:42-47, 58-65) are I/O. The constructor takes the decoded events and spots.
- The path parameter checks (main.go:78-88, 107-117, 143-153) are left out: the empty check, `strconv.Atoi`, and their 400 answers "Event ID is required" and "Invalid event ID". Requests take the already parsed integer id.
- Decoding the request body and its 400 answer (main.go:155-161) is left out. The names come in as a decoded sequence, and a JSON `null` body acts as the empty batch.
- The event's descriptive fields, including the floating-point price, are not kept. The source decides "not found" by comparing the found record with the all-zero `Event{}` (main.go:97, 126, 171). A stored event whose every field is zero would therefore count as not found, while `EventById` reports it as found. No other case differs.
- Go's nil slice (an event with no spots is listed as JSON `null`) is modelled as the empty sequence.
- The shared global store is not synchronised across concurrent requests. The model treats each request as one sequential call.
- Statuses are kept as free strings, as loaded. Only `"reserved"` has meaning, and nothing checks that a status is `"available"`.
- The source does not check at load time that every spot's event id names a loaded event, or that names are unique within an event. The model does not assume either. The lemmas that need unique names take that as a precondition.
