/** The catalog's records and the two read lookups over them: the event
    with a given id, and the spots that belong to an event. */
module Catalog {

  datatype Option<T> = None | Some(value: T)

  /** An event. Only its identity takes part in the lookups and in
      reservations; the descriptive fields (name, organization, date,
      price, rating, image URL, creation time, location) are not kept. */
  datatype Event = Event(id: int)

  /** A reservable spot; `name` is unique within its event at best, and
      `status` is the free-form string the catalog was loaded with. */
  datatype Spot = Spot(id: int, name: string, status: string, eventId: int)

  const StatusReserved: string := "reserved"

  /** The event that the lookup loop stops at: the first one whose id is
      `id`, or `None` when no event has that id (see `EventByIdFirst`).
      The handlers detect "not found" by comparing the result with the
      all-zero event record (main.go:97, 126, 171), so a stored event whose
      every field is zero would also count as not found; with only the id
      kept, the model reports such an event as found. */
  function EventById(events: seq<Event>, id: int): Option<Event> {
    if |events| == 0 then None
    else if events[0].id == id then Some(events[0])
    else EventById(events[1..], id)
  }

  /** The lookup finds nothing exactly when no event has the id, and
      otherwise finds the event at the first position with that id. */
  lemma {:induction false} EventByIdFirst(events: seq<Event>, id: int)
    ensures EventById(events, id).None? <==> forall i :: 0 <= i < |events| ==> events[i].id != id
    ensures EventById(events, id).Some? ==>
      exists k :: 0 <= k < |events| && EventById(events, id).value == events[k] &&
                  events[k].id == id && forall j :: 0 <= j < k ==> events[j].id != id
    decreases |events|
  {
    if |events| > 0 && events[0].id != id {
      EventByIdFirst(events[1..], id);
      assert forall i :: 1 <= i < |events| ==> events[i] == events[1..][i - 1];
      if EventById(events, id).Some? {
        var k :| 0 <= k < |events| - 1 && EventById(events, id).value == events[1..][k] &&
                 events[1..][k].id == id && forall j :: 0 <= j < k ==> events[1..][j].id != id;
        assert events[k + 1] == events[1..][k];
      }
    }
  }

  /** The spots of event `eventId`, in store order. */
  function SpotsFor(spots: seq<Spot>, eventId: int): seq<Spot> {
    if |spots| == 0 then []
    else
      var n := |spots| - 1;
      SpotsFor(spots[..n], eventId) + (if spots[n].eventId == eventId then [spots[n]] else [])
  }

  /** The listing holds exactly the store's spots of that event, and is
      no longer than the store. */
  lemma {:induction false} SpotsForMembers(spots: seq<Spot>, eventId: int)
    ensures |SpotsFor(spots, eventId)| <= |spots|
    ensures forall s :: s in SpotsFor(spots, eventId) <==> s in spots && s.eventId == eventId
    decreases |spots|
  {
    if |spots| > 0 {
      var n := |spots| - 1;
      assert spots == spots[..n] + [spots[n]];
      SpotsForMembers(spots[..n], eventId);
    }
  }

  /** Filtering distributes over concatenation: the listing keeps the
      store's order, splitting the store anywhere. */
  lemma {:induction false} SpotsForConcat(a: seq<Spot>, b: seq<Spot>, eventId: int)
    ensures SpotsFor(a + b, eventId) == SpotsFor(a, eventId) + SpotsFor(b, eventId)
    decreases |b|
  {
    if |b| == 0 {
      assert a + b == a;
    } else {
      var n := |b| - 1;
      assert (a + b)[..|a + b| - 1] == a + b[..n];
      assert (a + b)[|a + b| - 1] == b[n];
      SpotsForConcat(a, b[..n], eventId);
    }
  }

  /** Event isolation: listing event A never shows a spot of event B, and
      every spot of event A appears. */
  lemma SpotsForIsolation(spots: seq<Spot>, a: int, b: int)
    requires a != b
    ensures forall s :: s in SpotsFor(spots, a) ==> s !in SpotsFor(spots, b)
    ensures forall i :: 0 <= i < |spots| && spots[i].eventId == a ==> spots[i] in SpotsFor(spots, a)
  {
    SpotsForMembers(spots, a);
    SpotsForMembers(spots, b);
  }
}
