/** The in-memory store the service answers from: the events, read only,
    and the spots, whose statuses reservations change in place. Each
    method is one of the handler's loops, proved against the functions of
    modules Catalog and Reservation. */
module Store {
  import opened Catalog
  import opened Reservation

  class EventStore {
    var events: seq<Event>
    var spots: array<Spot>

    /** The store as loaded at start-up. */
    constructor (events: seq<Event>, spots: seq<Spot>)
      ensures this.events == events && this.spots[..] == spots && fresh(this.spots)
    {
      this.events := events;
      this.spots := new Spot[|spots|](i requires 0 <= i < |spots| => spots[i]);
    }

    /** The lookup loop: scan the events in order and stop at the first
        whose id matches. */
    method FindEvent(id: int) returns (r: Option<Event>)
      ensures r == EventById(events, id)
    {
      EventByIdFirst(events, id);
      var i := 0;
      while i < |events|
        invariant 0 <= i <= |events|
        invariant forall j :: 0 <= j < i ==> events[j].id != id
      {
        if events[i].id == id {
          return Some(events[i]);
        }
        i := i + 1;
      }
      return None;
    }

    /** The spot listing of an event: not found when the event is unknown,
        otherwise its spots in store order. */
    method ListSpots(eventId: int) returns (r: Option<seq<Spot>>)
      ensures r.None? <==> EventById(events, eventId).None?
      ensures r.Some? ==> r.value == SpotsFor(spots[..], eventId)
    {
      EventByIdFirst(events, eventId);
      var event := FindEvent(eventId);
      if event.None? {
        return None;
      }
      var found: seq<Spot> := [];
      var i := 0;
      while i < spots.Length
        invariant 0 <= i <= spots.Length
        invariant found == SpotsFor(spots[..i], event.value.id)
      {
        assert spots[..i + 1][..i] == spots[..i];
        if spots[i].eventId == event.value.id {
          found := found + [spots[i]];
        }
        i := i + 1;
      }
      assert spots[..spots.Length] == spots[..];
      return Some(found);
    }

    /** The existence pass: every requested name that matches no spot of
        the event, in request order. */
    method MissingSpots(eventId: int, names: seq<string>) returns (missing: seq<string>)
      ensures missing == Missing(names, spots[..], eventId)
    {
      missing := [];
      var k := 0;
      while k < |names|
        invariant 0 <= k <= |names|
        invariant missing == Missing(names[..k], spots[..], eventId)
      {
        var name := names[k];
        var found := false;
        var i := 0;
        while i < spots.Length
          invariant 0 <= i <= spots.Length
          invariant !found
          invariant forall j :: 0 <= j < i ==> !Matches(spots[j], eventId, name)
        {
          if spots[i].eventId == eventId && spots[i].name == name {
            found := true;
            break;
          }
          i := i + 1;
        }
        assert found ==> Matches(spots[..][i], eventId, name);
        assert !found ==> forall j :: 0 <= j < spots.Length ==> !Matches(spots[..][j], eventId, name);
        assert found == HasSpot(spots[..], eventId, name);
        assert names[..k + 1][..k] == names[..k];
        if !found {
          missing := missing + [name];
        }
        k := k + 1;
      }
      assert names[..|names|] == names;
    }

    /** The availability pass: each requested name once for every reserved
        spot of the event it matches, in request order. */
    method ReservedSpots(eventId: int, names: seq<string>) returns (taken: seq<string>)
      ensures taken == ReservedHits(names, spots[..], eventId)
    {
      taken := [];
      var k := 0;
      while k < |names|
        invariant 0 <= k <= |names|
        invariant taken == ReservedHits(names[..k], spots[..], eventId)
      {
        var name := names[k];
        ghost var before := taken;
        var i := 0;
        while i < spots.Length
          invariant 0 <= i <= spots.Length
          invariant taken == before + TakenFor(spots[..i], eventId, name)
        {
          assert spots[..i + 1][..i] == spots[..i];
          if spots[i].eventId == eventId {
            if spots[i].name == name && spots[i].status == StatusReserved {
              taken := taken + [name];
            }
          }
          i := i + 1;
        }
        assert spots[..spots.Length] == spots[..];
        assert names[..k + 1][..k] == names[..k];
        k := k + 1;
      }
      assert names[..|names|] == names;
    }

    /** The commit loop: for each requested name, mark reserved, in place,
        every spot of the event with that name. */
    method MarkReserved(eventId: int, names: seq<string>)
      modifies spots
      ensures spots[..] == Commit(old(spots[..]), eventId, names)
    {
      var k := 0;
      while k < |names|
        invariant 0 <= k <= |names|
        invariant forall j :: 0 <= j < spots.Length ==> spots[j] == MarkFor(old(spots[j]), eventId, names[..k])
      {
        assert names[..k + 1] == names[..k] + [names[k]];
        var i := 0;
        while i < spots.Length
          invariant 0 <= i <= spots.Length
          invariant forall j :: 0 <= j < i ==> spots[j] == MarkFor(old(spots[j]), eventId, names[..k + 1])
          invariant forall j :: i <= j < spots.Length ==> spots[j] == MarkFor(old(spots[j]), eventId, names[..k])
        {
          if spots[i].eventId == eventId && spots[i].name == names[k] {
            spots[i] := spots[i].(status := StatusReserved);
          }
          i := i + 1;
        }
        k := k + 1;
      }
      assert names[..|names|] == names;
    }

    /** A batch reservation: resolve the event, run the existence pass,
        then the availability pass, and commit only when both report
        nothing. The events are never touched; the spots change only on
        success. */
    method ReserveSpot(eventId: int, names: seq<string>) returns (outcome: Outcome)
      modifies spots
      ensures outcome == Decide(events, old(spots[..]), eventId, names)
      ensures spots[..] == After(old(spots[..]), eventId, names, outcome)
    {
      EventByIdFirst(events, eventId);
      var event := FindEvent(eventId);
      if event.None? {
        return EventNotFound;
      }
      var missing := MissingSpots(event.value.id, names);
      if |missing| > 0 {
        return SpotsNotFound(missing);
      }
      var taken := ReservedSpots(event.value.id, names);
      if |taken| > 0 {
        return SpotsAlreadyReserved(taken);
      }
      MarkReserved(event.value.id, names);
      return SpotsReserved;
    }
  }
}
