/** The batch reservation rules as functions of the catalog's state:
    the existence pass, the availability pass, the commit, the decision
    between the four outcomes, and the message each outcome is answered
    with. The class in module Store runs them as loops over its array. */
module Reservation {
  import opened Catalog

  // ---------------------------------------------------------------------
  // Matching a requested name against the store

  /** Spot `s` is the spot named `name` of event `eventId`. */
  predicate Matches(s: Spot, eventId: int, name: string) {
    s.eventId == eventId && s.name == name
  }

  /** Some spot of event `eventId` is named `name`. */
  predicate HasSpot(spots: seq<Spot>, eventId: int, name: string) {
    exists i :: 0 <= i < |spots| && Matches(spots[i], eventId, name)
  }

  /** Some spot of event `eventId` named `name` is already reserved. */
  predicate IsTaken(spots: seq<Spot>, eventId: int, name: string) {
    exists i :: 0 <= i < |spots| && Matches(spots[i], eventId, name) &&
                spots[i].status == StatusReserved
  }

  /** Within every event, no two spots share a name. Nothing in the
      service requires or checks this; the lemmas that use it take it as
      a precondition. */
  predicate NamesUniquePerEvent(spots: seq<Spot>) {
    forall i, j ::
      (0 <= i < |spots| && 0 <= j < |spots| &&
       spots[i].eventId == spots[j].eventId && spots[i].name == spots[j].name) ==> i == j
  }

  // ---------------------------------------------------------------------
  // Phase 1: existence

  /** The requested names that match no spot of the event, in request
      order, a repeated name once per occurrence. */
  function Missing(names: seq<string>, spots: seq<Spot>, eventId: int): seq<string> {
    if |names| == 0 then []
    else
      var k := |names| - 1;
      Missing(names[..k], spots, eventId) +
        (if HasSpot(spots, eventId, names[k]) then [] else [names[k]])
  }

  /** A name is reported missing exactly when it was requested and
      matches no spot of the event; the report is no longer than the
      request. */
  lemma {:induction false} MissingMembers(names: seq<string>, spots: seq<Spot>, eventId: int)
    ensures |Missing(names, spots, eventId)| <= |names|
    ensures forall x :: x in Missing(names, spots, eventId) <==> x in names && !HasSpot(spots, eventId, x)
    decreases |names|
  {
    if |names| > 0 {
      var k := |names| - 1;
      assert names == names[..k] + [names[k]];
      MissingMembers(names[..k], spots, eventId);
    }
  }

  /** Request order is kept: the report for a batch is the report for its
      first part followed by the report for the rest. */
  lemma {:induction false} MissingConcat(a: seq<string>, b: seq<string>, spots: seq<Spot>, eventId: int)
    ensures Missing(a + b, spots, eventId) == Missing(a, spots, eventId) + Missing(b, spots, eventId)
    decreases |b|
  {
    if |b| == 0 {
      assert a + b == a;
    } else {
      var n := |b| - 1;
      assert (a + b)[..|a + b| - 1] == a + b[..n];
      assert (a + b)[|a + b| - 1] == b[n];
      MissingConcat(a, b[..n], spots, eventId);
    }
  }

  /** Duplicates are kept: a missing name is reported as often as it was
      requested, and a name that exists is never reported. */
  lemma {:induction false} MissingCount(names: seq<string>, spots: seq<Spot>, eventId: int, x: string)
    ensures multiset(Missing(names, spots, eventId))[x] ==
            if HasSpot(spots, eventId, x) then 0 else multiset(names)[x]
    decreases |names|
  {
    if |names| > 0 {
      var k := |names| - 1;
      assert names == names[..k] + [names[k]];
      MissingCount(names[..k], spots, eventId, x);
    }
  }

  /** The existence pass reports nothing exactly when every requested
      name matches a spot of the event. */
  lemma MissingEmpty(names: seq<string>, spots: seq<Spot>, eventId: int)
    ensures Missing(names, spots, eventId) == [] <==>
            forall i :: 0 <= i < |names| ==> HasSpot(spots, eventId, names[i])
  {
    MissingMembers(names, spots, eventId);
    var m := Missing(names, spots, eventId);
    if m != [] {
      assert m[0] in m;
    }
    if m == [] {
      forall i | 0 <= i < |names| ensures HasSpot(spots, eventId, names[i]) {
        assert names[i] in names;
      }
    }
  }

  // ---------------------------------------------------------------------
  // Phase 2: availability

  /** One entry `name` for each reserved spot of the event named `name`,
      in store order: the inner loop appends the name at every such spot
      and does not stop at the first. */
  function TakenFor(spots: seq<Spot>, eventId: int, name: string): seq<string> {
    if |spots| == 0 then []
    else
      var n := |spots| - 1;
      TakenFor(spots[..n], eventId, name) +
        (if Matches(spots[n], eventId, name) && spots[n].status == StatusReserved then [name] else [])
  }

  /** Every entry is the requested name, and there is one exactly when
      some reserved spot of the event has that name. */
  lemma {:induction false} TakenForSpec(spots: seq<Spot>, eventId: int, name: string)
    ensures forall x :: x in TakenFor(spots, eventId, name) ==> x == name
    ensures TakenFor(spots, eventId, name) != [] <==> IsTaken(spots, eventId, name)
    decreases |spots|
  {
    if |spots| > 0 {
      var n := |spots| - 1;
      TakenForSpec(spots[..n], eventId, name);
      assert forall i :: 0 <= i < n ==> spots[..n][i] == spots[i];
    }
  }

  /** With names unique within each event, a requested name is reported
      once when its spot is reserved and not at all otherwise. */
  lemma {:induction false} TakenForUnique(spots: seq<Spot>, eventId: int, name: string)
    requires NamesUniquePerEvent(spots)
    ensures TakenFor(spots, eventId, name) == if IsTaken(spots, eventId, name) then [name] else []
    decreases |spots|
  {
    if |spots| > 0 {
      var n := |spots| - 1;
      assert NamesUniquePerEvent(spots[..n]) by {
        forall i, j | 0 <= i < n && 0 <= j < n && spots[..n][i].eventId == spots[..n][j].eventId &&
                      spots[..n][i].name == spots[..n][j].name
          ensures i == j
        {
          assert spots[..n][i] == spots[i] && spots[..n][j] == spots[j];
        }
      }
      TakenForUnique(spots[..n], eventId, name);
      TakenForSpec(spots[..n], eventId, name);
      assert forall i :: 0 <= i < n ==> spots[..n][i] == spots[i];
    }
  }

  /** The names the availability pass reports: for each requested name in
      order, its `TakenFor` entries. */
  function ReservedHits(names: seq<string>, spots: seq<Spot>, eventId: int): seq<string> {
    if |names| == 0 then []
    else
      var k := |names| - 1;
      ReservedHits(names[..k], spots, eventId) + TakenFor(spots, eventId, names[k])
  }

  /** The availability pass reports exactly the requested names that have
      a reserved spot in the event. */
  lemma {:induction false} ReservedHitsMembers(names: seq<string>, spots: seq<Spot>, eventId: int)
    ensures forall x :: x in ReservedHits(names, spots, eventId) <==> x in names && IsTaken(spots, eventId, x)
    decreases |names|
  {
    if |names| > 0 {
      var k := |names| - 1;
      var t := TakenFor(spots, eventId, names[k]);
      assert names == names[..k] + [names[k]];
      TakenForSpec(spots, eventId, names[k]);
      assert t != [] ==> t[0] in t;
      ReservedHitsMembers(names[..k], spots, eventId);
    }
  }

  /** One more requested name adds its entries at the end of the report. */
  lemma ReservedHitsSnoc(names: seq<string>, y: string, spots: seq<Spot>, eventId: int)
    ensures ReservedHits(names + [y], spots, eventId) ==
            ReservedHits(names, spots, eventId) + TakenFor(spots, eventId, y)
  {
    assert (names + [y])[..|names|] == names;
  }

  /** Request order is kept by the availability report as well. */
  lemma {:induction false} ReservedHitsConcat(a: seq<string>, b: seq<string>, spots: seq<Spot>, eventId: int)
    ensures ReservedHits(a + b, spots, eventId) ==
            ReservedHits(a, spots, eventId) + ReservedHits(b, spots, eventId)
    decreases |b|
  {
    if |b| == 0 {
      assert a + b == a;
    } else {
      var n := |b| - 1;
      assert a + b == (a + b[..n]) + [b[n]];
      assert b == b[..n] + [b[n]];
      ReservedHitsConcat(a, b[..n], spots, eventId);
      ReservedHitsSnoc(a + b[..n], b[n], spots, eventId);
      ReservedHitsSnoc(b[..n], b[n], spots, eventId);
    }
  }

  /** A sequence all of whose entries are `x` holds `x` once per entry. */
  lemma {:induction false} AllSameCount(t: seq<string>, x: string)
    requires forall y :: y in t ==> y == x
    ensures multiset(t)[x] == |t|
    decreases |t|
  {
    if |t| > 0 {
      var n := |t| - 1;
      assert t == t[..n] + [t[n]];
      assert t[n] in t;
      forall y | y in t[..n] ensures y == x {
        assert y in t;
      }
      AllSameCount(t[..n], x);
    }
  }

  lemma MulSucc(c: int, m: int)
    ensures c * m + m == (c + 1) * m
  {
  }

  /** A requested name is reported once per occurrence in the request for
      every reserved spot of the event with that name, so duplicate spot
      names within an event repeat it; no other name is reported. */
  lemma {:induction false} ReservedHitsCount(names: seq<string>, spots: seq<Spot>, eventId: int, x: string)
    ensures multiset(ReservedHits(names, spots, eventId))[x] ==
            multiset(names)[x] * |TakenFor(spots, eventId, x)|
    decreases |names|
  {
    if |names| > 0 {
      var k := |names| - 1;
      var t := TakenFor(spots, eventId, names[k]);
      assert names == names[..k] + [names[k]];
      ReservedHitsCount(names[..k], spots, eventId, x);
      TakenForSpec(spots, eventId, names[k]);
      var c := multiset(names[..k])[x];
      var m := |TakenFor(spots, eventId, x)|;
      assert multiset(ReservedHits(names, spots, eventId))[x] ==
             multiset(ReservedHits(names[..k], spots, eventId))[x] + multiset(t)[x];
      if names[k] == x {
        AllSameCount(t, x);
        assert multiset(names)[x] == c + 1;
        MulSucc(c, m);
      } else {
        assert x !in t;
        assert multiset(names)[x] == c;
      }
    }
  }

  /** With names unique within each event, the availability pass reports
      a reserved name exactly as often as it was requested. */
  lemma ReservedHitsCountUnique(names: seq<string>, spots: seq<Spot>, eventId: int, x: string)
    requires NamesUniquePerEvent(spots)
    ensures multiset(ReservedHits(names, spots, eventId))[x] ==
            if IsTaken(spots, eventId, x) then multiset(names)[x] else 0
  {
    ReservedHitsCount(names, spots, eventId, x);
    TakenForUnique(spots, eventId, x);
    var c := multiset(names)[x];
    assert c * 1 == c && c * 0 == 0;
  }

  /** The availability pass reports nothing exactly when no spot of the
      event that a requested name matches is reserved. */
  lemma ReservedHitsEmpty(names: seq<string>, spots: seq<Spot>, eventId: int)
    ensures ReservedHits(names, spots, eventId) == [] <==>
            forall i, j :: 0 <= i < |names| && 0 <= j < |spots| && Matches(spots[j], eventId, names[i]) ==>
              spots[j].status != StatusReserved
  {
    ReservedHitsMembers(names, spots, eventId);
    var h := ReservedHits(names, spots, eventId);
    if h != [] {
      assert h[0] in h;
    }
    if h == [] {
      forall i, j | 0 <= i < |names| && 0 <= j < |spots| && Matches(spots[j], eventId, names[i])
        ensures spots[j].status != StatusReserved
      {
        assert names[i] in names;
      }
    }
  }

  // ---------------------------------------------------------------------
  // Phase 3: commit

  /** Spot `s` after the commit loop has gone through `names`: a spot of
      the event that some requested name matches is reserved. */
  function MarkFor(s: Spot, eventId: int, names: seq<string>): Spot {
    if s.eventId == eventId && s.name in names then s.(status := StatusReserved) else s
  }

  /** The store after the commit loop, spot by spot. */
  function Commit(spots: seq<Spot>, eventId: int, names: seq<string>): seq<Spot> {
    seq(|spots|, i requires 0 <= i < |spots| => MarkFor(spots[i], eventId, names))
  }

  /** The commit changes only the status of requested spots of the event:
      the store keeps its length, every spot its id, name and event, and
      any spot another event owns or no requested name matches is left
      exactly as it was. */
  lemma CommitFrame(spots: seq<Spot>, eventId: int, names: seq<string>)
    ensures |Commit(spots, eventId, names)| == |spots|
    ensures forall i :: 0 <= i < |spots| ==>
      var c := Commit(spots, eventId, names)[i];
      c.id == spots[i].id && c.name == spots[i].name && c.eventId == spots[i].eventId
    ensures forall i :: 0 <= i < |spots| && (spots[i].eventId != eventId || spots[i].name !in names) ==>
      Commit(spots, eventId, names)[i] == spots[i]
    ensures forall i :: 0 <= i < |spots| && spots[i].eventId == eventId && spots[i].name in names ==>
      Commit(spots, eventId, names)[i].status == StatusReserved
  {
  }

  /** The commit depends only on which names are requested, not on their
      order or repetition: a repeated name is a harmless re-application. */
  lemma CommitSameNames(spots: seq<Spot>, eventId: int, a: seq<string>, b: seq<string>)
    requires forall x :: x in a <==> x in b
    ensures Commit(spots, eventId, a) == Commit(spots, eventId, b)
  {
  }

  /** Committing the same batch twice is the same as committing it once. */
  lemma CommitIdempotent(spots: seq<Spot>, eventId: int, names: seq<string>)
    ensures Commit(Commit(spots, eventId, names), eventId, names) == Commit(spots, eventId, names)
  {
  }

  // ---------------------------------------------------------------------
  // The whole request

  /** What a reservation request is answered with. */
  datatype Outcome =
    | EventNotFound
    | SpotsNotFound(missing: seq<string>)
    | SpotsAlreadyReserved(taken: seq<string>)
    | SpotsReserved

  /** The outcome of `reserve(eventId, names)` against the given state:
      the event is resolved first, then existence, then availability. */
  function Decide(events: seq<Event>, spots: seq<Spot>, eventId: int, names: seq<string>): Outcome {
    if EventById(events, eventId).None? then EventNotFound
    else
      var missing := Missing(names, spots, eventId);
      if |missing| > 0 then SpotsNotFound(missing)
      else
        var taken := ReservedHits(names, spots, eventId);
        if |taken| > 0 then SpotsAlreadyReserved(taken)
        else SpotsReserved
  }

  /** The spots after a request decided as `outcome`. */
  function After(spots: seq<Spot>, eventId: int, names: seq<string>, outcome: Outcome): seq<Spot> {
    if outcome.SpotsReserved? then Commit(spots, eventId, names) else spots
  }

  /** An unknown event is reported as such whatever names are requested,
      and nothing changes. */
  lemma ReserveUnknownEvent(events: seq<Event>, spots: seq<Spot>, eventId: int, names: seq<string>)
    requires forall i :: 0 <= i < |events| ==> events[i].id != eventId
    ensures Decide(events, spots, eventId, names) == EventNotFound
    ensures After(spots, eventId, names, Decide(events, spots, eventId, names)) == spots
  {
    EventByIdFirst(events, eventId);
  }

  /** Atomicity: every outcome other than success leaves the spots as
      they were. */
  lemma ReserveAtomic(events: seq<Event>, spots: seq<Spot>, eventId: int, names: seq<string>)
    requires !Decide(events, spots, eventId, names).SpotsReserved?
    ensures After(spots, eventId, names, Decide(events, spots, eventId, names)) == spots
  {
  }

  /** Complete error reporting, existence first: when the event exists and
      some requested name matches none of its spots, the request fails as
      not found, whatever the availability of the other spots, and the
      report lists precisely the unmatched names. */
  lemma ReserveExistenceFirst(events: seq<Event>, spots: seq<Spot>, eventId: int, names: seq<string>, i: int)
    requires EventById(events, eventId).Some?
    requires 0 <= i < |names| && !HasSpot(spots, eventId, names[i])
    ensures Decide(events, spots, eventId, names) == SpotsNotFound(Missing(names, spots, eventId))
    ensures names[i] in Missing(names, spots, eventId)
    ensures After(spots, eventId, names, Decide(events, spots, eventId, names)) == spots
  {
    MissingMembers(names, spots, eventId);
    assert names[i] in names;
  }

  /** When every requested name exists but a matching spot is reserved,
      the request fails as already reserved, the report names that spot,
      and nothing changes. */
  lemma ReserveAlreadyReserved(events: seq<Event>, spots: seq<Spot>, eventId: int, names: seq<string>,
                               i: int, j: int)
    requires EventById(events, eventId).Some?
    requires forall k :: 0 <= k < |names| ==> HasSpot(spots, eventId, names[k])
    requires 0 <= i < |names| && 0 <= j < |spots| && Matches(spots[j], eventId, names[i]) &&
             spots[j].status == StatusReserved
    ensures Decide(events, spots, eventId, names) == SpotsAlreadyReserved(ReservedHits(names, spots, eventId))
    ensures names[i] in ReservedHits(names, spots, eventId)
    ensures After(spots, eventId, names, Decide(events, spots, eventId, names)) == spots
  {
    MissingEmpty(names, spots, eventId);
    ReservedHitsMembers(names, spots, eventId);
    assert names[i] in names;
    assert IsTaken(spots, eventId, names[i]);
  }

  /** A request succeeds exactly when the event exists, every requested
      name matches one of its spots, and none of the matching spots is
      reserved. */
  lemma ReserveSucceedsIff(events: seq<Event>, spots: seq<Spot>, eventId: int, names: seq<string>)
    ensures Decide(events, spots, eventId, names) == SpotsReserved <==>
      EventById(events, eventId).Some? &&
      (forall i :: 0 <= i < |names| ==> HasSpot(spots, eventId, names[i])) &&
      (forall i, j :: 0 <= i < |names| && 0 <= j < |spots| && Matches(spots[j], eventId, names[i]) ==>
         spots[j].status != StatusReserved)
  {
    MissingEmpty(names, spots, eventId);
    ReservedHitsEmpty(names, spots, eventId);
  }

  /** On success every spot of the event that a requested name matches
      goes from a status other than reserved to reserved, and every other
      spot is left as it was. */
  lemma ReserveSuccessEffect(events: seq<Event>, spots: seq<Spot>, eventId: int, names: seq<string>)
    requires Decide(events, spots, eventId, names) == SpotsReserved
    ensures var after := After(spots, eventId, names, SpotsReserved);
      |after| == |spots| &&
      (forall j :: 0 <= j < |spots| && spots[j].eventId == eventId && spots[j].name in names ==>
         spots[j].status != StatusReserved && after[j] == spots[j].(status := StatusReserved)) &&
      (forall j :: 0 <= j < |spots| && !(spots[j].eventId == eventId && spots[j].name in names) ==>
         after[j] == spots[j])
  {
    ReservedHitsEmpty(names, spots, eventId);
    forall j | 0 <= j < |spots| && spots[j].eventId == eventId && spots[j].name in names
      ensures spots[j].status != StatusReserved
    {
      var i :| 0 <= i < |names| && names[i] == spots[j].name;
      assert Matches(spots[j], eventId, names[i]);
    }
  }

  /** One-way transition: no request, whatever its outcome, moves a spot
      out of reserved. */
  lemma ReserveNeverReleases(events: seq<Event>, spots: seq<Spot>, eventId: int, names: seq<string>)
    ensures var after := After(spots, eventId, names, Decide(events, spots, eventId, names));
      |after| == |spots| &&
      forall j :: 0 <= j < |spots| && spots[j].status == StatusReserved ==> after[j].status == StatusReserved
  {
  }

  /** No double booking: once a non-empty batch has succeeded, the same
      batch sent again is refused as already reserved, listing every
      requested name. */
  lemma ReserveTwice(events: seq<Event>, spots: seq<Spot>, eventId: int, names: seq<string>)
    requires Decide(events, spots, eventId, names) == SpotsReserved
    requires |names| > 0
    ensures var after := After(spots, eventId, names, SpotsReserved);
      Decide(events, after, eventId, names) == SpotsAlreadyReserved(ReservedHits(names, after, eventId)) &&
      forall x :: x in names ==> x in ReservedHits(names, after, eventId)
  {
    var after := Commit(spots, eventId, names);
    MissingEmpty(names, spots, eventId);
    forall k | 0 <= k < |names| ensures HasSpot(after, eventId, names[k]) {
      var j :| 0 <= j < |spots| && Matches(spots[j], eventId, names[k]);
      assert Matches(after[j], eventId, names[k]);
    }
    forall x | x in names ensures IsTaken(after, eventId, x) {
      var k :| 0 <= k < |names| && names[k] == x;
      var j :| 0 <= j < |spots| && Matches(spots[j], eventId, names[k]);
      assert Matches(after[j], eventId, x) && after[j].status == StatusReserved;
    }
    ReservedHitsMembers(names, after, eventId);
    var j :| 0 <= j < |spots| && Matches(spots[j], eventId, names[0]);
    assert Matches(after[j], eventId, names[0]);
    ReserveAlreadyReserved(events, after, eventId, names, 0, j);
  }

  /** An empty batch for a known event succeeds and changes nothing. */
  lemma ReserveEmptyBatch(events: seq<Event>, spots: seq<Spot>, eventId: int)
    requires EventById(events, eventId).Some?
    ensures Decide(events, spots, eventId, []) == SpotsReserved
    ensures After(spots, eventId, [], SpotsReserved) == spots
  {
  }

  // ---------------------------------------------------------------------
  // The answer sent back

  const StatusCreated := 201
  const StatusBadRequest := 400
  const StatusNotFound := 404

  datatype Response = Response(code: int, message: string)

  /** The pieces of `parts` with `sep` between neighbours. */
  function Join(parts: seq<string>, sep: string): string {
    if |parts| == 0 then ""
    else if |parts| == 1 then parts[0]
    else Join(parts[..|parts| - 1], sep) + sep + parts[|parts| - 1]
  }

  /** Joining two non-empty lists puts one separator between them. */
  lemma {:induction false} JoinConcat(a: seq<string>, b: seq<string>, sep: string)
    requires |a| > 0 && |b| > 0
    ensures Join(a + b, sep) == Join(a, sep) + sep + Join(b, sep)
    decreases |b|
  {
    var n := |b| - 1;
    assert (a + b)[..|a + b| - 1] == a + b[..n];
    assert (a + b)[|a + b| - 1] == b[n];
    if n == 0 {
      assert a + b[..n] == a;
    } else {
      JoinConcat(a, b[..n], sep);
    }
  }

  /** The status code and message the handler writes for an outcome. */
  function Respond(outcome: Outcome): Response {
    match outcome
    case EventNotFound => Response(StatusNotFound, "Event not found")
    case SpotsNotFound(missing) => Response(StatusNotFound, "Spot " + Join(missing, ", ") + " not found")
    case SpotsAlreadyReserved(taken) => Response(StatusBadRequest, "Spot " + Join(taken, ", ") + " already reserved")
    case SpotsReserved => Response(StatusCreated, "Spots reserved successfully")
  }

  /** The status code tells success (201) from a conflicting spot (400)
      from an unknown event or spot (404); the two 404 cases differ only
      in their message. */
  lemma RespondCodes(events: seq<Event>, spots: seq<Spot>, eventId: int, names: seq<string>)
    ensures var code := Respond(Decide(events, spots, eventId, names)).code;
      (code == StatusCreated <==> Decide(events, spots, eventId, names).SpotsReserved?) &&
      (code == StatusBadRequest <==> Decide(events, spots, eventId, names).SpotsAlreadyReserved?) &&
      (code == StatusNotFound <==> Decide(events, spots, eventId, names).EventNotFound? ||
                                   Decide(events, spots, eventId, names).SpotsNotFound?)
  {
  }
}
