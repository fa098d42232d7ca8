/** Worked cases of the reservation rules on a small catalog: event 1
    with spot A1 available and spot A2 reserved. */
module Scenarios {
  import opened Catalog
  import opened Reservation

  const Events: seq<Event> := [Event(1)]
  const A1: Spot := Spot(10, "A1", "available", 1)
  const A2: Spot := Spot(11, "A2", StatusReserved, 1)
  const Spots: seq<Spot> := [A1, A2]

  /** Reserving A1 succeeds and leaves A1 reserved and A2 as
      it was. */
  lemma ReserveA1()
    ensures Decide(Events, Spots, 1, ["A1"]) == SpotsReserved
    ensures After(Spots, 1, ["A1"], SpotsReserved) == [A1.(status := StatusReserved), A2]
  {
    assert Matches(Spots[0], 1, "A1");
    ReserveSucceedsIff(Events, Spots, 1, ["A1"]);
  }

  /** Reserving the already reserved A2 is refused as already reserved. */
  lemma ReserveA2()
    ensures Decide(Events, Spots, 1, ["A2"]) == SpotsAlreadyReserved(["A2"])
  {
    assert EventById(Events, 1) == Some(Event(1));
    assert Missing(["A2"], Spots, 1) == [] by {
      assert ["A2"][..0] == [];
      assert Matches(Spots[1], 1, "A2");
    }
    assert ReservedHits(["A2"], Spots, 1) == ["A2"] by {
      assert ["A2"][..0] == [];
      assert TakenFor(Spots[..1], 1, "A2") == [] by {
        assert Spots[..1] == [A1] && [A1][..0] == [];
      }
    }
  }

  /** A batch that names the available A1 and the unknown Z9 is refused
      as not found naming only Z9, and A1 stays available. */
  lemma ReserveA1AndZ9()
    ensures Decide(Events, Spots, 1, ["A1", "Z9"]) == SpotsNotFound(["Z9"])
    ensures After(Spots, 1, ["A1", "Z9"], SpotsNotFound(["Z9"])) == Spots
  {
    assert HasSpot(Spots, 1, "A1") by {
      assert Matches(Spots[0], 1, "A1");
    }
    assert !HasSpot(Spots, 1, "Z9") by {
      assert "Z9"[0] != "A1"[0] && "Z9"[0] != "A2"[0];
    }
    assert ["A1", "Z9"][..1] == ["A1"] && ["A1"][..0] == [];
    assert Missing(["A1"], Spots, 1) == [];
    assert Missing(["A1", "Z9"], Spots, 1) == ["Z9"];
  }

  /** An unknown event is refused as such whatever spots are named. */
  lemma ReserveUnknown()
    ensures Decide(Events, Spots, 99, ["A1"]) == EventNotFound
  {
  }

  /** The code and message answered in each of the cases above. */
  lemma Answers()
    ensures Respond(SpotsReserved) == Response(201, "Spots reserved successfully")
    ensures Respond(SpotsAlreadyReserved(["A2"])) == Response(400, "Spot A2 already reserved")
    ensures Respond(SpotsNotFound(["Z9"])) == Response(404, "Spot Z9 not found")
    ensures Respond(EventNotFound) == Response(404, "Event not found")
  {
  }

  /** Several names in a report are joined with a comma and a space. */
  lemma TwoMissingNames()
    ensures Respond(SpotsNotFound(["A3", "B1"])).message == "Spot A3, B1 not found"
  {
    assert ["A3", "B1"][..1] == ["A3"];
  }
}
