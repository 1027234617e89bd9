/**
 Worked scenarios of the access decision on concrete occupancy texts, with
 five slots and the controller's own allowlist. The texts are renderings of
 small maps, so the map-level theorems answer for them.
 */
module Scenarios {
  import opened Occupancy
  import opened OccupancyMap
  import opened Allowlist
  import opened Access
  import opened MapDecision

  /** One motorcycle, `RFID002`, parked in `vaga_1`. */
  const OneParkedMap: seq<Assignment> := [Assignment(1, "RFID002")]

  /** The text the store returns for `OneParkedMap`. */
  const OneParked: string := "{\"vaga_1\":\"RFID002\"}"

  /** Every slot taken, by identifiers outside the allowlist. */
  const FullMap: seq<Assignment> :=
    [Assignment(1, "A"), Assignment(2, "B"), Assignment(3, "C"), Assignment(4, "D"), Assignment(5, "E")]

  /** The text of `FullMap`: `{"vaga_1":"A","vaga_2":"B",...,"vaga_5":"E"}`. */
  const FullLot: string := Render(FullMap)

  /** An allowlisted identifier arriving at an empty lot enters at `vaga_1`. */
  lemma EmptyLotEntersFirstSlot()
    ensures Decide("RFID002", "{}") == Entry("vaga_1")
  {
  }

  /** An input of three bytes is rejected before any lookup. */
  lemma ShortInputRejected()
    ensures Decide("RFI", FullLot) == Invalid
  {
  }

  /** `OneParked` is the rendering of its map. */
  lemma OneParkedRenders()
    ensures Render(OneParkedMap) == OneParked
  {
    assert SlotName(1) == "vaga_1";
    assert Fields(OneParkedMap) == ["{", "vaga_1", ":", "RFID002", "}"];
  }

  /** Both scenario maps are well formed. */
  lemma ScenarioMapsWellFormed()
    ensures WellFormed(OneParkedMap) && WellFormed(FullMap)
  {
    assert MotoIds[1] == "RFID002";
    AllowlistSearchable("RFID002");
  }

  /** On the map, the motorcycle holding slot 1 leaves through it. */
  lemma HolderLeavesOnMap()
    ensures DecideOnMap("RFID002", OneParkedMap) == Exit("vaga_1")
  {
    assert MotoIds[1] == "RFID002";
    assert OneParkedMap[0].id == "RFID002";
    assert SlotName(1) == "vaga_1";
  }

  /** The motorcycle parked in `vaga_1` leaves through `vaga_1`. */
  lemma HolderLeavesThroughOwnSlot()
    ensures Decide("RFID002", OneParked) == Exit("vaga_1")
  {
    OneParkedRenders();
    ScenarioMapsWellFormed();
    DecideMatchesMap("RFID002", OneParkedMap);
    HolderLeavesOnMap();
  }

  /** On the map, a second authorised motorcycle takes the lowest free slot, `vaga_2`. */
  lemma NewcomerTakesNextSlotOnMap()
    ensures DecideOnMap("RFID003", OneParkedMap) == Entry("vaga_2")
  {
    assert MotoIds[2] == "RFID003";
    assert OneParkedMap[0].slot == 1;
    assert SlotName(2) == "vaga_2";
  }

  /** A second authorised motorcycle arriving while `vaga_1` is taken enters at `vaga_2`. */
  lemma NewcomerTakesNextSlot()
    ensures Decide("RFID003", OneParked) == Entry("vaga_2")
  {
    OneParkedRenders();
    ScenarioMapsWellFormed();
    DecideMatchesMap("RFID003", OneParkedMap);
    NewcomerTakesNextSlotOnMap();
  }

  /** With every slot taken, five key prefixes are counted. */
  lemma FullLotIsFull()
    ensures OccupiedCount(FullLot) == TotalSlots
  {
    ScenarioMapsWellFormed();
    CountMatchesMap(FullMap);
  }

  /** An identifier outside the allowlist is denied at a full lot. */
  lemma UnknownDeniedAtFullLot()
    ensures Decide("RFID999", FullLot) == Denied
  {
    UnknownIdDenied("RFID999", FullLot);
  }

  /** An allowlisted identifier that holds no slot is denied at a full lot. */
  lemma NewcomerDeniedAtFullLot()
    ensures Decide("RFID003", FullLot) == Denied
  {
    ScenarioMapsWellFormed();
    DecideMatchesMap("RFID003", FullMap);
    assert MotoIds[2] == "RFID003";
  }
}
