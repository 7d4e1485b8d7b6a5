/** A multi-level parking lot: spots that hold at most one vehicle, levels
  * that hand out runs of consecutive fitting spots, and the lot that issues
  * and redeems tickets. */
module Parking {
  import opened Wrappers

  datatype VehicleType = Motorcycle | Car | Bus

  datatype SpotType = MotorcycleSpot | CarSpot

  /** A vehicle: its plate and its type. */
  datatype Vehicle = Vehicle(plate: string, kind: VehicleType)

  /** `getSpotsNeeded`: a bus takes five spots, a car or a motorcycle one. */
  function SpotsNeeded(v: Vehicle): (n: nat)
    ensures n >= 1
    ensures n > 1 <==> v.kind == Bus
  {
    match v.kind
    case Bus => 5
    case _ => 1
  }

  /** A spot id "L<level>-<index>", as its two numbers. */
  datatype SpotId = SpotId(level: int, index: int)

  class ParkingSpot {
    const id: SpotId
    const kind: SpotType
    var vehicle: Option<Vehicle>

    constructor (id: SpotId, kind: SpotType)
      ensures this.id == id && this.kind == kind && vehicle == None
    {
      this.id := id;
      this.kind := kind;
      vehicle := None;
    }

    predicate IsFree()
      reads this
    {
      vehicle == None
    }

    /** `canFit`: a motorcycle fits any spot; a car or a bus needs a car spot. */
    function CanFit(v: Vehicle): (b: bool)
      ensures v.kind == Motorcycle ==> b
      ensures v.kind != Motorcycle ==> (b <==> kind == CarSpot)
    {
      v.kind == Motorcycle || kind == CarSpot
    }

    method Assign(v: Vehicle)
      modifies this
      ensures vehicle == Some(v)
    {
      vehicle := Some(v);
    }

    method Free()
      modifies this
      ensures vehicle == None
    {
      vehicle := None;
    }
  }

  /** A level that searches its spots for a run of consecutive fitting spots. */
  class Level {
    const levelNumber: int
    const spots: seq<ParkingSpot>

    constructor (levelNumber: int, spots: seq<ParkingSpot>)
      ensures this.levelNumber == levelNumber && this.spots == spots
    {
      this.levelNumber := levelNumber;
      this.spots := spots;
    }

    /** The need spots from i on are free and fit v. */
    ghost predicate RunAt(i: int, v: Vehicle)
      reads spots
    {
      0 <= i && i + SpotsNeeded(v) <= |spots| &&
      forall j :: i <= j < i + SpotsNeeded(v) ==> spots[j].vehicle == None && spots[j].CanFit(v)
    }

    /** The lowest start of a run at or after i. */
    ghost function LowestFrom(i: nat, v: Vehicle): (r: Option<nat>)
      reads spots
      ensures r.Some? ==> i <= r.value && RunAt(r.value, v)
      ensures r.Some? ==> forall k :: i <= k < r.value ==> !RunAt(k, v)
      ensures r.None? ==> forall k :: i <= k ==> !RunAt(k, v)
      decreases |spots| - i
    {
      if i >= |spots| then None
      else if RunAt(i, v) then Some(i)
      else LowestFrom(i + 1, v)
    }

    /** The lowest start of a run of spots for v, if any. */
    ghost function Lowest(v: Vehicle): Option<nat>
      reads spots
    {
      LowestFrom(0, v)
    }

    /** `findConsecutiveSpots`: tries each start in turn, counting free
      * fitting spots until it has enough or meets one that is taken or does
      * not fit. */
    method FindConsecutiveSpots(v: Vehicle) returns (r: Option<nat>)
      ensures r == Lowest(v)
    {
      var need := SpotsNeeded(v);
      for i := 0 to |spots|
        invariant forall k :: 0 <= k < i ==> !RunAt(k, v)
      {
        var count := 0;
        var j := i;
        while j < |spots| && count < need
          invariant i <= j <= |spots| && count == j - i && count <= need
          invariant forall m :: i <= m < j ==> spots[m].vehicle == None && spots[m].CanFit(v)
        {
          var s := spots[j];
          if s.IsFree() && s.CanFit(v) {
            count := count + 1;
          } else {
            break;
          }
          j := j + 1;
        }
        if count == need {
          assert RunAt(i, v);
          return Some(i);
        }
      }
      return None;
    }

    /** `park`: assigns v to the lowest run of free fitting spots and returns
      * them; with no such run it changes nothing. */
    method Park(v: Vehicle) returns (r: Option<seq<ParkingSpot>>)
      modifies set s | s in spots
      ensures r.None? <==> old(Lowest(v)).None?
      ensures r.Some? ==> r.value == spots[old(Lowest(v)).value..old(Lowest(v)).value + SpotsNeeded(v)]
      ensures forall s :: s in spots ==> s.vehicle == if r.Some? && s in r.value then Some(v) else old(s.vehicle)
      ensures r.None? ==> unchanged(set s | s in spots)
    {
      var start := FindConsecutiveSpots(v);
      if start.None? {
        return None;
      }
      var i := start.value;
      var run := spots[i..i + SpotsNeeded(v)];
      for k := 0 to |run|
        invariant forall s :: s in spots ==> s.vehicle == if s in run[..k] then Some(v) else old(s.vehicle)
      {
        run[k].Assign(v);
        assert run[..k + 1] == run[..k] + [run[k]];
      }
      assert run[..|run|] == run;
      return Some(run);
    }

    /** `freeSpots`: frees each of the given spots. */
    method FreeSpots(taken: seq<ParkingSpot>)
      modifies set s | s in taken
      ensures forall s :: s in taken ==> s.vehicle == None
    {
      for k := 0 to |taken|
        invariant forall j :: 0 <= j < k ==> taken[j].vehicle == None
      {
        taken[k].Free();
      }
    }
  }

  /** A ticket: its id, the vehicle, the spots it holds and the entry time. */
  datatype Ticket = Ticket(ticketId: string, vehicle: Vehicle, spots: seq<ParkingSpot>, entryTime: int)

  class ParkingLot {
    const levels: seq<Level>
    var activeTickets: map<string, Ticket>
    var plateToTicket: map<string, Ticket>

    /** Each active ticket is filed under its own id, and each plate maps to
      * an active ticket for a vehicle with that plate. */
    ghost predicate Valid()
      reads this
    {
      (forall id :: id in activeTickets ==> activeTickets[id].ticketId == id) &&
      (forall p :: p in plateToTicket ==>
         plateToTicket[p].vehicle.plate == p &&
         plateToTicket[p].ticketId in activeTickets &&
         activeTickets[plateToTicket[p].ticketId] == plateToTicket[p])
    }

    /** Every spot of every level. */
    ghost const allSpots: set<ParkingSpot>

    ghost predicate Spans()
    {
      forall k, s :: 0 <= k < |levels| && s in levels[k].spots ==> s in allSpots
    }

    constructor (levels: seq<Level>)
      ensures this.levels == levels && activeTickets == map[] && plateToTicket == map[]
      ensures allSpots == set l, s | l in levels && s in l.spots :: s
      ensures Spans() && Valid()
    {
      this.levels := levels;
      allSpots := set l, s | l in levels && s in l.spots :: s;
      activeTickets := map[];
      plateToTicket := map[];
    }

    /** The first level at or after k with a run of spots for v. */
    ghost function FirstLevel(v: Vehicle, k: nat): (r: Option<nat>)
      requires Spans()
      reads allSpots
      ensures r.Some? ==> k <= r.value < |levels| && levels[r.value].Lowest(v).Some?
      ensures r.Some? ==> forall j :: k <= j < r.value ==> levels[j].Lowest(v).None?
      ensures r.None? ==> forall j :: k <= j < |levels| ==> levels[j].Lowest(v).None?
      decreases |levels| - k
    {
      if k >= |levels| then None
      else
        if levels[k].Lowest(v).Some? then Some(k)
      else FirstLevel(v, k + 1)
    }

    /** The level loop of `park`: the first level that finds a run of
      * spots for v assigns them; no other spot changes. */
    method ParkOnLevels(v: Vehicle) returns (r: Option<seq<ParkingSpot>>)
      requires Spans()
      modifies allSpots
      ensures r.None? <==> old(FirstLevel(v, 0)).None?
      ensures r.Some? ==>
        var k := old(FirstLevel(v, 0)).value;
        var i := old(levels[k].Lowest(v)).value;
        r.value == levels[k].spots[i..i + SpotsNeeded(v)]
      ensures forall s :: s in allSpots ==> s.vehicle == if r.Some? && s in r.value then Some(v) else old(s.vehicle)
    {
      ghost var first := FirstLevel(v, 0);
      for k := 0 to |levels|
        invariant forall j :: 0 <= j < k ==> old(levels[j].Lowest(v)).None?
        invariant unchanged(allSpots)
      {
        var level := levels[k];
        assert first == FirstLevel(v, 0);
        ghost var low := level.Lowest(v);
        assert low == old(level.Lowest(v));
        r := level.Park(v);
        if r.Some? {
          assert first == Some(k);
          assert r.value == level.spots[low.value..low.value + SpotsNeeded(v)];
          return;
        }
      }
      return None;
    }

    /** `park`: tries the levels in order; the first that finds a run of spots
      * assigns them, and the ticket is filed under its id and under the plate.
      * The ticket id and the entry time come from outside. */
    method Park(v: Vehicle, ticketId: string, now: int) returns (r: Option<Ticket>)
      requires Spans()
      modifies this, allSpots
      ensures r.None? <==> old(FirstLevel(v, 0)).None?
      ensures r.None? ==> activeTickets == old(activeTickets) && plateToTicket == old(plateToTicket)
      ensures r.Some? ==>
        var k := old(FirstLevel(v, 0)).value;
        var i := old(levels[k].Lowest(v)).value;
        r.value == Ticket(ticketId, v, levels[k].spots[i..i + SpotsNeeded(v)], now) &&
        activeTickets == old(activeTickets)[ticketId := r.value] &&
        plateToTicket == old(plateToTicket)[v.plate := r.value]
      ensures forall s :: s in allSpots ==> s.vehicle == if r.Some? && s in r.value.spots then Some(v) else old(s.vehicle)
      ensures old(Valid()) && ticketId !in old(activeTickets) ==> Valid()
      ensures r.Some? ==> FindVehicle(v.plate) == r
    {
      var spots := ParkOnLevels(v);
      if spots.None? {
        return None;
      }
      var t := Ticket(ticketId, v, spots.value, now);
      activeTickets := activeTickets[ticketId := t];
      plateToTicket := plateToTicket[v.plate := t];
      return Some(t);
    }

    /** `unpark`: an unknown ticket gives false and changes nothing. Otherwise
      * the ticket leaves both maps, and its spots are freed on the level its
      * first spot's id names; a ticket with no spots, or an id naming no
      * level, throws. */
    method Unpark(ticketId: string) returns (r: Result<bool>)
      modifies this, set s | ticketId in activeTickets && s in activeTickets[ticketId].spots
      ensures ticketId !in old(activeTickets) ==>
        r == Ok(false) && activeTickets == old(activeTickets) && plateToTicket == old(plateToTicket)
      ensures ticketId in old(activeTickets) ==>
        var t := old(activeTickets[ticketId]);
        activeTickets == old(activeTickets) - {ticketId} &&
        plateToTicket == old(plateToTicket) - {t.vehicle.plate} &&
        (r == Ok(true) <==> |t.spots| > 0 && 1 <= t.spots[0].id.level <= |levels|) &&
        (r.Err? ==> r.error == IndexOutOfBoundsException) &&
        (r == Ok(true) ==> forall s :: s in t.spots ==> s.vehicle == None)
      ensures old(Valid()) ==> Valid()
      ensures ticketId in old(activeTickets) ==> FindVehicle(old(activeTickets[ticketId]).vehicle.plate) == None
    {
      if ticketId !in activeTickets {
        return Ok(false);
      }
      var t := activeTickets[ticketId];
      activeTickets := activeTickets - {ticketId};
      plateToTicket := plateToTicket - {t.vehicle.plate};
      if |t.spots| == 0 {
        return Err(IndexOutOfBoundsException);
      }
      var levelIdx := t.spots[0].id.level - 1;
      if !(0 <= levelIdx < |levels|) {
        return Err(IndexOutOfBoundsException);
      }
      levels[levelIdx].FreeSpots(t.spots);
      return Ok(true);
    }

    /** `findVehicle`: the ticket filed under the plate, if any. */
    function FindVehicle(plate: string): (r: Option<Ticket>)
      reads this
      ensures Valid() && r.Some? ==>
        r.value.vehicle.plate == plate && r.value.ticketId in activeTickets && activeTickets[r.value.ticketId] == r.value
      ensures r.None? <==> plate !in plateToTicket
    {
      if plate in plateToTicket then Some(plateToTicket[plate]) else None
    }
  }

  /** Unparking the ticket just issued undoes the park: every spot holds
    * what it held before, and the active tickets are as before. This needs
    * the spot ids to name their own level, as "L<k>-<i>" does. */
  method ParkThenUnpark(lot: ParkingLot, v: Vehicle, id: string) returns (t: Option<Ticket>, r: Result<bool>)
    requires lot.Spans() && lot.Valid() && id !in lot.activeTickets
    requires forall k, s :: 0 <= k < |lot.levels| && s in lot.levels[k].spots ==> s.id.level == k + 1
    modifies lot, lot.allSpots
    ensures t.Some? ==> r == Ok(true)
    ensures t.None? ==> r == Ok(false)
    ensures forall s :: s in lot.allSpots ==> s.vehicle == old(s.vehicle)
    ensures lot.activeTickets == old(lot.activeTickets)
    ensures lot.Valid()
  {
    t := lot.Park(v, id, 0);
    ghost var k := old(lot.FirstLevel(v, 0));
    r := lot.Unpark(id);
    if t.Some? {
      ghost var i := old(lot.levels[k.value].Lowest(v)).value;
      assert t.value.spots[0] == lot.levels[k.value].spots[i];
      assert lot.activeTickets == old(lot.activeTickets);
    }
  }

  /** Ten free car spots "L1-0" to "L1-9". */
  method CarSpots() returns (spots: seq<ParkingSpot>)
    ensures |spots| == 10
    ensures forall j :: 0 <= j < 10 ==> fresh(spots[j])
    ensures forall i, j :: 0 <= i < j < 10 ==> spots[i] != spots[j]
    ensures forall j :: 0 <= j < 10 ==>
      spots[j].id == SpotId(1, j) && spots[j].kind == CarSpot && spots[j].vehicle == None
  {
    spots := [];
    for i := 0 to 10
      invariant |spots| == i
      invariant forall j :: 0 <= j < i ==> fresh(spots[j])
      invariant forall k, j :: 0 <= k < j < i ==> spots[k] != spots[j]
      invariant forall j :: 0 <= j < i ==>
        spots[j].id == SpotId(1, j) && spots[j].kind == CarSpot && spots[j].vehicle == None
    {
      var s := new ParkingSpot(SpotId(1, i), CarSpot);
      spots := spots + [s];
    }
  }

  /** A lot with one level whose spots are distinct objects. */
  ghost predicate OneLevel(lot: ParkingLot, level: Level)
  {
    lot.levels == [level] && lot.Spans() &&
    lot.allSpots == (set s | s in level.spots) &&
    (forall a, b :: 0 <= a < b < |level.spots| ==> level.spots[a] != level.spots[b])
  }

  /** Parking on a one-level lot whose lowest run for v starts at i. */
  method ParkOn(lot: ParkingLot, level: Level, v: Vehicle, id: string, i: nat) returns (t: Option<Ticket>)
    requires OneLevel(lot, level)
    requires level.RunAt(i, v) && forall k :: 0 <= k < i ==> !level.RunAt(k, v)
    modifies lot, lot.allSpots
    ensures t == Some(Ticket(id, v, level.spots[i..i + SpotsNeeded(v)], 0))
    ensures forall j :: 0 <= j < |level.spots| ==>
      level.spots[j].vehicle == if i <= j < i + SpotsNeeded(v) then Some(v) else old(level.spots[j].vehicle)
    ensures lot.activeTickets == old(lot.activeTickets)[id := t.value]
    ensures lot.FindVehicle(v.plate) == t
  {
    assert lot.FirstLevel(v, 0) == Some(0);
    t := lot.Park(v, id, 0);
    forall j | 0 <= j < |level.spots|
      ensures level.spots[j].vehicle == if i <= j < i + SpotsNeeded(v) then Some(v) else old(level.spots[j].vehicle)
    {
      assert level.spots[j] in lot.allSpots;
      if level.spots[j] in t.value.spots {
        var m :| i <= m < i + SpotsNeeded(v) && level.spots[m] == level.spots[j];
        assert m == j;
      }
    }
  }

  /** Parking on a one-level lot with no run for v. */
  method NoRoomOn(lot: ParkingLot, level: Level, v: Vehicle, id: string) returns (t: Option<Ticket>)
    requires OneLevel(lot, level)
    requires forall k :: 0 <= k ==> !level.RunAt(k, v)
    modifies lot, lot.allSpots
    ensures t == None
  {
    assert lot.FirstLevel(v, 0) == None;
    t := lot.Park(v, id, 0);
  }

  /** Unparking an active ticket whose first spot is on level 1 of a
    * one-level lot. */
  method UnparkOn(lot: ParkingLot, level: Level, id: string) returns (r: Result<bool>)
    requires OneLevel(lot, level)
    requires id in lot.activeTickets && |lot.activeTickets[id].spots| > 0
    requires lot.activeTickets[id].spots[0].id.level == 1
    requires forall s :: s in lot.activeTickets[id].spots ==> s in level.spots
    modifies lot, lot.allSpots
    ensures r == Ok(true)
    ensures forall j :: 0 <= j < |level.spots| ==>
      level.spots[j].vehicle == if level.spots[j] in old(lot.activeTickets[id].spots) then None else old(level.spots[j].vehicle)
  {
    r := lot.Unpark(id);
  }

  /** The first half of the `main` example: on ten free car spots, a car
    * takes "L1-0" and then a bus takes "L1-1" to "L1-5". */
  method MainParkTwo() returns (lot: ParkingLot, level: Level, car: Option<Ticket>, bus: Option<Ticket>)
    ensures fresh(lot) && fresh(level) && forall s :: s in lot.allSpots ==> fresh(s)
    ensures OneLevel(lot, level) && |level.spots| == 10
    ensures forall j :: 0 <= j < 10 ==> level.spots[j].id == SpotId(1, j)
    ensures car == Some(Ticket("ticket-1", Vehicle("CAR-123", Car), level.spots[0..1], 0))
    ensures bus == Some(Ticket("ticket-2", Vehicle("BUS-999", Bus), level.spots[1..6], 0))
    ensures forall j :: 0 <= j < 10 ==>
      level.spots[j].vehicle == (if j == 0 then Some(car.value.vehicle) else if j <= 5 then Some(bus.value.vehicle) else None)
    ensures "ticket-1" in lot.activeTickets && lot.activeTickets["ticket-1"] == car.value
    ensures lot.FindVehicle("BUS-999") == bus
  {
    var spots := CarSpots();
    level := new Level(1, spots);
    lot := new ParkingLot([level]);
    assert OneLevel(lot, level);
    var c := Vehicle("CAR-123", Car);
    assert level.RunAt(0, c);
    car := ParkOn(lot, level, c, "ticket-1", 0);
    var b := Vehicle("BUS-999", Bus);
    assert spots[0].vehicle == Some(c);
    assert !level.RunAt(0, b);
    assert level.RunAt(1, b);
    bus := ParkOn(lot, level, b, "ticket-2", 1);
  }

  /** The `main` example: a car takes "L1-0", a bus "L1-1" to "L1-5" and is
    * found there; once the car leaves, a second bus finds no five
    * consecutive free spots. */
  method MainExample() returns (car: Option<Ticket>, bus: Option<Ticket>, found: Option<Ticket>,
                                left: Result<bool>, bus2: Option<Ticket>)
    ensures car.Some? && |car.value.spots| == 1 && car.value.spots[0].id == SpotId(1, 0)
    ensures bus.Some? && |bus.value.spots| == 5
    ensures forall j :: 0 <= j < 5 ==> bus.value.spots[j].id == SpotId(1, j + 1)
    ensures found == bus
    ensures left == Ok(true)
    ensures bus2 == None
  {
    var lot, level;
    lot, level, car, bus := MainParkTwo();
    found := lot.FindVehicle("BUS-999");
    var spots := level.spots;
    assert forall j :: 1 <= j < 10 ==> spots[j] !in car.value.spots;
    left := UnparkOn(lot, level, "ticket-1");
    var b, b2 := bus.value.vehicle, Vehicle("BUS-111", Bus);
    forall i | 0 <= i
      ensures !level.RunAt(i, b2)
    {
      if i == 0 {
        assert spots[1].vehicle == Some(b);
      } else if i <= 5 {
        assert spots[i].vehicle == Some(b);
      }
    }
    bus2 := NoRoomOn(lot, level, b2, "ticket-3");
  }
}
