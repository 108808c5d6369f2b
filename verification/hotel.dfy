/** The room-occupancy logic of `HotelManagementSystem` in hotel.py. The
    window, the room selector and the name entry are not modelled: the
    selected room, the typed guest name and the current time are
    parameters, and each warning dialog becomes a `Refusal`. */
module Hotel {
  import opened Outcomes
  import opened Text

  /** A point in time, in microseconds (the resolution of `datetime`). */
  type Instant = int

  /** Length of one day, in microseconds. */
  const MicrosPerDay: int := 86_400_000_000

  /** Price per elapsed day ("Assuming $200 per day"). */
  const DailyRate: int := 200

  /** Number of rooms in the hotel. */
  const RoomCount: nat := 10

  /** An occupied room: who is in it and since when. */
  datatype Stay = Stay(guest: string, checkIn: Instant)

  /** Each room by name, with its stay or None when it is free. */
  type Rooms = map<string, Option<Stay>>

  /** Why an action was refused: the warning dialog it shows, or the
      KeyError raised for a room the map does not hold. */
  datatype Refusal = MissingGuestName | RoomOccupied | NoGuest | UnknownRoom

  /** The label of room `i`, `f"Room {i}"`. */
  function RoomName(i: nat): string
  {
    "Room " + Decimal(i)
  }

  /** Different room numbers give different labels. */
  lemma RoomNameInjective(i: nat, j: nat)
    requires RoomName(i) == RoomName(j)
    ensures i == j
  {
    assert Decimal(i) == RoomName(i)[5..];
    assert Decimal(j) == RoomName(j)[5..];
    DecimalInjective(i, j);
  }

  /** The labels of rooms 1 to n. */
  ghost function RoomNamesUpTo(n: nat): set<string>
  {
    set i | 1 <= i <= n :: RoomName(i)
  }

  /** Rooms 1 to n carry n distinct labels. */
  lemma {:induction false} RoomNamesUpToCount(n: nat)
    ensures |RoomNamesUpTo(n)| == n
    decreases n
  {
    if n > 0 {
      RoomNamesUpToCount(n - 1);
      assert RoomNamesUpTo(n) == RoomNamesUpTo(n - 1) + {RoomName(n)};
      if RoomName(n) in RoomNamesUpTo(n - 1) {
        var i :| 1 <= i <= n - 1 && RoomName(i) == RoomName(n);
        RoomNameInjective(i, n);
        assert false;
      }
    }
  }

  /** The room map built by the constructor: "Room 1" to "Room 10", all
      free. */
  function InitialRooms(): (rooms: Rooms)
    ensures rooms.Keys == RoomNamesUpTo(RoomCount)
    ensures forall name :: name in rooms ==> rooms[name] == None
  {
    map i | 1 <= i <= RoomCount :: RoomName(i) := None
  }

  /** Initially there are exactly ten rooms, none occupied. */
  lemma InitialRoomsAreTenFreeRooms()
    ensures |InitialRooms()| == 10
    ensures Occupied(InitialRooms()) == {}
    ensures RoomName(1) in InitialRooms() && RoomName(10) in InitialRooms()
    ensures RoomName(0) !in InitialRooms() && RoomName(11) !in InitialRooms()
  {
    RoomNamesUpToCount(RoomCount);
    assert InitialRooms().Keys == RoomNamesUpTo(RoomCount);
    if RoomName(0) in InitialRooms() {
      var i :| 1 <= i <= RoomCount && RoomName(i) == RoomName(0);
      RoomNameInjective(i, 0);
    }
    if RoomName(11) in InitialRooms() {
      var i :| 1 <= i <= RoomCount && RoomName(i) == RoomName(11);
      RoomNameInjective(i, 11);
    }
  }

  /** The rooms that have a guest. */
  function Occupied(rooms: Rooms): set<string>
  {
    set name | name in rooms && rooms[name].Some?
  }

  /** `check_in` for the selected room, the typed name and the current
      time. An empty name is refused before the room is looked at; an
      occupied room is refused; a free room gets the guest. */
  function CheckIn(rooms: Rooms, room: string, guest: string, now: Instant)
    : (r: (Result<(), Refusal>, Rooms))
    ensures r.1.Keys == rooms.Keys
    ensures guest == "" ==> r == (Failure(MissingGuestName), rooms)
    ensures guest != "" && room !in rooms ==> r == (Failure(UnknownRoom), rooms)
    ensures guest != "" && room in rooms && rooms[room].Some? ==> r == (Failure(RoomOccupied), rooms)
    ensures r.0.Success? <==> guest != "" && room in rooms && rooms[room].None?
    ensures r.0.Success? ==> r.1[room] == Some(Stay(guest, now))
    ensures forall other :: other in rooms && other != room ==> r.1[other] == rooms[other]
  {
    if guest == "" then (Failure(MissingGuestName), rooms)
    else if room !in rooms then (Failure(UnknownRoom), rooms)
    else if rooms[room].Some? then (Failure(RoomOccupied), rooms)
    else (Success(()), rooms[room := Some(Stay(guest, now))])
  }

  /** `check_out` for the selected room: a free room is refused; an
      occupied one becomes free. */
  function CheckOut(rooms: Rooms, room: string): (r: (Result<(), Refusal>, Rooms))
    ensures r.1.Keys == rooms.Keys
    ensures room !in rooms ==> r == (Failure(UnknownRoom), rooms)
    ensures room in rooms && rooms[room].None? ==> r == (Failure(NoGuest), rooms)
    ensures r.0.Success? <==> room in rooms && rooms[room].Some?
    ensures r.0.Success? ==> r.1[room] == None
    ensures forall other :: other in rooms && other != room ==> r.1[other] == rooms[other]
  {
    if room !in rooms then (Failure(UnknownRoom), rooms)
    else if rooms[room].None? then (Failure(NoGuest), rooms)
    else (Success(()), rooms[room := None])
  }

  /** What the bill dialog shows. */
  datatype Bill = Bill(guest: string, days: int, amount: int)

  /** `generate_bill` for the selected room at time `now`: a query that
      returns a bill and no new room map. The stay length is the `days`
      field of `now - check_in`, i.e. the whole days elapsed rounded
      down (negative if the clock went back). */
  function GenerateBill(rooms: Rooms, room: string, now: Instant): (r: Result<Bill, Refusal>)
    ensures room !in rooms ==> r == Failure(UnknownRoom)
    ensures room in rooms && rooms[room].None? ==> r == Failure(NoGuest)
    ensures r.Success? <==> room in rooms && rooms[room].Some?
    ensures r.Success? ==>
              var stay := rooms[room].value;
              && r.value.guest == stay.guest
              && r.value.days * MicrosPerDay <= now - stay.checkIn < (r.value.days + 1) * MicrosPerDay
              && r.value.amount == r.value.days * DailyRate
  {
    if room !in rooms then Failure(UnknownRoom)
    else if rooms[room].None? then Failure(NoGuest)
    else
      var stay := rooms[room].value;
      var days := (now - stay.checkIn) / MicrosPerDay;
      Success(Bill(stay.guest, days, days * DailyRate))
  }

  /** A successful check-in adds exactly the selected room to the occupied
      ones. */
  lemma CheckInOccupiesRoom(rooms: Rooms, room: string, guest: string, now: Instant)
    requires CheckIn(rooms, room, guest, now).0.Success?
    ensures Occupied(CheckIn(rooms, room, guest, now).1) == Occupied(rooms) + {room}
    ensures room !in Occupied(rooms)
  {
  }

  /** Checking out right after checking in gives back the room map from
      before. */
  lemma CheckOutUndoesCheckIn(rooms: Rooms, room: string, guest: string, now: Instant)
    requires CheckIn(rooms, room, guest, now).0.Success?
    ensures var after := CheckIn(rooms, room, guest, now).1;
            CheckOut(after, room) == (Success(()), rooms)
  {
    var after := CheckIn(rooms, room, guest, now).1;
    assert after[room := None] == rooms;
  }

  /** A second check-out of the same room is refused and changes nothing. */
  lemma CheckOutTwiceRefused(rooms: Rooms, room: string)
    requires room in rooms
    ensures var once := CheckOut(rooms, room).1;
            CheckOut(once, room) == (Failure(NoGuest), once)
  {
  }

  /** A guest checked in at time t and billed one day and one hour later
      pays for one day. */
  lemma BillExample(t: Instant)
    ensures var rooms := CheckIn(InitialRooms(), RoomName(3), "Ada", t).1;
            GenerateBill(rooms, RoomName(3), t + MicrosPerDay + 3_600_000_000)
              == Success(Bill("Ada", 1, 200))
  {
    var name := RoomName(3);
    assert name in RoomNamesUpTo(RoomCount);
    var rooms := CheckIn(InitialRooms(), name, "Ada", t).1;
    assert rooms[name] == Some(Stay("Ada", t));
    var elapsed := t + MicrosPerDay + 3_600_000_000 - t;
    assert elapsed / MicrosPerDay == 1;
  }
}
