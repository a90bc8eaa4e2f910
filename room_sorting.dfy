/** Room search ordering: the sort key and direction chosen from the
    request, and the ordering they produce. */
module RoomSorting {
  import opened Common
  import opened Entities
  import opened Text

  datatype SortKey = ById | ByPrice | ByCapacity

  /** The ordering `ApplySorting` picks. */
  datatype Ordering = Ordering(key: SortKey, descending: bool)

  /** The value a room is ordered by. */
  function KeyOf(key: SortKey, room: Room): real {
    match key
    case ById => room.id as real
    case ByPrice => room.pricePerNight
    case ByCapacity => room.capacity as real
  }

  /** The position value: the key, negated for a descending order. */
  function Rank(o: Ordering, room: Room): real {
    if o.descending then -KeyOf(o.key, room) else KeyOf(o.key, room)
  }

  /** The key is chosen from `sortBy`, case-insensitively; only the exact
      direction "desc" sorts downwards, and the id order never does. */
  function SelectOrdering(sortBy: Option<string>, sortDirection: string): (o: Ordering)
    ensures IsNullOrWhiteSpace(sortBy) ==> o == Ordering(ById, false)
    ensures !IsNullOrWhiteSpace(sortBy) && ToLower(sortBy.value) == "price" ==> o == Ordering(ByPrice, sortDirection == "desc")
    ensures !IsNullOrWhiteSpace(sortBy) && ToLower(sortBy.value) == "capacity" ==> o == Ordering(ByCapacity, sortDirection == "desc")
    ensures o.key == ById ==> !o.descending
  {
    if IsNullOrWhiteSpace(sortBy) then Ordering(ById, false)
    else
      match ToLower(sortBy.value)
      case "price" => Ordering(ByPrice, sortDirection == "desc")
      case "capacity" => Ordering(ByCapacity, sortDirection == "desc")
      case _ => Ordering(ById, false)
  }

  /** Every `sortBy` other than the two known keys orders by id, upwards. */
  lemma UnknownKeyOrdersById(sortBy: string, sortDirection: string)
    requires ToLower(sortBy) != "price" && ToLower(sortBy) != "capacity"
    ensures SelectOrdering(Some(sortBy), sortDirection) == Ordering(ById, false)
  {
  }

  /** The direction is compared case-sensitively: "DESC" sorts upwards. */
  lemma UpperCaseDescIsAscending()
    ensures SelectOrdering(Some("price"), "DESC") == Ordering(ByPrice, false)
    ensures SelectOrdering(Some("Capacity"), "DESC") == Ordering(ByCapacity, false)
    ensures SelectOrdering(Some("PRICE"), "desc") == Ordering(ByPrice, true)
  {
    assert !IsWhiteSpace("price"[0]) && !IsWhiteSpace("PRICE"[0]) && !IsWhiteSpace("Capacity"[0]);
    assert "DESC"[0] != "desc"[0];
    assert ToLower("price") == "price";
    assert ToLower("Capacity") == "capacity";
    assert ToLower("PRICE") == "price";
  }

  /** The rooms are in order of rank. */
  ghost predicate SortedBy(o: Ordering, rooms: seq<Room>) {
    forall i, j :: 0 <= i < j < |rooms| ==> Rank(o, rooms[i]) <= Rank(o, rooms[j])
  }

  /** A room that ranks no higher than every room of a sorted list can go in
      front of it. */
  lemma SortedCons(o: Ordering, room: Room, rooms: seq<Room>)
    requires SortedBy(o, rooms)
    requires forall x :: x in rooms ==> Rank(o, room) <= Rank(o, x)
    ensures SortedBy(o, [room] + rooms)
  {
    var r := [room] + rooms;
    forall i, j | 0 <= i < j < |r| ensures Rank(o, r[i]) <= Rank(o, r[j]) {
      assert r[j] == rooms[j - 1];
      if i > 0 {
        assert r[i] == rooms[i - 1];
      }
    }
  }

  /** Places `room` before the first room of the sorted `rooms` that does not
      rank below it. */
  function Insert(o: Ordering, room: Room, rooms: seq<Room>): (r: seq<Room>)
    requires SortedBy(o, rooms)
    ensures multiset(r) == multiset(rooms) + multiset{room}
    ensures forall x :: x in r ==> x == room || x in rooms
    ensures SortedBy(o, r)
  {
    if rooms == [] || Rank(o, room) <= Rank(o, rooms[0]) then
      SortedCons(o, room, rooms);
      [room] + rooms
    else
      var rest := Insert(o, room, rooms[1..]);
      assert multiset([rooms[0]] + rest) == multiset(rooms) + multiset{room} by {
        assert rooms == [rooms[0]] + rooms[1..];
      }
      assert SortedBy(o, [rooms[0]] + rest) by {
        assert forall x :: x in rest ==> Rank(o, rooms[0]) <= Rank(o, x);
        SortedCons(o, rooms[0], rest);
      }
      [rooms[0]] + rest
  }

  /** The rooms in the chosen order: a permutation of the input, sorted by
      rank. Rooms of equal rank keep their input order. */
  function Sort(o: Ordering, rooms: seq<Room>): (r: seq<Room>)
    ensures multiset(r) == multiset(rooms)
    ensures SortedBy(o, r)
  {
    if rooms == [] then []
    else
      assert rooms == [rooms[0]] + rooms[1..];
      Insert(o, rooms[0], Sort(o, rooms[1..]))
  }

  /** `ApplySorting`. */
  function ApplySorting(rooms: seq<Room>, sortBy: Option<string>, sortDirection: string): (r: seq<Room>)
    ensures multiset(r) == multiset(rooms)
    ensures IsNullOrWhiteSpace(sortBy) ==>
              forall i, j :: 0 <= i < j < |r| ==> r[i].id <= r[j].id
    ensures !IsNullOrWhiteSpace(sortBy) && ToLower(sortBy.value) == "price" && sortDirection == "desc" ==>
              forall i, j :: 0 <= i < j < |r| ==> r[i].pricePerNight >= r[j].pricePerNight
    ensures !IsNullOrWhiteSpace(sortBy) && ToLower(sortBy.value) == "price" && sortDirection != "desc" ==>
              forall i, j :: 0 <= i < j < |r| ==> r[i].pricePerNight <= r[j].pricePerNight
    ensures !IsNullOrWhiteSpace(sortBy) && ToLower(sortBy.value) == "capacity" && sortDirection == "desc" ==>
              forall i, j :: 0 <= i < j < |r| ==> r[i].capacity >= r[j].capacity
    ensures !IsNullOrWhiteSpace(sortBy) && ToLower(sortBy.value) == "capacity" && sortDirection != "desc" ==>
              forall i, j :: 0 <= i < j < |r| ==> r[i].capacity <= r[j].capacity
    ensures !IsNullOrWhiteSpace(sortBy) && ToLower(sortBy.value) != "price" && ToLower(sortBy.value) != "capacity" ==>
              forall i, j :: 0 <= i < j < |r| ==> r[i].id <= r[j].id
  {
    Sort(SelectOrdering(sortBy, sortDirection), rooms)
  }
}
