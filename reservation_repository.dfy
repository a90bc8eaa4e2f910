/** The reservation repository over an in-memory reservation table: the
    overlap query that admission control rests on, the lookups, and the two
    writes (insert and update). */
module ReservationStore {
  import opened Common
  import opened Entities
  import opened Sequences

  /** Half-open ranges `[s1, e1)` and `[s2, e2)` share an instant. */
  predicate Overlaps(s1: int, e1: int, s2: int, e2: int) {
    s1 < e2 && s2 < e1
  }

  /** The condition of the repository's existence query: stored row `r`
      stands in the way of booking `roomId` over `[checkIn, checkOut)`. */
  predicate Blocks(r: Reservation, roomId: int, checkIn: int, checkOut: int) {
    && r.roomId == roomId
    && checkIn < r.checkOut
    && checkOut > r.checkIn
    && !r.isCancelled
  }

  /** `RoomIsAvailable`: true when no stored row blocks the booking. Nothing
      is changed: it is a query over the table. */
  function RoomIsAvailable(rows: seq<Reservation>, roomId: int, checkIn: Ticks, checkOut: Ticks): (available: bool)
    ensures available <==> !exists i :: 0 <= i < |rows| && Blocks(rows[i], roomId, checkIn, checkOut)
  {
    if rows == [] then true
    else !Blocks(rows[0], roomId, checkIn, checkOut) && RoomIsAvailable(rows[1..], roomId, checkIn, checkOut)
  }

  /** `GetReservationsByRoom`: every row of the room, cancelled ones
      included, in table order. */
  function GetReservationsByRoom(rows: seq<Reservation>, roomId: int): (found: seq<Reservation>)
    ensures forall r :: r in found ==> r in rows && r.roomId == roomId
    ensures forall i :: 0 <= i < |rows| && rows[i].roomId == roomId ==> rows[i] in found
    ensures IsSubsequence(found, rows)
  {
    FilterIsSubsequence(rows, (r: Reservation) => r.roomId == roomId);
    Filter(rows, (r: Reservation) => r.roomId == roomId)
  }

  /** `GetByIdAsync`: the row with that key, or `None` when there is none. */
  function GetById(rows: seq<Reservation>, id: int): (found: Option<Reservation>)
    ensures found.Some? <==> exists i :: 0 <= i < |rows| && rows[i].id == id
    ensures found.Some? ==> found.value in rows && found.value.id == id
  {
    if rows == [] then None
    else if rows[0].id == id then Some(rows[0])
    else GetById(rows[1..], id)
  }

  /** The store's identity column: the row inserted n-th has key n. */
  ghost predicate IdentityKeys(rows: seq<Reservation>) {
    forall i :: 0 <= i < |rows| ==> rows[i].id == i + 1
  }

  /** With identity keys, looking a key up finds the row at that position. */
  lemma GetByIdFindsPosition(rows: seq<Reservation>, id: int)
    requires IdentityKeys(rows)
    ensures GetById(rows, id) == if 1 <= id <= |rows| then Some(rows[id - 1]) else None
  {
    if 1 <= id <= |rows| {
      assert rows[id - 1].id == id;
    }
  }

  /** The query's test is the half-open overlap of the two ranges, on the same
      room, against a row that is not cancelled. */
  lemma BlocksIsActiveOverlap(r: Reservation, roomId: int, checkIn: int, checkOut: int)
    ensures Blocks(r, roomId, checkIn, checkOut)
        <==> r.roomId == roomId && !r.isCancelled && Overlaps(checkIn, checkOut, r.checkIn, r.checkOut)
  {
  }

  /** The overlap test does not depend on which range is the stored one. */
  lemma OverlapsSymmetric(s1: int, e1: int, s2: int, e2: int)
    ensures Overlaps(s1, e1, s2, e2) == Overlaps(s2, e2, s1, e1)
  {
  }

  /** Tick `t` lies in the half-open range `[s, e)`. */
  predicate Within(t: int, s: int, e: int) {
    s <= t < e
  }

  /** The strict comparisons mean what the half-open reading says: the two
      ranges overlap exactly when some tick lies in both. */
  lemma OverlapsIffSharedTick(s1: int, e1: int, s2: int, e2: int)
    requires s1 < e1 && s2 < e2
    ensures Overlaps(s1, e1, s2, e2) <==> exists t :: Within(t, s1, e1) && Within(t, s2, e2)
  {
    if Overlaps(s1, e1, s2, e2) {
      var t := if s1 < s2 then s2 else s1;
      assert Within(t, s1, e1) && Within(t, s2, e2);
    }
  }

  /** Back-to-back stays are not conflicts: a stay that starts when `r` ends,
      or ends when `r` starts, is never blocked by `r`. */
  lemma BackToBackNeverBlocks(r: Reservation, other: int)
    ensures !Blocks(r, r.roomId, r.checkOut, other)
    ensures !Blocks(r, r.roomId, other, r.checkIn)
  {
  }

  /** Only the room's rows that are not cancelled take part in the decision:
      dropping every cancelled row and every row of another room does not
      change it. */
  lemma AvailabilityIgnoresCancelledAndOtherRooms(rows: seq<Reservation>, roomId: int, checkIn: Ticks, checkOut: Ticks)
    ensures RoomIsAvailable(rows, roomId, checkIn, checkOut)
        == RoomIsAvailable(Filter(rows, (r: Reservation) => r.roomId == roomId && !r.isCancelled), roomId, checkIn, checkOut)
  {
    var active := Filter(rows, (r: Reservation) => r.roomId == roomId && !r.isCancelled);
    if !RoomIsAvailable(rows, roomId, checkIn, checkOut) {
      var i :| 0 <= i < |rows| && Blocks(rows[i], roomId, checkIn, checkOut);
      assert rows[i] in active;
      var j :| 0 <= j < |active| && active[j] == rows[i];
      assert Blocks(active[j], roomId, checkIn, checkOut);
    }
    if !RoomIsAvailable(active, roomId, checkIn, checkOut) {
      var j :| 0 <= j < |active| && Blocks(active[j], roomId, checkIn, checkOut);
      assert active[j] in rows;
      var i :| 0 <= i < |rows| && rows[i] == active[j];
      assert Blocks(rows[i], roomId, checkIn, checkOut);
    }
  }

  /** The reservation table. The key of a row is assigned by the store on
      insert, counting up from 1. */
  class ReservationRepository {
    var rows: seq<Reservation>

    ghost predicate Valid()
      reads this
    {
      IdentityKeys(rows)
    }

    constructor ()
      ensures Valid() && rows == []
    {
      rows := [];
    }

    /** `AddAsync`: inserts the row and returns it with its assigned key; every
        earlier row stays as it was. */
    method Add(reservation: Reservation) returns (saved: Reservation)
      requires Valid()
      modifies this
      ensures Valid()
      ensures saved == reservation.(id := |old(rows)| + 1)
      ensures rows == old(rows) + [saved]
    {
      saved := reservation.(id := |rows| + 1);
      rows := rows + [saved];
    }

    /** `UpdateAsync`: replaces the row that has the same key and leaves every
        other row alone. A key with no row makes the store report a
        concurrency failure (`updated` false) and nothing is written. */
    method Update(reservation: Reservation) returns (updated: bool)
      requires Valid()
      modifies this
      ensures Valid()
      ensures updated <==> GetById(old(rows), reservation.id).Some?
      ensures updated ==> rows == old(rows)[reservation.id - 1 := reservation]
      ensures !updated ==> rows == old(rows)
    {
      GetByIdFindsPosition(rows, reservation.id);
      updated := 1 <= reservation.id <= |rows|;
      if updated {
        rows := rows[reservation.id - 1 := reservation];
      }
    }
  }
}
