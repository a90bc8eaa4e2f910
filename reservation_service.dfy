/** Reservation admission control: the service that creates and cancels
    reservations over the repository, and the no-double-booking invariant it
    keeps. Create is one sequential step (check, then insert). */
module Reservations {
  import opened Entities
  import opened ReservationStore

  /** The create request. */
  datatype ReservationCreateDto = ReservationCreateDto(roomId: int, userId: int, checkIn: Ticks, checkOut: Ticks)

  /** What create ends with: the stored reservation, or the exception the
      service throws. */
  datatype CreateOutcome =
    | Created(reservation: Reservation)
    | InvalidDateRange
    | RoomNotAvailable

  /** Two rows double-book a room: same room, neither cancelled, and their
      ranges overlap. */
  predicate Conflict(a: Reservation, b: Reservation) {
    && a.roomId == b.roomId
    && !a.isCancelled
    && !b.isCancelled
    && Overlaps(a.checkIn, a.checkOut, b.checkIn, b.checkOut)
  }

  /** No two distinct rows double-book a room. */
  ghost predicate NoDoubleBooking(rows: seq<Reservation>) {
    forall i, j :: 0 <= i < |rows| && 0 <= j < |rows| && i != j ==> !Conflict(rows[i], rows[j])
  }

  /** Every stored range is non-empty. */
  ghost predicate RangesNonEmpty(rows: seq<Reservation>) {
    forall i :: 0 <= i < |rows| ==> rows[i].checkIn < rows[i].checkOut
  }

  /** The table after cancelling key `id`: the flag of the row with that key
      is set, every other field and every other row is kept. */
  function CancelRows(rows: seq<Reservation>, id: int): (after: seq<Reservation>)
    ensures |after| == |rows|
    ensures forall i :: 0 <= i < |rows| && rows[i].id != id ==> after[i] == rows[i]
    ensures forall i :: 0 <= i < |rows| && rows[i].id == id ==> after[i] == rows[i].(isCancelled := true)
  {
    if rows == [] then []
    else [if rows[0].id == id then rows[0].(isCancelled := true) else rows[0]] + CancelRows(rows[1..], id)
  }

  /** Admitting a booking the repository calls available keeps the table free
      of double bookings. */
  lemma AdmissionKeepsNoDoubleBooking(rows: seq<Reservation>, x: Reservation)
    requires NoDoubleBooking(rows)
    requires RoomIsAvailable(rows, x.roomId, x.checkIn, x.checkOut)
    ensures NoDoubleBooking(rows + [x])
  {
    var after := rows + [x];
    forall i, j | 0 <= i < |after| && 0 <= j < |after| && i != j
      ensures !Conflict(after[i], after[j])
    {
      if i == |rows| {
        assert !Blocks(rows[j], x.roomId, x.checkIn, x.checkOut);
      } else if j == |rows| {
        assert !Blocks(rows[i], x.roomId, x.checkIn, x.checkOut);
      }
    }
  }

  /** Cancelling only ever removes rows from the decision, so it keeps the
      invariant. */
  lemma CancelKeepsNoDoubleBooking(rows: seq<Reservation>, id: int)
    requires NoDoubleBooking(rows)
    ensures NoDoubleBooking(CancelRows(rows, id))
  {
    var after := CancelRows(rows, id);
    forall i, j | 0 <= i < |after| && 0 <= j < |after| && i != j
      ensures !Conflict(after[i], after[j])
    {
      assert !Conflict(rows[i], rows[j]);
    }
  }

  /** Cancelling twice leaves the table as cancelling once did. */
  lemma CancelIdempotent(rows: seq<Reservation>, id: int)
    ensures CancelRows(CancelRows(rows, id), id) == CancelRows(rows, id)
  {
    var once := CancelRows(rows, id);
    var twice := CancelRows(once, id);
    assert forall i :: 0 <= i < |rows| ==> once[i].id == rows[i].id;
    assert forall i :: 0 <= i < |rows| ==> twice[i] == once[i];
  }

  /** Cancelling keeps every key, so the key is still found afterwards. */
  lemma CancelKeepsKeys(rows: seq<Reservation>, id: int, key: int)
    ensures GetById(CancelRows(rows, id), key).Some? == GetById(rows, key).Some?
  {
    var after := CancelRows(rows, id);
    if GetById(rows, key).Some? {
      var i :| 0 <= i < |rows| && rows[i].id == key;
      assert after[i].id == key;
    }
    if GetById(after, key).Some? {
      var i :| 0 <= i < |after| && after[i].id == key;
      assert rows[i].id == key;
    }
  }

  /** Cancellation frees the slot: once the active row at position `k` is
      cancelled, any stay on its room inside its range is admitted. */
  lemma CancelFreesSlot(rows: seq<Reservation>, k: int, checkIn: Ticks, checkOut: Ticks)
    requires NoDoubleBooking(rows)
    requires 0 <= k < |rows| && !rows[k].isCancelled
    requires rows[k].checkIn <= checkIn < checkOut <= rows[k].checkOut
    ensures RoomIsAvailable(CancelRows(rows, rows[k].id), rows[k].roomId, checkIn, checkOut)
  {
    var after := CancelRows(rows, rows[k].id);
    forall i | 0 <= i < |after| ensures !Blocks(after[i], rows[k].roomId, checkIn, checkOut) {
      if i != k {
        assert !Conflict(rows[i], rows[k]);
      }
    }
  }

  /** The reservation service over its repository. */
  class ReservationService {
    const repo: ReservationRepository

    ghost predicate Valid()
      reads repo
    {
      && repo.Valid()
      && RangesNonEmpty(repo.rows)
      && NoDoubleBooking(repo.rows)
    }

    constructor (repo: ReservationRepository)
      requires repo.Valid() && RangesNonEmpty(repo.rows) && NoDoubleBooking(repo.rows)
      ensures this.repo == repo && Valid()
    {
      this.repo := repo;
    }

    /** `CreateReservationAsync`: an empty or inverted range is refused before
        the store is read; a booking the repository does not call available
        is refused; otherwise exactly one row is added, carrying the request's
        room, user and range, not cancelled. Refusals change nothing. */
    method CreateReservation(dto: ReservationCreateDto) returns (outcome: CreateOutcome)
      requires Valid()
      modifies repo
      ensures Valid()
      ensures dto.checkIn >= dto.checkOut ==>
                outcome == InvalidDateRange && repo.rows == old(repo.rows)
      ensures dto.checkIn < dto.checkOut && !RoomIsAvailable(old(repo.rows), dto.roomId, dto.checkIn, dto.checkOut) ==>
                outcome == RoomNotAvailable && repo.rows == old(repo.rows)
      ensures dto.checkIn < dto.checkOut && RoomIsAvailable(old(repo.rows), dto.roomId, dto.checkIn, dto.checkOut) ==>
                && outcome == Created(Reservation(|old(repo.rows)| + 1, dto.roomId, dto.userId, dto.checkIn, dto.checkOut, false))
                && repo.rows == old(repo.rows) + [outcome.reservation]
    {
      if dto.checkIn >= dto.checkOut {
        return InvalidDateRange;
      }
      var available := RoomIsAvailable(repo.rows, dto.roomId, dto.checkIn, dto.checkOut);
      if !available {
        return RoomNotAvailable;
      }
      var reservation := Reservation(0, dto.roomId, dto.userId, dto.checkIn, dto.checkOut, false);
      AdmissionKeepsNoDoubleBooking(repo.rows, reservation.(id := |repo.rows| + 1));
      var saved := repo.Add(reservation);
      return Created(saved);
    }

    /** `CancelReservationAsync`: an unknown key answers false and changes
        nothing; a known one answers true and only that row's flag is set. */
    method CancelReservation(id: int) returns (cancelled: bool)
      requires Valid()
      modifies repo
      ensures Valid()
      ensures cancelled <==> GetById(old(repo.rows), id).Some?
      ensures repo.rows == CancelRows(old(repo.rows), id)
    {
      var before := repo.rows;
      GetByIdFindsPosition(before, id);
      CancelKeepsNoDoubleBooking(before, id);
      var reservation := GetById(repo.rows, id);
      if reservation.None? {
        assert CancelRows(before, id) == before;
        return false;
      }
      var updated := repo.Update(reservation.value.(isCancelled := true));
      assert repo.rows == CancelRows(before, id);
      return true;
    }
  }

  /** A walk-through on room 7 (dates as day numbers since
      0001-01-01): A `[2024-06-01, 2024-06-05)` is booked; B
      `[2024-06-03, 2024-06-07)` is refused; C `[2024-06-05, 2024-06-10)`,
      back to back with A, is admitted; after A is cancelled, D
      `[2024-06-01, 2024-06-04)` is admitted. */
  method RoomSevenWalkThrough() returns (a: CreateOutcome, b: CreateOutcome, c: CreateOutcome, cancelA: bool, d: CreateOutcome)
    ensures a.Created? && b == RoomNotAvailable && c.Created? && cancelA && d.Created?
  {
    var repo := new ReservationRepository();
    var service := new ReservationService(repo);
    var jun1, jun3, jun4 := 739037 * TicksPerDay, 739039 * TicksPerDay, 739040 * TicksPerDay;
    var jun5, jun7, jun10 := 739041 * TicksPerDay, 739043 * TicksPerDay, 739046 * TicksPerDay;
    a := service.CreateReservation(ReservationCreateDto(7, 1, jun1, jun5));
    b := service.CreateReservation(ReservationCreateDto(7, 2, jun3, jun7));
    c := service.CreateReservation(ReservationCreateDto(7, 3, jun5, jun10));
    cancelA := service.CancelReservation(a.reservation.id);
    d := service.CreateReservation(ReservationCreateDto(7, 4, jun1, jun4));
  }
}
