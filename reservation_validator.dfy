/** The five rules the create-reservation validator declares. Every rule is
    evaluated; each failing rule adds its message, in rule order. */
module ReservationValidation {
  import opened Entities
  import opened Reservations

  const InvalidRoomId: string := "Invalid RoomId."
  const InvalidUserId: string := "Invalid UserId."
  const CheckInRequired: string := "Check-in date is required."
  const CheckOutRequired: string := "Check-out date is required."
  const CheckOutBeforeCheckIn: string := "Check-out must be after check-in."

  /** `NotEmpty` on a date: it is not the type's default value. */
  predicate NotEmptyDate(t: Ticks) {
    t != 0
  }

  /** All five rules hold. */
  predicate IsValid(dto: ReservationCreateDto) {
    && dto.roomId > 0
    && dto.userId > 0
    && NotEmptyDate(dto.checkIn)
    && NotEmptyDate(dto.checkOut)
    && dto.checkIn < dto.checkOut
  }

  /** The validation errors of a request. */
  function Errors(dto: ReservationCreateDto): (errors: seq<string>)
    ensures InvalidRoomId in errors <==> dto.roomId <= 0
    ensures InvalidUserId in errors <==> dto.userId <= 0
    ensures CheckInRequired in errors <==> dto.checkIn == 0
    ensures CheckOutRequired in errors <==> dto.checkOut == 0
    ensures CheckOutBeforeCheckIn in errors <==> dto.checkIn >= dto.checkOut
    ensures errors == [] <==> IsValid(dto)
    ensures |errors| <= 5
  {
    (if dto.roomId > 0 then [] else [InvalidRoomId])
    + (if dto.userId > 0 then [] else [InvalidUserId])
    + (if NotEmptyDate(dto.checkIn) then [] else [CheckInRequired])
    + (if NotEmptyDate(dto.checkOut) then [] else [CheckOutRequired])
    + (if dto.checkIn < dto.checkOut then [] else [CheckOutBeforeCheckIn])
  }

  /** A request the validator accepts never trips the service's date-range
      guard, and its check-in is later than the default date. */
  lemma AcceptedRequestPassesDateGuard(dto: ReservationCreateDto)
    requires Errors(dto) == []
    ensures dto.checkIn < dto.checkOut
    ensures 0 < dto.checkIn
  {
  }
}
