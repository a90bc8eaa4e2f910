/** The four rules a create-room request is checked against. The rules carry
    the validation library's default messages, so a failure is named here by
    the rule it breaks. */
module RoomValidation {
  import opened Common
  import opened Text

  /** The create-room request; the price is a `decimal`. */
  datatype RoomCreateDto = RoomCreateDto(hotelId: int, roomNumber: string, capacity: int, pricePerNight: real)

  /** One broken rule; the room number has two. */
  datatype RoomRule =
    | HotelIdPositive
    | RoomNumberNotEmpty
    | RoomNumberMaxLength
    | CapacityPositive
    | PricePositive

  const MaxRoomNumberLength: nat := 10

  /** `NotEmpty` on a string also refuses one made of white space only. */
  predicate NotEmptyText(s: string) {
    !IsNullOrWhiteSpace(Some(s))
  }

  /** All four rules hold. */
  predicate IsValid(dto: RoomCreateDto) {
    && dto.hotelId > 0
    && NotEmptyText(dto.roomNumber) && |dto.roomNumber| <= MaxRoomNumberLength
    && dto.capacity > 0
    && dto.pricePerNight > 0.0
  }

  /** The rules a request breaks, in rule order. */
  function Failures(dto: RoomCreateDto): (broken: seq<RoomRule>)
    ensures HotelIdPositive in broken <==> dto.hotelId <= 0
    ensures RoomNumberNotEmpty in broken <==> forall i :: 0 <= i < |dto.roomNumber| ==> IsWhiteSpace(dto.roomNumber[i])
    ensures RoomNumberMaxLength in broken <==> |dto.roomNumber| > MaxRoomNumberLength
    ensures CapacityPositive in broken <==> dto.capacity <= 0
    ensures PricePositive in broken <==> dto.pricePerNight <= 0.0
    ensures broken == [] <==> IsValid(dto)
  {
    (if dto.hotelId > 0 then [] else [HotelIdPositive])
    + (if NotEmptyText(dto.roomNumber) then [] else [RoomNumberNotEmpty])
    + (if |dto.roomNumber| <= MaxRoomNumberLength then [] else [RoomNumberMaxLength])
    + (if dto.capacity > 0 then [] else [CapacityPositive])
    + (if dto.pricePerNight > 0.0 then [] else [PricePositive])
  }
}
