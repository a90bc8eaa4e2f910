/** The persisted entities the core works on (`Core.Entities`). */
module Entities {

  /** `DateTime.MaxValue.Ticks`. */
  const MaxTicks: int := 3155378975999999999

  /** A `DateTime` as its tick count; tick 0 is `DateTime.MinValue`, the
      default value of the type. */
  type Ticks = t: int | 0 <= t <= MaxTicks

  const TicksPerDay: int := 864000000000

  /** A reservation row. `id` is the identity the store assigns on insert (0
      until then); `isCancelled` is the column the entity class does not
      declare but the service and the repository both use, false unless a
      cancellation set it. The range is `[checkIn, checkOut)`. */
  datatype Reservation = Reservation(
    id: int,
    roomId: int,
    userId: int,
    checkIn: Ticks,
    checkOut: Ticks,
    isCancelled: bool)

  /** A room row; `pricePerNight` is a `decimal`, exact, so a `real` here. */
  datatype Room = Room(
    id: int,
    hotelId: int,
    roomNumber: string,
    capacity: int,
    pricePerNight: real)

  /** A user row: the password is only ever stored as its hash. */
  datatype User = User(id: int, email: string, passwordHash: string, role: string)
}
