/** Room search filtering: each bound of the filter that is present narrows
    the rooms with one more `Where`; all bounds are inclusive. */
module RoomFiltering {
  import opened Common
  import opened Entities
  import opened Sequences

  /** The room search request. */
  datatype RoomFilterDto = RoomFilterDto(
    hotelId: Option<int>,
    minCapacity: Option<int>,
    maxCapacity: Option<int>,
    minPrice: Option<real>,
    maxPrice: Option<real>,
    sortBy: Option<string>,
    sortDirection: string,
    page: int,
    pageSize: int)

  /** No bound is present. */
  predicate Unbounded(f: RoomFilterDto) {
    f.hotelId.None? && f.minCapacity.None? && f.maxCapacity.None? && f.minPrice.None? && f.maxPrice.None?
  }

  /** The five bounds, each as a test of a room against the bound's value. */
  predicate InHotel(r: Room, hotelId: int) { r.hotelId == hotelId }
  predicate CapacityAtLeast(r: Room, min: int) { r.capacity >= min }
  predicate CapacityAtMost(r: Room, max: int) { r.capacity <= max }
  predicate PriceAtLeast(r: Room, min: real) { r.pricePerNight >= min }
  predicate PriceAtMost(r: Room, max: real) { r.pricePerNight <= max }

  /** An absent bound admits every room; a present one, the rooms that pass
      its test. */
  predicate Admits<X>(bound: Option<X>, test: (Room, X) -> bool, r: Room) {
    bound.Some? ==> test(r, bound.value)
  }

  /** The reference reading of the filter: `room` satisfies every bound that
      is present. */
  predicate Matches(f: RoomFilterDto, room: Room) {
    && Admits(f.hotelId, InHotel, room)
    && Admits(f.minCapacity, CapacityAtLeast, room)
    && Admits(f.maxCapacity, CapacityAtMost, room)
    && Admits(f.minPrice, PriceAtLeast, room)
    && Admits(f.maxPrice, PriceAtMost, room)
  }

  /** `if (bound.HasValue) query = query.Where(...)`. */
  function Narrow<X>(rooms: seq<Room>, bound: Option<X>, test: (Room, X) -> bool): seq<Room> {
    match bound
    case Some(b) => Filter(rooms, (r: Room) => test(r, b))
    case None => rooms
  }

  /** `ApplyFilter`: one conditional `Where` per bound, in source order. */
  function ApplyFilter(rooms: seq<Room>, f: RoomFilterDto): seq<Room> {
    var byHotel := Narrow(rooms, f.hotelId, InHotel);
    var byMinCapacity := Narrow(byHotel, f.minCapacity, CapacityAtLeast);
    var byMaxCapacity := Narrow(byMinCapacity, f.maxCapacity, CapacityAtMost);
    var byMinPrice := Narrow(byMaxCapacity, f.minPrice, PriceAtLeast);
    Narrow(byMinPrice, f.maxPrice, PriceAtMost)
  }

  /** One step of the chain: rooms a `Where` by `p` kept, narrowed by one
      more bound, are a single `Where` by the conjunction. */
  lemma NarrowStep<X>(rooms: seq<Room>, p: Room -> bool, bound: Option<X>, test: (Room, X) -> bool, both: Room -> bool)
    requires forall r :: both(r) == (p(r) && Admits(bound, test, r))
    ensures Narrow(Filter(rooms, p), bound, test) == Filter(rooms, both)
  {
    match bound {
      case Some(b) => FilterCompose(rooms, p, (r: Room) => test(r, b), both);
      case None => FilterCongruent(rooms, p, both);
    }
  }

  /** The chain of `Where`s is one `Where` by `Matches`. */
  lemma ApplyFilterIsMatches(rooms: seq<Room>, f: RoomFilterDto)
    ensures ApplyFilter(rooms, f) == Filter(rooms, (r: Room) => Matches(f, r))
  {
    var everything := (r: Room) => true;
    var p1 := (r: Room) => Admits(f.hotelId, InHotel, r);
    var p2 := (r: Room) => p1(r) && Admits(f.minCapacity, CapacityAtLeast, r);
    var p3 := (r: Room) => p2(r) && Admits(f.maxCapacity, CapacityAtMost, r);
    var p4 := (r: Room) => p3(r) && Admits(f.minPrice, PriceAtLeast, r);
    var p5 := (r: Room) => Matches(f, r);
    FilterAll(rooms, everything);
    NarrowStep(rooms, everything, f.hotelId, InHotel, p1);
    NarrowStep(rooms, p1, f.minCapacity, CapacityAtLeast, p2);
    NarrowStep(rooms, p2, f.maxCapacity, CapacityAtMost, p3);
    NarrowStep(rooms, p3, f.minPrice, PriceAtLeast, p4);
    NarrowStep(rooms, p4, f.maxPrice, PriceAtMost, p5);
  }

  /** What the filter keeps: an order-preserving subsequence of the input,
      made of exactly the rooms that satisfy every present bound. */
  lemma ApplyFilterKeepsExactlyMatches(rooms: seq<Room>, f: RoomFilterDto)
    ensures IsSubsequence(ApplyFilter(rooms, f), rooms)
    ensures forall r :: r in ApplyFilter(rooms, f) ==> r in rooms && Matches(f, r)
    ensures forall i :: 0 <= i < |rooms| && Matches(f, rooms[i]) ==> rooms[i] in ApplyFilter(rooms, f)
  {
    ApplyFilterIsMatches(rooms, f);
    FilterIsSubsequence(rooms, (r: Room) => Matches(f, r));
  }

  /** With a hotel given, only that hotel's rooms come back. */
  lemma HotelFilterKeepsOnlyThatHotel(rooms: seq<Room>, f: RoomFilterDto)
    requires f.hotelId.Some?
    ensures forall r :: r in ApplyFilter(rooms, f) ==> r.hotelId == f.hotelId.value
  {
    ApplyFilterKeepsExactlyMatches(rooms, f);
  }

  /** With no bound present the rooms come back unchanged. */
  lemma UnboundedFilterIsIdentity(rooms: seq<Room>, f: RoomFilterDto)
    requires Unbounded(f)
    ensures ApplyFilter(rooms, f) == rooms
  {
  }

  /** Filtering again with the same filter changes nothing. */
  lemma ApplyFilterIdempotent(rooms: seq<Room>, f: RoomFilterDto)
    ensures ApplyFilter(ApplyFilter(rooms, f), f) == ApplyFilter(rooms, f)
  {
    ApplyFilterIsMatches(rooms, f);
    ApplyFilterIsMatches(ApplyFilter(rooms, f), f);
    FilterIdempotent(rooms, (r: Room) => Matches(f, r));
  }
}
