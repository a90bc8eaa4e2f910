# Hotel booking core, modelled in Dafny

This project models the core of a hotel booking backend: reservation
admission control and the room search around it.

The central rule is the one the reservation service and its repository keep
together. A new stay on a room is admitted only when no reservation on that
room that is not cancelled overlaps it. Stays are half-open ranges
`[CheckIn, CheckOut)`, so back-to-back stays do not overlap. From that rule the
model proves that the reservation table never holds two active, overlapping
reservations on one room. Creating and cancelling keep that invariant, and
cancelling frees the slot again.

Around that centre the model covers:

- the two request validators;
- the room filter, the room ordering and the paged room query;
- the user register/login rule;
- the `Result` value types.

Modules, one per core file plus shared pieces:

- `Common` holds `Result`, `Result<T>` and `Option`.
- `Entities` holds the rows `Reservation`, `Room` and `User`. A `DateTime` is
  its tick count and a `decimal` is a `real`.
- `Text` holds `char.IsWhiteSpace`, `string.IsNullOrWhiteSpace` and `ToLower`.
- `Sequences` holds LINQ's `Where`, `Skip` and `Take` over in-memory
  sequences.
- `ReservationStore` holds the reservation repository: a class over the
  reservation table, whose identity keys count up from 1.
- `Reservations` holds the reservation service: a class over the repository,
  whose invariant is "no double booking".
- `ReservationValidation` and `RoomValidation` hold the validators.
- `RoomFiltering`, `RoomSorting` and `RoomQueries` hold the room search.
- `Users` holds the user service: a class over the user table, with the
  password hash as a function parameter.

Exceptions thrown by the source become cases of a result datatype. These are:
`InvalidDateRange` and `RoomNotAvailable` on create, `EmailAlreadyExists` on
register, and `Ambiguous` for a `SingleOrDefault` that finds more than one row.

## Model

| member | source | states |
|---|---|---|
| Common.Result.Ok | Src/Application/Common/Result.cs:8 | a success with no error message, in the well-formed shape |
| Common.Result.Fail | Src/Application/Common/Result.cs:9 | a failure carrying exactly the given message, in the well-formed shape |
| Common.TypedResult.Ok | Src/Application/Common/Result.cs:18 | a success carrying the value and no error |
| Common.TypedResult.Fail | Src/Application/Common/Result.cs:19 | a failure carrying the message and no value |
| Common.ResultIsFactoryBuilt | Src/Application/Common/Result.cs:3-10 | every well-formed `Result` is `Ok()` or `Fail` of its own message |
| Common.TypedResultIsFactoryBuilt | Src/Application/Common/Result.cs:12-20 | every well-formed `Result<T>` is `Ok` of its value or `Fail` of its message |
| Text.ToLower | Src/Application/Queries/Rooms/RoomSortingExtensions.cs:14 | same length; no letter 'A'..'Z' is left; each letter 'A'..'Z' becomes the lower-case letter at the same place in the alphabet; every other character is kept |
| Text.ToLowerIdempotent | Src/Application/Queries/Rooms/RoomSortingExtensions.cs:14 | lower-casing an already lower-cased key changes nothing |
| Sequences.Filter | Src/Infrastructure/Repositories/ReservationRepository.cs:28 | `Where`: no longer than the input; keeps only elements that pass, and every passing element as often as it occurs in the input |
| Sequences.Skip | Src/Infrastructure/Repositories/RoomQueryRepository.cs:28 | a suffix of the input, shorter by the count clamped to `0..length` |
| Sequences.Take | Src/Infrastructure/Repositories/RoomQueryRepository.cs:29 | a prefix of the input, as long as the count clamped to `0..length` |
| Sequences.TakeThenSkipIsWhole | Src/Infrastructure/Repositories/RoomQueryRepository.cs:28-29 | `Take(n)` followed by `Skip(n)` gives back the whole input, for every count |
| ReservationStore.RoomIsAvailable | Src/Infrastructure/Repositories/ReservationRepository.cs:17-25 | available exactly when no stored row is on the room, not cancelled, and overlapping the range |
| ReservationStore.BlocksIsActiveOverlap | Src/Infrastructure/Repositories/ReservationRepository.cs:19-24 | the query's four conditions are: same room, not cancelled, and half-open overlap of the two ranges |
| ReservationStore.OverlapsSymmetric | Src/Infrastructure/Repositories/ReservationRepository.cs:21-22 | the overlap test gives the same answer with the two ranges swapped |
| ReservationStore.OverlapsIffSharedTick | Src/Infrastructure/Repositories/ReservationRepository.cs:21-22 | for non-empty ranges, the strict comparisons hold exactly when some tick lies in both ranges |
| ReservationStore.BackToBackNeverBlocks | Src/Infrastructure/Repositories/ReservationRepository.cs:21-22 | a stay starting at a row's check-out, or ending at its check-in, is never blocked by that row |
| ReservationStore.AvailabilityIgnoresCancelledAndOtherRooms | Src/Infrastructure/Repositories/ReservationRepository.cs:19-24 | dropping all cancelled rows and all rows of other rooms leaves the answer unchanged |
| ReservationStore.GetReservationsByRoom | Src/Infrastructure/Repositories/ReservationRepository.cs:27-28 | every row of the room, cancelled ones included, and nothing else, in table order |
| ReservationStore.GetById | Src/Infrastructure/Repositories/ReservationRepository.cs:30-31 | found exactly when some row has that key; what is found is a row with that key |
| ReservationStore.GetByIdFindsPosition | Src/Infrastructure/Repositories/ReservationRepository.cs:30-31 | with identity keys, key `n` is the `n`-th row, and a key outside `1..count` is not found |
| ReservationStore.ReservationRepository.Add | Src/Infrastructure/Repositories/ReservationRepository.cs:10-15 | appends the row with the next identity key and returns it; earlier rows are unchanged |
| ReservationStore.ReservationRepository.Update | Src/Infrastructure/Repositories/ReservationRepository.cs:33-37 | replaces exactly the row with the same key; an unknown key writes nothing and reports failure |
| Reservations.CancelRows | Src/Application/Reservations/ReservationService.cs:43-45 | same length; the row with the key gets the cancelled flag; every other row and field is kept |
| Reservations.AdmissionKeepsNoDoubleBooking | Src/Application/Reservations/ReservationService.cs:20-33 | a row the availability query admits, appended to a table without double bookings, leaves it without double bookings |
| Reservations.CancelKeepsNoDoubleBooking | Src/Application/Reservations/ReservationService.cs:36-48 | cancelling keeps the table free of double bookings |
| Reservations.CancelIdempotent | Src/Application/Reservations/ReservationService.cs:36-48 | cancelling the same key twice gives the table that cancelling once gave |
| Reservations.CancelKeepsKeys | Src/Application/Reservations/ReservationService.cs:43-45 | a key is found after a cancel exactly when it was found before |
| Reservations.CancelFreesSlot | Src/Application/Reservations/ReservationService.cs:36-48 | after an active reservation is cancelled, any stay on its room inside its range is available |
| Reservations.ReservationService.CreateReservation | Src/Application/Reservations/ReservationService.cs:10-34 | an empty or inverted range is refused; otherwise a blocked room is refused; refusals leave the table unchanged; otherwise exactly one row is appended with the request's room, user and range, not cancelled; no double booking is preserved |
| Reservations.ReservationService.CancelReservation | Src/Application/Reservations/ReservationService.cs:36-48 | true exactly when the key exists; the table becomes `CancelRows` of the old one; no double booking is preserved |
| Reservations.RoomSevenWalkThrough | Src/Application/Reservations/ReservationService.cs:10-48 | on one room: A is booked; an overlapping B is refused; C, back to back with A, is booked; A is cancelled; D, inside A's old range, is booked |
| ReservationValidation.Errors | Src/Application/Reservations/Validators/ReservationCreateDtoValidator.cs:9-27 | each rule's message is present exactly when that rule fails; no errors exactly when all five rules hold; at most five errors |
| ReservationValidation.AcceptedRequestPassesDateGuard | Src/Application/Reservations/Validators/ReservationCreateDtoValidator.cs:25-27 | a request with no errors has check-in before check-out and after the default date |
| RoomValidation.Failures | Src/Application/Rooms/Validators/RoomCreateDtoValidator.cs:9-20 | each rule is reported exactly when it fails (an all-white-space number counts as empty); no failures exactly when the request is valid |
| RoomFiltering.NarrowStep | Src/Application/Queries/Rooms/RoomFilteringExtensions.cs:10-23 | one more conditional `Where` after a `Where` is a single `Where` by the conjunction |
| RoomFiltering.ApplyFilterIsMatches | Src/Application/Queries/Rooms/RoomFilteringExtensions.cs:6-26 | the chain of conditional `Where`s equals one `Where` by "satisfies every present bound" |
| RoomFiltering.ApplyFilterKeepsExactlyMatches | Src/Application/Queries/Rooms/RoomFilteringExtensions.cs:6-26 | the result is an order-preserving subsequence of the rooms, made of exactly the rooms inside every present bound |
| RoomFiltering.HotelFilterKeepsOnlyThatHotel | Src/Application/Queries/Rooms/RoomFilteringExtensions.cs:10-11 | with a hotel id given, every room returned belongs to that hotel |
| RoomFiltering.UnboundedFilterIsIdentity | Src/Application/Queries/Rooms/RoomFilteringExtensions.cs:6-26 | with no bound present, the rooms come back unchanged |
| RoomFiltering.ApplyFilterIdempotent | Src/Application/Queries/Rooms/RoomFilteringExtensions.cs:6-26 | applying the same filter twice gives what applying it once gave |
| RoomSorting.UnknownKeyOrdersById | Src/Application/Queries/Rooms/RoomSortingExtensions.cs:24 | any key other than the two known ones orders by id, ascending |
| RoomSorting.UpperCaseDescIsAscending | Src/Application/Queries/Rooms/RoomSortingExtensions.cs:16-22 | the key is matched in any case but the direction is not: "DESC" sorts upwards |
| RoomSorting.Insert | Src/Application/Queries/Rooms/RoomSortingExtensions.cs:12-24 | inserting into a sorted list gives a sorted permutation of the list plus the room |
| RoomSorting.Sort | Src/Application/Queries/Rooms/RoomSortingExtensions.cs:12-24 | the result is a permutation of the input, in order of the chosen key and direction |
| RoomSorting.ApplySorting | Src/Application/Queries/Rooms/RoomSortingExtensions.cs:6-26 | a permutation of the rooms, ordered by id, price or capacity, upwards or downwards, as the request selects |
| RoomQueries.Wrap32 | Src/Infrastructure/Repositories/RoomQueryRepository.cs:28 | unchecked 32-bit result: equal to the exact value when it fits; always congruent to it modulo 2^32 |
| RoomQueries.Count | Src/Infrastructure/Repositories/RoomQueryRepository.cs:12-19 | at most the number of rooms; zero exactly when no room matches |
| RoomQueries.SearchAsWritten | Src/Infrastructure/Repositories/RoomQueryRepository.cs:21-31 | at most `PageSize` rooms, with the skip count in wrapping 32-bit arithmetic |
| RoomQueries.PageOf | Src/Infrastructure/Repositories/RoomQueryRepository.cs:27-30 | the `Skip`/`Take` step on the matches, in exact arithmetic: at most `PageSize` of them |
| RoomQueries.Search | Src/Infrastructure/Repositories/RoomQueryRepository.cs:21-31 | at most `PageSize` rooms |
| RoomQueries.SearchReturnsMatches | Src/Infrastructure/Repositories/RoomQueryRepository.cs:21-31 | every room on a page is a stored room that the search keeps |
| RoomQueries.SearchAsWrittenAgreesWithoutOverflow | Src/Infrastructure/Repositories/RoomQueryRepository.cs:28 | when `(Page - 1) * PageSize` fits in 32 bits, the query as written returns the page |
| RoomQueries.OverflowRepeatsFirstPage | Src/Infrastructure/Repositories/RoomQueryRepository.cs:28 | page 107374184 of size 20 wraps to a negative skip count and returns page 1 again, where the exact page is empty |
| RoomQueries.SkipTakeIsSlice | Src/Infrastructure/Repositories/RoomQueryRepository.cs:28-29 | `Skip(start).Take(size)` with non-negative counts is the window `[start, start + size)` clipped to the end |
| RoomQueries.PageIsSlice | Src/Infrastructure/Repositories/RoomQueryRepository.cs:27-30 | page `p` is the matches from `(p - 1) * PageSize` onward, at most `PageSize` of them |
| RoomQueries.FirstPageStartsAtFirstMatch | Src/Infrastructure/Repositories/RoomQueryRepository.cs:27-30 | page 1 begins with the first match |
| RoomQueries.PastTheEndIsEmpty | Src/Infrastructure/Repositories/RoomQueryRepository.cs:27-30 | a page starting at or past the count is empty |
| RoomQueries.PagesSpanIsProduct | Src/Infrastructure/Repositories/RoomQueryRepository.cs:28 | `k` pages counted page by page hold `k * PageSize` matches, and page `k` starts where `k - 1` pages end |
| RoomQueries.PagesArePrefix | Src/Infrastructure/Repositories/RoomQueryRepository.cs:27-30 | pages 1 to `k`, concatenated, are exactly the first `k * PageSize` matches |
| RoomQueries.PagesCoverCount | Src/Infrastructure/Repositories/RoomQueryRepository.cs:12-30 | once `k * PageSize` reaches the count, pages 1 to `k` are all the matches, `CountAsync` of them |
| RoomQueries.PagesDisjoint | Src/Infrastructure/Repositories/RoomQueryRepository.cs:27-30 | over distinct rows, two different pages never share a room |
| Users.GetByEmail | Src/Infrastructure/Repositories/UserRepository.cs:17-18 | not found exactly when no row has the email; what is found is a row with that email |
| Users.GetByEmailOutcomes | Src/Infrastructure/Repositories/UserRepository.cs:17-18 | `SingleOrDefault` throws exactly when two rows carry the email, and finds a row exactly when it is the only row carrying it |
| Users.UniqueEmailsNeverAmbiguous | Src/Application/Users/UserService.cs:11-13 | without repeated emails the lookup never throws, and it finds the one row with that email |
| Users.ValidateUser | Src/Application/Users/UserService.cs:22-31 | an unknown email answers null; a known one answers its user exactly when the password's hash equals the stored hash |
| Users.WrongPasswordIsRefused | Src/Application/Users/UserService.cs:28-30 | a password whose hash differs from the stored one is refused |
| Users.RegisteredUserAuthenticates | Src/Application/Users/UserService.cs:15-30 | right after registering a free email, the same password logs in as the new user |
| Users.AddingFreeEmailKeepsUnique | Src/Application/Users/UserService.cs:11-19 | adding a user whose email is free keeps emails unique |
| Users.UserService.Register | Src/Application/Users/UserService.cs:9-20 | a taken email is refused and changes nothing; otherwise exactly one user is added, with the email, the role and the password's hash; unique emails are preserved |

## Left out

- The HTTP layer, the controllers, the middlewares, JWT issuing and dependency injection are not modelled. They hold no booking logic.
- Concurrency is not modelled. `CreateReservationAsync` checks and then inserts in two separate steps. Two concurrent requests can both pass the check, so no double booking holds only for one request at a time. The model runs each operation as one sequential step.
- Entity Framework change tracking, `SaveChangesAsync` and database I/O are not modelled. Each table is a sequence of rows held in memory.
- The hotel, event and room services and their repositories are not modelled. They forward one-to-one to the store.
- The room-existence check in `CreateReservationAsync` is commented out in the source, so it is not modelled.
- `IReservationRepository.Query()` is not modelled: nothing in the core uses it, and `ReservationRepository` does not implement it.
- The `Reservation` entity class does not declare `IsCancelled`, yet the service sets it and the availability query reads it. The model follows that code and gives the row an `isCancelled` flag, false on insert.
- The filter `RoomQueryRepository` applies comes from `Infrastructure.QueryExtensions`, which is not part of this model. It is a predicate parameter `keep`.
- Reservations.ReservationService.CancelReservation: the source mutates the tracked entity that the lookup returned and then updates it. The model builds the changed row as a new value, so aliasing of that entity is not modelled.
- Text.ToLower: only the ASCII letters are lower-cased, and 'I' becomes 'i'. The source calls the culture-sensitive `ToLower()`, so the model assumes a culture with that mapping. Under a Turkish or Azerbaijani culture "PRICE" lower-cases to "prıce", and the source then orders by id where `RoomSorting.UpperCaseDescIsAscending` proves the price order. Culture-sensitive casing of non-ASCII letters is not modelled either.
- ReservationStore.GetReservationsByRoom, RoomQueries.Search, RoomQueries.FirstPageStartsAtFirstMatch, RoomQueries.PagesArePrefix, RoomQueries.PagesCoverCount, RoomQueries.PagesDisjoint: the model reads a table in one fixed row order. The source runs on SQL Server (Src/Api/Program.cs:68). ReservationRepository.cs:28 and RoomQueryRepository.cs:27-30 query without `OrderBy`, so the database fixes no row order. Two page requests can then see different orders, and a room can appear on two pages or on none. The paging lemmas hold only for a store that returns rows in one stable order.
- Users.GetByEmail: emails are compared as exact strings. The source's `u.Email == email` (Src/Infrastructure/Repositories/UserRepository.cs:18) runs in the database and follows its collation. SQL Server's default collation ignores letter case and trailing spaces. Under it, the source refuses "Bob@x.com" when "bob@x.com" is registered, but `Users.UserService.Register` admits it.
- RoomValidation.Failures: `MaximumLength` counts UTF-16 code units. The model counts characters, which differ for characters outside the Basic Multilingual Plane.
- RoomSorting.Sort: rooms with equal keys keep their input order. The database gives no such order for ties, so the contract states only the key order and the permutation.
- RoomQueries.SearchAsWritten: `Skip` and `Take` follow in-memory LINQ semantics, where a negative count counts as zero. A SQL provider may reject a negative offset instead.
- ReservationStore.ReservationRepository.Add: the new row's id is one more than the number of rows, which assumes consecutive identity values. SQL Server does not guarantee that after a rolled-back insert or a restart. It is relied on by `ReservationStore.GetByIdFindsPosition`, by the positional ensures of `ReservationStore.ReservationRepository.Update`, by the ensures of `Reservations.ReservationService.CreateReservation` that gives the created row the id `|old(repo.rows)| + 1`, and by `Reservations.RoomSevenWalkThrough`, which cancels A by that id.
- ReservationStore.ReservationRepository.Update: an unknown key is reported as a failed write. Entity Framework's `Update` on an entity whose key is unset (0) would insert a row instead, and the service never does that.
- Common.TypedResult.Fail: the value of a failed `Result<T>` is `None`. The source stores `default(T)`, which is not null for a value type.
- Users.UserService.Register: the operation requires the table invariant that no email occurs twice. A table with a repeated email makes `SingleOrDefault` throw; registration alone can never reach such a table.
- Users.UserService.Register: the new user's id is one more than the number of users, which assumes consecutive identity values. In the source the database fills `User.Id` on insert (Src/Core/Entities/User.cs:5, Src/Infrastructure/Repositories/UserRepository.cs:12-14), and SQL Server does not guarantee consecutive values after a rolled-back insert or a restart.
- ReservationValidation.Errors: the model states the five rules the validator declares. Nothing in the application applies them. Src/Api/Program.cs:71 only registers the validators, and no code calls them or turns on automatic validation. A request with `RoomId <= 0` or a default date therefore reaches `CreateReservationAsync` unchecked. Only the service's own date guard stops an inverted range.
- Users.ValidateUser: `PasswordHasher.Hash` is a deterministic function parameter. Its algorithm is not part of this model.
- The walk-through dates are day counts times ticks per day. Calendar conversion is not modelled.

## Findings

| source | as written | input that shows it | evidently intended | confidence | as-written member | corrected member |
|---|---|---|---|---|---|---|
| Src/Infrastructure/Repositories/RoomQueryRepository.cs:28 | `(Page - 1) * PageSize` is computed in unchecked 32-bit `int`, so a large page number wraps to a negative skip count | Page 107374184, PageSize 20: 107374183 * 20 = 2147483660 wraps to -2147483636, and the query returns page 1 again instead of an empty page | the skip count is the exact `(Page - 1) * PageSize`, so pages past the end are empty and pages 1..k are the first `k * PageSize` matches | medium; not executed (C# arithmetic is unchecked by default, and a SQL provider may reject the negative offset rather than repeat page 1) | RoomQueries.OverflowRepeatsFirstPage | RoomQueries.PagesArePrefix |
