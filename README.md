# Gym check-in rule: a verified model

This project models the check-in core of a small gym service backend. A user asks to check in at a
gym. The use case (`CheckinUseCase.execute`) does three things in order:

1. It looks the gym up. An unknown gym fails with `ResourceNotFoundError`.
2. It asks the check-in store whether the user already has a check-in on today's calendar day.
   If so, it fails with a plain `Error`.
3. Otherwise it asks the store to create a check-in, and returns that check-in.

The check-in store is the in-memory implementation. It keeps an `items` list. `create` stamps a
fresh id and the current time on a new record, then appends it.

The model is split into these modules:

- `Wrappers`: `Option` and `Result`.
- `Calendar`: instants are milliseconds since the epoch. `Day` gives the calendar day of an
  instant. `SameDay` is the inclusive start-of-day to end-of-day window.
- `GymsRepository`: the read-only gym lookup. It is a map from gym id to gym.
- `CheckInsRepository`: the persisted `CheckIn` record and the input of `create`. It also holds
  `FindOnDate`, the `findByUserIdOnDate` query written as a function over the stored records. The
  store invariant "at most one check-in per (user, calendar day)" is defined here too.
- `InMemory`: the class `InMemoryCheckInsRepository`. Its `items` field is a sequence that `Create`
  reassigns. A counter `nextId` is the fresh-id generator. `FindByUserIdOnDate` is a linear scan
  that is proved equal to `FindOnDate`.
- `UseCases`: `Decide` is the reference definition of what `execute` decides. The class
  `CheckinUseCase` has an `Execute` method that calls the two stores in the source's order. It is
  proved to agree with `Decide`, to leave the store untouched on every failure, and to keep the
  once-per-day invariant.
- `Scenarios`: the use case's test suite, written as a client method. Its postconditions follow
  from the contracts above. It covers a first check-in, a refused second check-in on the same day, a
  successful check-in the next day with a new id, and an unknown gym.

Two points where the code departs from the stated design:

- The business rule is stated as "a user may check in at a given gym at most once per calendar
  day". The code keys the duplicate check on the user alone (src/use-cases/checkin.ts:30), and
  the model follows the code. So a
  check-in at one gym blocks a check-in at any other gym on the same day.
  `SameDayRepeatRejected` states this.
- The in-memory store class does not define `findByUserIdOnDate`, although it declares the
  interface that requires it. The model supplies the query from the interface's contract. It
  returns the first record, in store order, whose user matches and whose creation instant lies in
  the day of the given date.

## Model

| member | source | states |
|---|---|---|
| `Calendar.SameDayIffDay` | src/repositories/check-ins-repository.ts:6 | An instant lies in the inclusive start-of-day to end-of-day window of `date` exactly when it has the same calendar day as `date` |
| `GymsRepository.FindById` | src/repositories/gyms-repositort.ts:6 | The lookup returns a gym exactly when the id is stored, and then it returns the stored gym, whose own id is the one asked for; absence is not an error |
| `CheckInsRepository.ValidatedAt` | src/repositories/in-memory/in-memory-check-ins-repository.ts:14 | The validation timestamp is null unless a value was supplied. A date value is kept as given. A text gives null exactly when it is empty, and otherwise gives the instant parsed from it |
| `CheckInsRepository.FindOnDate` | src/repositories/check-ins-repository.ts:6 | The query returns either null or a stored record of `userId` created on the day of `date`; it returns null only when no stored record matches both |
| `CheckInsRepository.FindOnDateIsFirst` | src/repositories/check-ins-repository.ts:6 | A returned record is the earliest matching record in store order |
| `CheckInsRepository.FindOnDateFindsSameDay` | src/use-cases/check-in.spec.ts:44-58 | After a user's check-in, a query for that user at any instant of the same day is non-null |
| `CheckInsRepository.FindOnDateMissesOtherDays` | src/use-cases/check-in.spec.ts:61-76 | If none of the user's check-ins is on the queried day, for example all are on earlier days, the query returns null |
| `CheckInsRepository.AppendKeepsAtMostOnePerUserDay` | src/use-cases/checkin.ts:30-37 | Appending a record whose user has no record on its day keeps "at most one check-in per (user, calendar day)" |
| `InMemory.InMemoryCheckInsRepository.constructor` | src/repositories/in-memory/in-memory-check-ins-repository.ts:7 | A new store holds no check-ins |
| `InMemory.InMemoryCheckInsRepository.Create` | src/repositories/in-memory/in-memory-check-ins-repository.ts:9-19 | Appends exactly one record, keeping earlier records unchanged and in order, and returns it. The record's id is fresh, its user and gym are copied from the input, it is stamped with the current instant, and its validation timestamp follows the input |
| `InMemory.InMemoryCheckInsRepository.FindByUserIdOnDate` | src/repositories/check-ins-repository.ts:6 | The linear scan over `items` returns exactly what the query contract `FindOnDate` specifies |
| `UseCases.FoundIffCheckedInOnDay` | src/use-cases/checkin.ts:30-31 | The same-day query is non-null exactly when the user has a stored check-in, at any gym, on the calendar day of `now` |
| `UseCases.Decide` | src/use-cases/checkin.ts:24-33 | An unknown gym is refused with `ResourceNotFound` whatever the store holds. A known gym is refused as a duplicate exactly when the user already checked in that day, and is accepted otherwise |
| `UseCases.CheckinUseCase.constructor` | src/use-cases/checkin.ts:17-20 | The use case is bound to the given check-in store and gym lookup |
| `UseCases.CheckinUseCase.Execute` | src/use-cases/checkin.ts:22-42 | Fails as `Decide` says, and then leaves the store and the id generator untouched. Otherwise it appends exactly one check-in and returns it: the check-in carries the request's user and gym, the current instant, a null validation timestamp and an id unused in the store. It keeps "at most one check-in per (user, calendar day)" |
| `UseCases.DecideIgnoresLocation` | src/use-cases/checkin.ts:22 | The outcome does not depend on the user's latitude or longitude |
| `UseCases.SameDayRepeatRejected` | src/use-cases/check-in.spec.ts:44-58 | Once the user has a check-in on a day, at any gym, a further request at a known gym on that day is refused |
| `UseCases.LaterDayAccepted` | src/use-cases/check-in.spec.ts:61-76 | A user whose check-ins are all on earlier days is accepted at a known gym |
| `Scenarios.CheckInOncePerDay` | src/use-cases/check-in.spec.ts:32-76 | With gym-01 stored and the clock at 2022-01-20 08:00 UTC, user-01's first check-in succeeds with that user and gym. A second one at the same instant fails as a duplicate. At 2022-01-21 08:00 UTC a check-in succeeds again with a different id. A request for an unknown gym fails with `ResourceNotFound` |
| `UseCases.FirstCheckInAccepted` | src/use-cases/check-in.spec.ts:32-41 | On an empty store, a check-in at a known gym is accepted |

## Left out

- Promises and `async`/`await`: every store call is a synchronous method or function.
- Prisma types: `CheckIn`, `Gym` and the unchecked create input are plain datatypes. The input
  keeps only the fields the in-memory `create` reads.
- The clock: `new Date()` becomes an instant `now` passed in. The source reads the clock twice,
  once for the same-day query and once for `created_at`. The model uses one instant for both, so a
  call that straddles midnight is not modelled.
- Calendar days are counted in UTC. Local-time day boundaries and time zones are host-library
  behaviour.
- Parsing of a validation date given as text is host-library behaviour, and so is the "Invalid
  Date" that unparseable text yields. The parsed instant is carried in the input as `parsed`.
- `randomUUID` is a foreign crypto call. Ids come from a counter (`nextId`), so an id is a natural
  number rather than a UUID string, and freshness is proved rather than assumed.
- The `CheckInsRepository` and `GymsRepository` interfaces are not modelled as swappable
  abstractions. The use case holds the in-memory check-in store, and the gym store is a map.
- Gym coordinates play no part, and there is no distance check: the source leaves it
  unimplemented (src/use-cases/checkin.ts:28).
- Concurrent `execute` calls, and the check-then-act race between them, are left out. The model
  has sequential semantics only.
- The error objects are not modelled as classes. `ResourceNotFoundError` becomes
  `ResourceNotFound`, and the plain `Error` for a second check-in becomes `AlreadyCheckedInToday`.
- The user repository, authentication, password hashing and user profiles are outside this core.
