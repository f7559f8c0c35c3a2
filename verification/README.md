# Spin-the-wheel mock backend in Dafny

This project models the in-memory mock backend of the "naughty-spin" browser
game (`src/utils/mockApi.js`). The backend owns three tables:

- a user table `id -> {id, username, spins, isAdmin}` with a `_nextUserId`
  counter;
- an ordered prize catalog;
- a win log, newest entry first.

Every exported operation reads and then writes those tables. It resolves
with a value or rejects with a reason. The model strips the simulated
latency, so each operation becomes a pure function:

- A state-changing operation maps a `State` to a `Step(reply, next)`. These
  are `login`, `logout`, `updateSpins`, `addPrize`, `removePrize`,
  `performSpin`, `giveSpins` and `reset`.
- A read-only operation maps a `State` to the value it resolves with. These
  are `listUsers`, `getUser`, `getSpins`, `fetchPrizes` and
  `fetchPreviousWins`. They leave the tables unchanged by construction.

A `Reply` is `Ok(value)`, `Rejected(reason)` or `Thrown`. The reasons are
"User not found" and "No spins left". `Thrown` stands for a TypeError raised
inside the timer callback. When that happens the promise never settles, but
the state changes made before the throw stay.

Files:

- `keys.dfy` (module `Keys`): the order in which `Object.values` visits
  integer keys, which is ascending. It provides the least key and the
  ascending key list.
- `mock_api.dfy` (module `MockApi`): the records, the seed data, and one
  function per operation. Each contract states the operation's
  success and error behaviour.
- `mock_api_props.dfy` (module `MockApiProps`): the table invariant and
  request traces. It also holds lemmas that relate operations to each
  other, and lemmas that pin down the code's less obvious behaviour.

Behaviours of the code that the model keeps as written:

- **The first new user replaces "user1".** The counter starts at 2, and
  user 2 is already seeded. So the first user that `login` creates is
  stored under id 2, over "user1" (`FirstLoginReplacesUser1`). After that
  no user is ever overwritten (`LoginKeepsUsersAfterFirstCreation`).
- **`reset` does not restore the load-time state.** It seeds only the admin
  (`ResetIsNotInitial`).
- **Spin counts can go negative.** `giveSpins` and `updateSpins` accept any
  amount. `performSpin` then rejects, because it tests `spins <= 0`
  (`GiveSpinsCanGoNegative`). Nothing in mockApi.js keeps spin counts
  non-negative (lines 73 and 153).
- **An empty catalog makes `performSpin` throw.** With no prizes, the random
  index is 0 and the prize is undefined. The spin is taken first, and then
  reading the prize's id throws. The model makes this an explicit `Thrown`
  outcome: the decrement persists and nothing is logged
  (`EmptyCatalogLosesSpin`). The random index is a parameter. `ValidPick`
  requires it to be below the catalog length, or exactly 0 when the
  catalog is empty.
- **A negative `limit` counts from the end.** `fetchPreviousWins` cuts with
  `slice(0, limit)`. A negative `limit` drops that many records from the
  end instead of bounding the result. The bound `|result| <= limit` holds
  only for `limit >= 0` (`NegativeLimitCountsFromEnd`).

## Model

| member | source | states |
|---|---|---|
| `Keys.Ascend` | src/utils/mockApi.js:55 | the keys in the order `Object.values` visits them: strictly ascending, exactly the key set, no duplicates |
| `MockApi.FindByName` | src/utils/mockApi.js:35 | `find` over `Object.values` returns the user with the least key among those with that username, or nothing when no user has it |
| `MockApi.Login` | src/utils/mockApi.js:31-45 | always resolves; an existing name returns that user and leaves the state unchanged; a new name creates `{id: old counter, spins: 5, isAdmin: name == "admin"}` at that id, raises the counter by exactly one, and leaves prizes and wins unchanged |
| `MockApi.Logout` | src/utils/mockApi.js:47-50 | always resolves and changes no table |
| `MockApi.ListUsers` | src/utils/mockApi.js:53-56 | returns exactly the stored users, one entry per key |
| `MockApi.GetUser` | src/utils/mockApi.js:58-61 | a copy of the stored user when the id is present, null (`None`) otherwise |
| `MockApi.GetSpins` | src/utils/mockApi.js:64-67 | the stored spin count, 0 for an unknown id (the `or 0` fallback also reads a stored 0 as 0) |
| `MockApiProps.GetSpinsAgreesWithGetUser` | src/utils/mockApi.js:64-67 | `getSpins` equals the spins of the user `getUser` returns, and 0 when there is none |
| `MockApi.UpdateSpins` | src/utils/mockApi.js:69-76 | rejects "User not found" exactly when the id is absent, and then changes nothing; otherwise resolves with the new value and changes only that user's `spins` field |
| `MockApi.GiveSpins` | src/utils/mockApi.js:149-156 | rejects "User not found" exactly when the id is absent, and then changes nothing; otherwise adds `amount` (any sign) to that user's spins only and resolves with the updated user |
| `MockApi.FetchPrizes` | src/utils/mockApi.js:79-82 | returns the catalog entry by entry, in order |
| `MockApi.AddPrize` | src/utils/mockApi.js:84-90 | appends: the length grows by one, the old catalog is an unchanged prefix, the new entry is last, the reply is the whole new catalog, and users and wins are unchanged |
| `MockApi.WithoutId` | src/utils/mockApi.js:95 | the filtered catalog holds exactly the old entries whose id differs |
| `MockApi.RemovePrize` | src/utils/mockApi.js:92-98 | the new catalog holds exactly the old entries with a different id, the reply is that catalog, and users and wins are unchanged |
| `MockApi.PerformSpin` | src/utils/mockApi.js:101-131 | rejects "User not found" for an absent id and "No spins left" when spins <= 0, and then changes nothing; with an empty catalog it throws after taking one spin; otherwise it resolves with `prizes[idx]` and `spinsLeft` = old spins - 1 = the new stored value, prepends exactly the record `{userId, now, prize.id, prize.fullName}` to the old log, and leaves the catalog, the counter and the other users unchanged |
| `MockApi.UserWins` | src/utils/mockApi.js:139-140 | the log filtered by user: exactly the records with that `userId` |
| `MockApi.FetchPreviousWins` | src/utils/mockApi.js:134-146 | a prefix of the user's records in log order (newest first); every record has that `userId` and comes from the log; with `limit >= 0` its length is at most `limit`, and it is cut at exactly `limit` unless the whole history is shorter; a negative `limit` keeps all but the last `-limit` records |
| `MockApi.Reset` | src/utils/mockApi.js:158-175 | whatever the prior state: users = {1: admin with 10 spins, isAdmin true}, counter 2, the six seed prizes, an empty log |
| `MockApiProps.ApplyPreservesValid` | src/utils/mockApi.js:29-176 | every operation keeps the table invariant: each user is stored under its own positive id below the counter (except the seeded id 2), and usernames are unique |
| `MockApiProps.RunPreservesValid` | src/utils/mockApi.js:29-176 | any sequence of requests keeps the table invariant |
| `MockApiProps.ReachableValid` | src/utils/mockApi.js:8-27 | the load-time tables satisfy the invariant, so every reachable state does |
| `MockApiProps.LoginIdempotent` | src/utils/mockApi.js:35-43 | a second login under the same name returns the same user and changes nothing |
| `MockApiProps.LoginThenGetUser` | src/utils/mockApi.js:35-43 | in a reachable state, `getUser` with the id of the user `login` returned finds exactly that user |
| `MockApiProps.LoginKeepsUsersAfterFirstCreation` | src/utils/mockApi.js:40-42 | once the counter is past 2, creating a user keeps every existing user and grows the table by one |
| `MockApiProps.FirstLoginReplacesUser1` | src/utils/mockApi.js:12-14 | from the load-time tables, the first new login ("alice") gets id 2, 5 spins and no admin flag, and "user1" can no longer be found |
| `MockApiProps.AdminLoginFindsSeed` | src/utils/mockApi.js:11 | logging in as "admin" at load time returns the seeded admin and creates nobody |
| `MockApiProps.ListUsersAgreesWithGetUser` | src/utils/mockApi.js:53-61 | in a reachable state, each listed user is what `getUser` returns for its id |
| `MockApiProps.ListUsersByAscendingId` | src/utils/mockApi.js:55 | in a reachable state, `listUsers` is ordered by strictly increasing id |
| `MockApiProps.GiveSpinsIsRelativeUpdate` | src/utils/mockApi.js:149-156 | `giveSpins(id, a)` leaves the same tables as `updateSpins(id, getSpins(id) + a)` |
| `MockApiProps.GiveSpinsAccumulates` | src/utils/mockApi.js:153 | two grants of `a` and `b` leave the same tables as one grant of `a + b` |
| `MockApiProps.UpdateSpinsLastWriteWins` | src/utils/mockApi.js:73 | two `updateSpins` calls leave the same tables as the second one alone |
| `MockApiProps.SpinCostsOne` | src/utils/mockApi.js:114 | a spin that passes both checks lowers `getSpins` by exactly one, as `giveSpins(-1)` would, whether it resolves or throws |
| `MockApiProps.LastSpinThenNoSpinsLeft` | src/utils/mockApi.js:107-127 | with one spin left, a first spin resolves with `spinsLeft` 0 and a second one is rejected "No spins left" without changing anything |
| `MockApiProps.GiveSpinsCanGoNegative` | src/utils/mockApi.js:153 | a grant of -11 to the admin gives -1 spins, and `performSpin` then rejects "No spins left" |
| `MockApiProps.EmptyCatalogLosesSpin` | src/utils/mockApi.js:110-119 | with an empty catalog a spin throws, takes a spin, and leaves the log and the user's history unchanged |
| `MockApiProps.UserWinsAppend` | src/utils/mockApi.js:140 | filtering by user commutes with concatenation, so it keeps the records' order |
| `MockApiProps.SpinShowsNewestFirst` | src/utils/mockApi.js:116-122 | after a successful spin the user's history starts with the new record, followed by the old history cut at `limit - 1` |
| `MockApiProps.SpinLeavesOthersHistory` | src/utils/mockApi.js:122 | a spin by one user leaves every other user's history unchanged |
| `MockApiProps.NegativeLimitCountsFromEnd` | src/utils/mockApi.js:141 | with two admin wins logged, `limit` 2 returns 2 records and `limit` -1 returns 1 |
| `MockApiProps.WithoutIdAppend` | src/utils/mockApi.js:95 | removal by id commutes with concatenation, so the kept entries stay in order |
| `MockApiProps.RemovePrizeIdempotent` | src/utils/mockApi.js:92-98 | removing the same id twice gives the same reply and tables as removing it once |
| `MockApiProps.AddThenRemove` | src/utils/mockApi.js:84-98 | adding a prize under a fresh id and then removing that id restores the tables exactly |
| `MockApiProps.AddedPrizeIsFetchedUntilRemoved` | src/utils/mockApi.js:79-98 | an added prize appears in `fetchPrizes`; after its id is removed, no entry with that id does |
| `MockApiProps.ResetForgetsPriorState` | src/utils/mockApi.js:158-175 | `reset` gives the same reply and tables from any two states |
| `MockApiProps.ResetIsNotInitial` | src/utils/mockApi.js:162 | the state after `reset` is not the load-time state: logging in as "user1" then creates a new user with 5 spins under id 2 |

## Left out

- Latency and randomness: `randDelay`, `setTimeout` and the Promise wrapping
  are not modelled. `Math.random` becomes the `idx` parameter of
  `PerformSpin`. In traces it is an arbitrary `pick` reduced modulo the
  catalog length.
- Clock and logging: the `toLocaleString` timestamp is the opaque `now`
  parameter. `console.log` is not modelled.
- Key coercion: JavaScript coerces object keys, so `_users["1"]` and
  `_users[1]` are the same entry, while `fetchPreviousWins` compares with
  strict `===`. The model fixes user ids as `int`, so that difference cannot
  arise.
- JavaScript values of the wrong type are not modelled. This covers
  non-numeric or NaN spin counts, fractional `limit`s, and prizes missing
  fields. Spin counts and limits are unbounded integers: no 2^53 precision
  limit, and no ordering change for keys above 2^32 - 2.
- The missing `isAdmin` field of the seeded "user1" is modelled as `false`.
- `login`'s `code` is accepted and ignored, as in the source. Defaulted
  arguments are not modelled: the model has no missing `username`, and
  `fetchPreviousWins` gets an explicit `limit` (the default is
  `DefaultWinLimit`, 50).
- Copies (`{ ...u }`) are not modelled. Datatype values are immutable, so a
  returned copy and the stored record cannot diverge.
- performSpin resolves with the logged record object itself, not a copy
  (mockApi.js:122 and 128). The model returns a value, so a caller mutating
  that object, and thereby the log, is not modelled.
- src/components/SpinWheel.jsx is not part of this model. It covers React
  state, timer-driven animation, Web Audio ticks, confetti, and the
  floating-point tick-delay easing.
- src/providers/AuthProvider.jsx, src/components/LoginModal.jsx,
  src/components/layout/PageLayout.jsx and src/pages/UserView.jsx are not
  part of this model. They are UI plumbing around the backend, and their
  only logic is a field merge.
