/** The in-memory mock backend of the spin-the-wheel game.

    The backend keeps three tables: users keyed by numeric id (with a
    counter for the next id), an ordered prize catalog and a log of wins,
    newest first. Every operation is a read-modify-write on those tables
    that either resolves with a value or rejects with a reason. With the
    simulated latency stripped away each mutating operation is a pure
    transition from a `State` to a `Step` (reply plus next state); each
    read-only operation maps a `State` to the value it resolves with. */
module MockApi {
  import Keys

  datatype Option<T> = None | Some(value: T)

  /** A user record. The seeded "user1" has no `isAdmin` field at all; an
      absent flag reads as false and is modelled as `false`. */
  datatype User = User(id: int, username: string, spins: int, isAdmin: bool)

  /** A catalog entry. `rarity` is free text ("common", "uncommon",
      "legendary" in the seed); `addPrize` stores whatever it is given. */
  datatype Prize = Prize(id: string, fullName: string, rarity: string)

  /** The locale-formatted wall-clock time of a spin, treated as opaque. */
  type Timestamp = string

  /** One entry of the win log: a snapshot of the prize at spin time. */
  datatype WinRecord = WinRecord(userId: int, time: Timestamp, prizeId: string, prizeName: string)

  datatype State = State(
    users: map<int, User>,
    nextUserId: int,
    prizes: seq<Prize>,
    wins: seq<WinRecord>)

  /** The two rejection reasons of the backend: the errors with messages
      "User not found" and "No spins left". */
  datatype Reason = UserNotFound | NoSpinsLeft

  /** How an operation's promise ends: resolved with a value, rejected with
      a reason, or `Thrown` — the timer callback raised a TypeError, so the
      promise never settles while the state changes made before the throw
      persist. */
  datatype Reply<T> = Ok(value: T) | Rejected(reason: Reason) | Thrown

  datatype Step<T> = Step(reply: Reply<T>, next: State)

  /** What a successful `performSpin` resolves with. */
  datatype SpinResult = SpinResult(prize: Prize, spinsLeft: int, record: WinRecord)

  /** Spins a newly created user starts with. */
  const NewUserSpins: int := 5

  /** The `limit` `fetchPreviousWins` uses when the caller gives none. */
  const DefaultWinLimit: int := 50

  const Admin: User := User(1, "admin", 10, true)

  const SeedPrizes: seq<Prize> := [
    Prize("PRZ100", "₹100", "common"),
    Prize("COFFEE1", "Free Coffee", "common"),
    Prize("XPBOOST", "Bonus XP", "uncommon"),
    Prize("TRYAGAIN", "Try Again", "common"),
    Prize("PRZ005", "₹5", "common"),
    Prize("JACKPOT", "Jackpot!", "legendary")
  ]

  /** The tables as the module loads them. Note that the id counter
      already names the seeded "user1". */
  const Initial: State := State(
    map[1 := Admin, 2 := User(2, "user1", 3, false)],
    2,
    SeedPrizes,
    [])

  /** The tables as `reset` leaves them: only the admin is seeded. */
  const ResetState: State := State(map[1 := Admin], 2, SeedPrizes, [])

  // ---------------------------------------------------------------- users

  /** The key of the user `login` finds for `name`: `Object.values` visits
      keys in ascending order and `find` stops at the first match. */
  function FindByName(users: map<int, User>, name: string): (r: Option<int>)
    ensures r.Some? ==> r.value in users && users[r.value].username == name
    ensures r.Some? ==> forall k :: k in users && users[k].username == name ==> r.value <= k
    ensures r.None? <==> forall k :: k in users ==> users[k].username != name
  {
    var named := set k | k in users && users[k].username == name;
    assert forall k :: k in users && users[k].username == name ==> k in named;
    if exists k :: k in named then Some(Keys.Least(named)) else None
  }

  /** The record `login` creates for a name nobody has yet. */
  function NewUser(id: int, username: string): User
  {
    User(id, username, NewUserSpins, username == "admin")
  }

  /** `login`: find the user by name, or create one under the next id. The
      code is accepted unchecked. Creation writes at `nextUserId` whether
      or not a user already lives there. */
  function Login(s: State, username: string, code: string): (r: Step<User>)
    ensures r.reply.Ok?
    ensures r.reply.value.username == username
    ensures FindByName(s.users, username).Some? ==>
      r.next == s && r.reply.value == s.users[FindByName(s.users, username).value]
    ensures FindByName(s.users, username).None? ==>
      && r.reply.value == User(s.nextUserId, username, NewUserSpins, username == "admin")
      && r.next.users == s.users[s.nextUserId := r.reply.value]
      && r.next.nextUserId == s.nextUserId + 1
      && r.next.prizes == s.prizes
      && r.next.wins == s.wins
  {
    match FindByName(s.users, username)
    case Some(k) => Step(Ok(s.users[k]), s)
    case None =>
      var u := NewUser(s.nextUserId, username);
      Step(Ok(u), s.(users := s.users[s.nextUserId := u], nextUserId := s.nextUserId + 1))
  }

  /** `logout`: always resolves; the backend keeps no session. */
  function Logout(s: State): (r: Step<()>)
    ensures r.reply.Ok? && r.next == s
  {
    Step(Ok(()), s)
  }

  /** `listUsers`: every user, in ascending key order. */
  function ListUsers(s: State): (r: seq<User>)
    ensures |r| == |s.users|
    ensures forall u :: u in r <==> u in s.users.Values
  {
    var ks := Keys.Ascend(s.users.Keys);
    var r := seq(|ks|, i requires 0 <= i < |ks| => s.users[ks[i]]);
    assert forall u :: u in s.users.Values ==> u in r by {
      forall u | u in s.users.Values ensures u in r {
        var k :| k in s.users && s.users[k] == u;
        var i :| 0 <= i < |ks| && ks[i] == k;
        assert r[i] == u;
      }
    }
    r
  }

  /** `getUser`: a copy of the user, or null when the id is unknown. */
  function GetUser(s: State, userId: int): (r: Option<User>)
    ensures r.Some? <==> userId in s.users
    ensures r.Some? ==> r.value == s.users[userId]
  {
    if userId in s.users then Some(s.users[userId]) else None
  }

  /** `getSpins`: the user's spin count, 0 for an unknown id. (The source's
      `spins || 0` also maps a stored 0 to 0, which changes nothing.) */
  function GetSpins(s: State, userId: int): (r: int)
    ensures userId !in s.users ==> r == 0
    ensures userId in s.users ==> r == s.users[userId].spins
  {
    if userId in s.users then s.users[userId].spins else 0
  }

  /** `after` differs from `before` only in the spin count of user `id`,
      which is `n` there. */
  predicate OnlySpinsChanged(before: map<int, User>, after: map<int, User>, id: int, n: int)
  {
    && after.Keys == before.Keys
    && id in before
    && after[id] == before[id].(spins := n)
    && forall k :: k in before && k != id ==> after[k] == before[k]
  }

  /** Set user `id`'s spin count to `n` in the user table. */
  function WithSpins(users: map<int, User>, id: int, n: int): (r: map<int, User>)
    requires id in users
    ensures OnlySpinsChanged(users, r, id, n)
  {
    users[id := users[id].(spins := n)]
  }

  /** `updateSpins`: overwrite the user's spin count with any value. */
  function UpdateSpins(s: State, userId: int, newSpins: int): (r: Step<int>)
    ensures userId !in s.users <==> r.reply == Rejected(UserNotFound)
    ensures userId !in s.users ==> r.next == s
    ensures userId in s.users ==>
      && r.reply == Ok(newSpins)
      && OnlySpinsChanged(s.users, r.next.users, userId, newSpins)
      && r.next == s.(users := r.next.users)
  {
    if userId !in s.users then Step(Rejected(UserNotFound), s)
    else Step(Ok(newSpins), s.(users := WithSpins(s.users, userId, newSpins)))
  }

  /** `giveSpins`: add `amount`, which may be negative, to the user's spin
      count and resolve with the updated user. */
  function GiveSpins(s: State, userId: int, amount: int): (r: Step<User>)
    ensures userId !in s.users <==> r.reply == Rejected(UserNotFound)
    ensures userId !in s.users ==> r.next == s
    ensures userId in s.users ==>
      && OnlySpinsChanged(s.users, r.next.users, userId, s.users[userId].spins + amount)
      && r.next == s.(users := r.next.users)
      && r.reply == Ok(r.next.users[userId])
  {
    if userId !in s.users then Step(Rejected(UserNotFound), s)
    else
      var users := WithSpins(s.users, userId, s.users[userId].spins + amount);
      Step(Ok(users[userId]), s.(users := users))
  }

  // --------------------------------------------------------------- prizes

  /** `fetchPrizes`: a copy of the catalog, in catalog order. */
  function FetchPrizes(s: State): (r: seq<Prize>)
    ensures |r| == |s.prizes|
    ensures forall i :: 0 <= i < |r| ==> r[i] == s.prizes[i]
  {
    s.prizes
  }

  /** `addPrize`: append the prize and resolve with the whole catalog. */
  function AddPrize(s: State, prize: Prize): (r: Step<seq<Prize>>)
    ensures r.reply == Ok(r.next.prizes)
    ensures |r.next.prizes| == |s.prizes| + 1
    ensures r.next.prizes[..|s.prizes|] == s.prizes
    ensures r.next.prizes[|s.prizes|] == prize
    ensures r.next == s.(prizes := r.next.prizes)
  {
    var prizes := s.prizes + [prize];
    Step(Ok(prizes), s.(prizes := prizes))
  }

  /** The catalog with every entry whose id is `id` filtered out. */
  function WithoutId(prizes: seq<Prize>, id: string): (r: seq<Prize>)
    ensures |r| <= |prizes|
    ensures forall p :: p in r <==> p in prizes && p.id != id
  {
    if prizes == [] then []
    else if prizes[0].id == id then WithoutId(prizes[1..], id)
    else [prizes[0]] + WithoutId(prizes[1..], id)
  }

  /** `removePrize`: drop every entry with that id, resolve with the rest. */
  function RemovePrize(s: State, id: string): (r: Step<seq<Prize>>)
    ensures r.reply == Ok(r.next.prizes)
    ensures forall p :: p in r.next.prizes <==> p in s.prizes && p.id != id
    ensures r.next == s.(prizes := r.next.prizes)
  {
    var prizes := WithoutId(s.prizes, id);
    Step(Ok(prizes), s.(prizes := prizes))
  }

  // ----------------------------------------------------------------- spins

  /** The index `Math.floor(Math.random() * prizes.length)` can produce:
      below the length, and 0 when the catalog is empty. */
  predicate ValidPick(s: State, idx: int)
  {
    if |s.prizes| == 0 then idx == 0 else 0 <= idx < |s.prizes|
  }

  /** `performSpin` with the random index `idx` and the clock reading `now`
      given as parameters. The checks run in source order: unknown user,
      then a non-positive balance. Otherwise one spin is taken first; with
      an empty catalog the prize is undefined and reading its id throws,
      so the spin is lost and nothing is logged. */
  function PerformSpin(s: State, userId: int, idx: int, now: Timestamp): (r: Step<SpinResult>)
    requires ValidPick(s, idx)
    ensures userId !in s.users ==> r == Step(Rejected(UserNotFound), s)
    ensures userId in s.users && s.users[userId].spins <= 0 ==> r == Step(Rejected(NoSpinsLeft), s)
    ensures r.reply.Thrown? <==> userId in s.users && s.users[userId].spins > 0 && |s.prizes| == 0
    ensures r.reply.Thrown? ==>
      && OnlySpinsChanged(s.users, r.next.users, userId, s.users[userId].spins - 1)
      && r.next == s.(users := r.next.users)
    ensures r.reply.Ok? <==> userId in s.users && s.users[userId].spins > 0 && |s.prizes| > 0
    ensures r.reply.Ok? ==>
      && r.reply.value.prize == s.prizes[idx]
      && r.reply.value.spinsLeft == s.users[userId].spins - 1
      && r.reply.value.record == WinRecord(userId, now, s.prizes[idx].id, s.prizes[idx].fullName)
      && OnlySpinsChanged(s.users, r.next.users, userId, r.reply.value.spinsLeft)
      && r.next.wins == [r.reply.value.record] + s.wins
      && r.next.prizes == s.prizes
      && r.next.nextUserId == s.nextUserId
  {
    if userId !in s.users then Step(Rejected(UserNotFound), s)
    else if s.users[userId].spins <= 0 then Step(Rejected(NoSpinsLeft), s)
    else
      var left := s.users[userId].spins - 1;
      var users := WithSpins(s.users, userId, left);
      if |s.prizes| == 0 then Step(Thrown, s.(users := users))
      else
        var prize := s.prizes[idx];
        var record := WinRecord(userId, now, prize.id, prize.fullName);
        Step(Ok(SpinResult(prize, left, record)), s.(users := users, wins := [record] + s.wins))
  }

  // ------------------------------------------------------------ win log

  /** The records of one user, in log order (newest first). */
  function UserWins(log: seq<WinRecord>, userId: int): (r: seq<WinRecord>)
    ensures |r| <= |log|
    ensures forall w :: w in r <==> w in log && w.userId == userId
  {
    if log == [] then []
    else if log[0].userId == userId then [log[0]] + UserWins(log[1..], userId)
    else UserWins(log[1..], userId)
  }

  /** How many elements `Array.prototype.slice(0, end)` keeps of a list of
      length `n`: a negative `end` counts back from the end of the list. */
  function SliceEnd(n: nat, end: int): (k: nat)
    ensures k <= n
  {
    if end < 0 then (if n + end > 0 then n + end else 0)
    else if end < n then end
    else n
  }

  /** `fetchPreviousWins`: the user's records, newest first, cut at `limit`
      the way `slice(0, limit)` cuts. */
  function FetchPreviousWins(s: State, userId: int, limit: int): (r: seq<WinRecord>)
    ensures r <= UserWins(s.wins, userId)
    ensures forall i :: 0 <= i < |r| ==> r[i].userId == userId && r[i] in s.wins
    ensures 0 <= limit ==> |r| <= limit
    ensures 0 <= limit ==> |r| == limit || r == UserWins(s.wins, userId)
    ensures limit < 0 ==> |r| == SliceEnd(|UserWins(s.wins, userId)|, limit)
  {
    var mine := UserWins(s.wins, userId);
    mine[..SliceEnd(|mine|, limit)]
  }

  // ---------------------------------------------------------------- reset

  /** `reset`: restore the catalog and the id counter, clear the log, and
      keep only the admin in the user table. */
  function Reset(s: State): (r: Step<()>)
    ensures r.reply.Ok?
    ensures r.next.users.Keys == {1} && r.next.users[1] == Admin
    ensures r.next.nextUserId == 2
    ensures r.next.prizes == SeedPrizes
    ensures r.next.wins == []
  {
    Step(Ok(()), ResetState)
  }
}
