/** Properties of the mock backend: the table invariant every operation
    keeps, how the operations relate to one another, and the behaviours of
    the code a caller might not expect. */
module MockApiProps {
  import opened MockApi

  // ------------------------------------------------------------ invariant

  /** What holds of the tables from load time on:
      - the counter never falls below 2;
      - every user is stored under its own id, ids are positive, and every
        id lies below the counter except the seeded id 2, which the counter
        names until the first user is created;
      - no two users share a username. */
  predicate Valid(s: State)
  {
    && s.nextUserId >= 2
    && (forall k :: k in s.users ==> s.users[k].id == k && 1 <= k && (k < s.nextUserId || k == 2))
    && (forall j, k :: j in s.users && k in s.users && s.users[j].username == s.users[k].username ==> j == k)
  }

  /** Every state-changing request a client can issue. The random prize
      index is chosen by the trace: any `pick`, reduced to the catalog. */
  datatype Op =
    | LoginOp(username: string, code: string)
    | LogoutOp
    | UpdateSpinsOp(userId: int, newSpins: int)
    | AddPrizeOp(prize: Prize)
    | RemovePrizeOp(prizeId: string)
    | SpinOp(userId: int, pick: nat, now: Timestamp)
    | GiveSpinsOp(userId: int, amount: int)
    | ResetOp

  /** The index `performSpin` uses for the trace's `pick`. */
  function PickIndex(s: State, pick: nat): (idx: int)
    ensures ValidPick(s, idx)
  {
    if |s.prizes| == 0 then 0 else pick % |s.prizes|
  }

  /** The tables after one request, whatever it resolved with. */
  function Apply(s: State, op: Op): State
  {
    match op
    case LoginOp(name, code) => Login(s, name, code).next
    case LogoutOp => Logout(s).next
    case UpdateSpinsOp(id, n) => UpdateSpins(s, id, n).next
    case AddPrizeOp(p) => AddPrize(s, p).next
    case RemovePrizeOp(id) => RemovePrize(s, id).next
    case SpinOp(id, pick, now) => PerformSpin(s, id, PickIndex(s, pick), now).next
    case GiveSpinsOp(id, amount) => GiveSpins(s, id, amount).next
    case ResetOp => Reset(s).next
  }

  /** The tables after a sequence of requests, each completing before the
      next begins. */
  function Run(s: State, ops: seq<Op>): State
    decreases |ops|
  {
    if ops == [] then s else Run(Apply(s, ops[0]), ops[1..])
  }

  lemma InitialValid()
    ensures Valid(Initial)
  {
  }

  lemma ApplyPreservesValid(s: State, op: Op)
    requires Valid(s)
    ensures Valid(Apply(s, op))
  {
  }

  /** Every sequence of requests keeps the invariant. */
  lemma {:induction false} RunPreservesValid(s: State, ops: seq<Op>)
    requires Valid(s)
    ensures Valid(Run(s, ops))
    decreases |ops|
  {
    if ops != [] {
      ApplyPreservesValid(s, ops[0]);
      RunPreservesValid(Apply(s, ops[0]), ops[1..]);
    }
  }

  /** Every state reachable from load time satisfies the invariant. */
  lemma ReachableValid(ops: seq<Op>)
    ensures Valid(Run(Initial, ops))
  {
    InitialValid();
    RunPreservesValid(Initial, ops);
  }

  // --------------------------------------------------------------- login

  /** Logging in again under the same name returns the same user and
      changes nothing, whether the first call found or created it. */
  lemma LoginIdempotent(s: State, username: string, code1: string, code2: string)
    ensures var first := Login(s, username, code1);
      Login(first.next, username, code2) == Step(first.reply, first.next)
  {
    var first := Login(s, username, code1);
    if FindByName(s.users, username).None? {
      var n := s.nextUserId;
      var found := FindByName(first.next.users, username);
      assert n in first.next.users && first.next.users[n].username == username;
      assert found.Some?;
      assert forall k :: k in first.next.users && k != n ==> first.next.users[k].username != username;
    }
  }

  /** In a state that keeps the invariant, the user `login` returns is the
      one `getUser` then finds under that user's id. */
  lemma LoginThenGetUser(s: State, username: string, code: string)
    requires Valid(s)
    ensures var r := Login(s, username, code);
      GetUser(r.next, r.reply.value.id) == Some(r.reply.value)
  {
  }

  /** Once the counter has moved past the seeded id 2, creating a user
      keeps every existing user and grows the table by one. */
  lemma LoginKeepsUsersAfterFirstCreation(s: State, username: string, code: string)
    requires Valid(s)
    requires FindByName(s.users, username).None?
    requires s.nextUserId != 2
    ensures var t := Login(s, username, code).next;
      && |t.users| == |s.users| + 1
      && forall k :: k in s.users ==> k in t.users && t.users[k] == s.users[k]
  {
  }

  /** The first user created after load time is stored under id 2 and
      replaces the seeded "user1", who can no longer be found. */
  lemma FirstLoginReplacesUser1(code: string)
    ensures var r := Login(Initial, "alice", code);
      && r.reply == Ok(User(2, "alice", 5, false))
      && r.next.users.Keys == {1, 2}
      && r.next.nextUserId == 3
      && FindByName(r.next.users, "user1").None?
  {
  }

  /** Logging in as "admin" at load time returns the seeded admin and
      creates nobody. */
  lemma AdminLoginFindsSeed(code: string)
    ensures Login(Initial, "admin", code) == Step(Ok(Admin), Initial)
  {
    assert "user1"[0] != "admin"[0];
    assert Initial.users.Keys == {1, 2};
    assert Initial.users[1].username == "admin";
    var found := FindByName(Initial.users, "admin");
    assert found.Some? && found.value == 1;
  }

  // ------------------------------------------------------------ lookups

  /** `getSpins` reports what `getUser` shows, and 0 where `getUser`
      finds nobody. */
  lemma GetSpinsAgreesWithGetUser(s: State, userId: int)
    ensures GetSpins(s, userId) == match GetUser(s, userId)
      case Some(u) => u.spins
      case None => 0
  {
  }

  /** In a state that keeps the invariant, every user `listUsers` returns
      is what `getUser` returns for that user's id. */
  lemma ListUsersAgreesWithGetUser(s: State)
    requires Valid(s)
    ensures forall i :: 0 <= i < |ListUsers(s)| ==> GetUser(s, ListUsers(s)[i].id) == Some(ListUsers(s)[i])
  {
  }

  // ---------------------------------------------------------------- spins

  /** `giveSpins` is `updateSpins` with the old count plus the amount. */
  lemma GiveSpinsIsRelativeUpdate(s: State, userId: int, amount: int)
    requires userId in s.users
    ensures GiveSpins(s, userId, amount).next
         == UpdateSpins(s, userId, GetSpins(s, userId) + amount).next
  {
  }

  /** Two grants add up. */
  lemma GiveSpinsAccumulates(s: State, userId: int, a: int, b: int)
    ensures GiveSpins(GiveSpins(s, userId, a).next, userId, b).next == GiveSpins(s, userId, a + b).next
  {
  }

  /** The last `updateSpins` wins. */
  lemma UpdateSpinsLastWriteWins(s: State, userId: int, m: int, n: int)
    ensures UpdateSpins(UpdateSpins(s, userId, m).next, userId, n).next == UpdateSpins(s, userId, n).next
  {
  }

  /** A spin that gets past both checks costs exactly one spin, visible
      through `getSpins`, and touches the user table as `giveSpins(-1)`
      would, whether it resolves or throws. */
  lemma SpinCostsOne(s: State, userId: int, idx: int, now: Timestamp)
    requires ValidPick(s, idx)
    requires userId in s.users && s.users[userId].spins > 0
    ensures var t := PerformSpin(s, userId, idx, now).next;
      && GetSpins(t, userId) == GetSpins(s, userId) - 1
      && t.users == GiveSpins(s, userId, -1).next.users
  {
  }

  /** With one spin left, a first spin resolves with 0 left and a second
      one is rejected without changing anything. */
  lemma LastSpinThenNoSpinsLeft(s: State, userId: int, idx1: int, idx2: int, now1: Timestamp, now2: Timestamp)
    requires userId in s.users && s.users[userId].spins == 1
    requires 0 <= idx1 < |s.prizes| && 0 <= idx2 < |s.prizes|
    ensures var first := PerformSpin(s, userId, idx1, now1);
      && first.reply.Ok? && first.reply.value.spinsLeft == 0
      && ValidPick(first.next, idx2)
      && PerformSpin(first.next, userId, idx2, now2) == Step(Rejected(NoSpinsLeft), first.next)
  {
  }

  /** `giveSpins` accepts a negative amount, so a reachable state can hold
      a negative spin count; `performSpin` then rejects. */
  lemma GiveSpinsCanGoNegative(now: Timestamp)
    ensures var s := GiveSpins(Initial, 1, -11).next;
      && s == Run(Initial, [GiveSpinsOp(1, -11)])
      && GetSpins(s, 1) == -1
      && PerformSpin(s, 1, 0, now) == Step(Rejected(NoSpinsLeft), s)
  {
  }

  /** With an empty catalog a spin throws after taking the spin, so the
      balance drains while the log stays empty. */
  lemma EmptyCatalogLosesSpin(s: State, userId: int, now: Timestamp)
    requires s.prizes == []
    requires userId in s.users && s.users[userId].spins > 0
    ensures var r := PerformSpin(s, userId, 0, now);
      && r.reply.Thrown?
      && GetSpins(r.next, userId) == GetSpins(s, userId) - 1
      && r.next.wins == s.wins
      && FetchPreviousWins(r.next, userId, DefaultWinLimit) == FetchPreviousWins(s, userId, DefaultWinLimit)
  {
  }

  // -------------------------------------------------------------- win log

  /** Filtering the log by user commutes with concatenation: it keeps the
      records' relative order. */
  lemma {:induction false} UserWinsAppend(a: seq<WinRecord>, b: seq<WinRecord>, userId: int)
    ensures UserWins(a + b, userId) == UserWins(a, userId) + UserWins(b, userId)
  {
    if a != [] {
      assert (a + b)[0] == a[0];
      assert (a + b)[1..] == a[1..] + b;
      UserWinsAppend(a[1..], b, userId);
    } else {
      assert a + b == b;
    }
  }

  /** A successful spin puts its record at the head of the user's history;
      the rest of the history is what it was, one shorter. */
  lemma SpinShowsNewestFirst(s: State, userId: int, idx: int, now: Timestamp, limit: int)
    requires ValidPick(s, idx)
    requires PerformSpin(s, userId, idx, now).reply.Ok?
    requires limit >= 1
    ensures var r := PerformSpin(s, userId, idx, now);
      var h := FetchPreviousWins(r.next, userId, limit);
      && |h| >= 1
      && h[0] == r.reply.value.record
      && h[1..] == FetchPreviousWins(s, userId, limit - 1)
  {
  }

  /** A spin by one user leaves every other user's history as it was. */
  lemma SpinLeavesOthersHistory(s: State, userId: int, idx: int, now: Timestamp, other: int, limit: int)
    requires ValidPick(s, idx)
    requires other != userId
    ensures var r := PerformSpin(s, userId, idx, now);
      FetchPreviousWins(r.next, other, limit) == FetchPreviousWins(s, other, limit)
  {
  }

  /** A non-negative limit bounds the history; a negative one drops that
      many records from the end instead (`slice` semantics), so the bound
      does not hold for it. */
  lemma NegativeLimitCountsFromEnd(now: Timestamp)
    ensures var s := PerformSpin(PerformSpin(Initial, 1, 0, now).next, 1, 1, now).next;
      && |FetchPreviousWins(s, 1, 2)| == 2
      && |FetchPreviousWins(s, 1, -1)| == 1
  {
  }

  // ---------------------------------------------------------- prize edits

  lemma {:induction false} WithoutIdAppend(a: seq<Prize>, b: seq<Prize>, id: string)
    ensures WithoutId(a + b, id) == WithoutId(a, id) + WithoutId(b, id)
  {
    if a != [] {
      assert (a + b)[0] == a[0];
      assert (a + b)[1..] == a[1..] + b;
      WithoutIdAppend(a[1..], b, id);
    } else {
      assert a + b == b;
    }
  }

  lemma {:induction false} WithoutIdAbsent(prizes: seq<Prize>, id: string)
    requires forall i :: 0 <= i < |prizes| ==> prizes[i].id != id
    ensures WithoutId(prizes, id) == prizes
  {
    if prizes != [] {
      WithoutIdAbsent(prizes[1..], id);
    }
  }

  /** Removing the same id twice removes nothing more. */
  lemma RemovePrizeIdempotent(s: State, id: string)
    ensures var once := RemovePrize(s, id);
      RemovePrize(once.next, id) == once
  {
    var once := RemovePrize(s, id);
    assert forall i :: 0 <= i < |once.next.prizes| ==> once.next.prizes[i] in once.next.prizes;
    WithoutIdAbsent(once.next.prizes, id);
  }

  /** Adding a prize under a fresh id and removing that id restores the
      catalog exactly. */
  lemma AddThenRemove(s: State, prize: Prize)
    requires forall i :: 0 <= i < |s.prizes| ==> s.prizes[i].id != prize.id
    ensures RemovePrize(AddPrize(s, prize).next, prize.id).next == s
  {
    WithoutIdAppend(s.prizes, [prize], prize.id);
    WithoutIdAbsent(s.prizes, prize.id);
    assert WithoutId([prize], prize.id) == [];
  }

  /** A prize added under a fresh id is in the catalog `fetchPrizes`
      returns; after removing its id no entry with that id is. */
  lemma AddedPrizeIsFetchedUntilRemoved(s: State, prize: Prize)
    ensures prize in FetchPrizes(AddPrize(s, prize).next)
    ensures forall q :: q in FetchPrizes(RemovePrize(AddPrize(s, prize).next, prize.id).next) ==> q.id != prize.id
  {
  }

  // ---------------------------------------------------------------- reset

  /** `reset` forgets everything about the state it starts from. */
  lemma ResetForgetsPriorState(s: State, t: State)
    ensures Reset(s) == Reset(t)
  {
  }

  /** `reset` is not the load-time state: "user1" is gone, so logging in
      as "user1" afterwards creates a fresh user with 5 spins, not 3. */
  lemma ResetIsNotInitial(s: State, code: string)
    ensures Reset(s).next != Initial
    ensures Login(Reset(s).next, "user1", code).reply == Ok(User(2, "user1", 5, false))
  {
    assert 2 in Initial.users;
    assert "admin"[0] != "user1"[0];
  }

  // ----------------------------------------------------------- user list

  /** In a state that keeps the invariant, `listUsers` returns users in
      strictly increasing id order. */
  lemma ListUsersByAscendingId(s: State)
    requires Valid(s)
    ensures forall i, j :: 0 <= i < j < |ListUsers(s)| ==> ListUsers(s)[i].id < ListUsers(s)[j].id
  {
  }
}
