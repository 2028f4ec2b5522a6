/** What a caller of the lock system sees: when each call succeeds, with which error it fails,
    what it leaves of every lock, and for how long a lock lives over whole runs. Nothing here
    speaks of how the calls compute it. */
module LockLaws {
  import opened Wrappers
  import opened Paths
  import opened Decimal
  import opened LockTable
  import opened LockProtocol

  /** The lock has not run out; one that is held does not. */
  predicate Live(t: Table, token: Token, now: int) {
    && token in t.locks
    && (t.locks[token].held || t.locks[token].duration < 0 || now < t.locks[token].expiry)
  }

  /** Of the locks of t other than `token`, the live ones are in t', unchanged, and no others. */
  ghost predicate OthersLive(t: Table, t': Table, token: Token, now: int) {
    forall k | k != token :: (k in t'.locks <==> Live(t, k, now)) && (k in t'.locks ==> t'.locks[k] == t.locks[k])
  }

  /** Exactly the live locks are left, unchanged. */
  ghost predicate OnlyCollected(t: Table, t': Table, now: int) {
    t'.gen == t.gen && forall k :: (k in t'.locks <==> Live(t, k, now)) && (k in t'.locks ==> t'.locks[k] == t.locks[k])
  }

  lemma CollectIsLive(t: Table, now: int)
    ensures OnlyCollected(t, Collect(t, now), now)
  {
  }

  /** Create is refused exactly when a live lock covers a resource that the new one would. The
      lock it makes has a token never used before and all that was asked for, it lives until
      exactly its duration has passed, and no other live lock changes. */
  lemma CreateExactly(t: Table, now: int, root: Path, zeroDepth: bool, duration: int, owner: string)
    requires Wellformed(t)
    ensures var (t', r) := Create(t, now, root, zeroDepth, duration, owner);
            && (r.Err? <==> exists k, name :: Live(t, k, now) && Covers(t.locks[k], name) && (name == root || (!zeroDepth && root <= name)))
            && (r.Err? ==> r.error == ErrLocked && OnlyCollected(t, t', now))
            && (r.Ok? ==>
                  && r.value != NO_TOKEN && !Generated(r.value, t.gen) && Generated(r.value, t'.gen)
                  && OthersLive(t, t', r.value, now)
                  && r.value in t'.locks
                  && t'.locks[r.value].root == root && t'.locks[r.value].zeroDepth == zeroDepth
                  && t'.locks[r.value].duration == duration && t'.locks[r.value].owner == owner && !t'.locks[r.value].held
                  && forall now' | now' >= now :: r.value in Collect(t', now').locks <==> duration < 0 || now' < now + duration)
  {
    hide CanCreate, Collect, Live, Itoa, Generated, Wellformed;
    CollectIsLive(t, now);
    RefusedExactly(t, now, root, zeroDepth);
    NewTokenIsFree(t, now);
    NextTokenIsNew(t.gen);
    var (t', r) := Create(t, now, root, zeroDepth, duration, owner);
    if r.Ok? {
      LifeOf(t', r.value, now);
    }
  }

  lemma NewTokenIsFree(t: Table, now: int)
    requires Wellformed(t)
    ensures Itoa(t.gen + 1) !in t.locks && Itoa(t.gen + 1) != NO_TOKEN && Generated(Itoa(t.gen + 1), t.gen + 1)
    ensures !Live(t, Itoa(t.gen + 1), now)
  {
    NextTokenIsNew(t.gen);
    NextTokenIsNew(t.gen + 1);
  }

  lemma LifeOf(t: Table, token: Token, now: int)
    requires token in t.locks && !t.locks[token].held
    ensures forall now' | now' >= now :: token in Collect(t, now').locks <==> t.locks[token].duration < 0 || now' < t.locks[token].expiry
  {
  }

  lemma RefusedExactly(t: Table, now: int, root: Path, zeroDepth: bool)
    ensures CanCreate(Collect(t, now), root, zeroDepth) <==>
            !exists k, name :: Live(t, k, now) && Covers(t.locks[k], name) && (name == root || (!zeroDepth && root <= name))
  {
    var c := Collect(t, now);
    var lock := Lock(root, zeroDepth, 0, 0, false, "");
    CollectIsLive(t, now);
    CanCreateIsNoOverlap(c, lock);
    if !CanCreate(c, root, zeroDepth) {
      var k, name :| CoveredBy(c, k, name) && Covers(lock, name);
      assert Live(t, k, now) && Covers(t.locks[k], name);
    }
    forall k, name | Live(t, k, now) && Covers(t.locks[k], name) && (name == root || (!zeroDepth && root <= name))
      ensures !CanCreate(c, root, zeroDepth)
    {
      assert CoveredBy(c, k, name) && Covers(lock, name);
    }
  }

  /** Refresh succeeds exactly on a live lock that is not held, and fails on a token that is not
      live and on a held lock with an error for each. The lock has the new duration, is otherwise
      what it was, and lives until exactly that duration has passed from now on. */
  lemma RefreshExactly(t: Table, now: int, token: Token, duration: int)
    ensures var (t', r) := Refresh(t, now, token, duration);
            && t'.gen == t.gen && OthersLive(t, t', token, now)
            && (r == Err(ErrNoSuchLock) <==> !Live(t, token, now))
            && (r == Err(ErrLocked) <==> Live(t, token, now) && t.locks[token].held)
            && (r.Ok? <==> Live(t, token, now) && !t.locks[token].held)
            && (r.Err? ==> OnlyCollected(t, t', now))
            && (r.Ok? ==>
                  && token in t'.locks && t'.locks[token] == r.value
                  && r.value.duration == duration && r.value == t.locks[token].(duration := duration, expiry := r.value.expiry)
                  && forall now' | now' >= now :: token in Collect(t', now').locks <==> duration < 0 || now' < now + duration)
  {
    CollectIsLive(t, now);
  }

  /** Unlock removes exactly a live lock that is not held. */
  lemma UnlockExactly(t: Table, now: int, token: Token)
    ensures var (t', r) := Unlock(t, now, token);
            && t'.gen == t.gen && OthersLive(t, t', token, now)
            && (r == Err(ErrNoSuchLock) <==> !Live(t, token, now))
            && (r == Err(ErrLocked) <==> Live(t, token, now) && t.locks[token].held)
            && (r.Ok? <==> Live(t, token, now) && !t.locks[token].held)
            && (r.Err? ==> OnlyCollected(t, t', now))
            && (r.Ok? ==> token !in t'.locks)
  {
    CollectIsLive(t, now);
  }

  /** The condition grants the resource, and none before it does. */
  predicate FirstGrant(t: Table, name: Path, conditions: seq<Condition>, i: nat) {
    && i < |conditions| && Grants(t, conditions[i].token, name)
    && forall j | 0 <= j < i :: !Grants(t, conditions[j].token, name)
  }

  lemma {:induction false} LookupTakesFirst(t: Table, name: Path, conditions: seq<Condition>, i: nat)
    requires NO_TOKEN !in t.locks && FirstGrant(t, name, conditions, i)
    ensures Lookup(t, name, conditions) == conditions[i].token
  {
    if i > 0 {
      assert !Grants(t, conditions[0].token, name);
      forall j | 0 <= j < i - 1 ensures !Grants(t, conditions[1..][j].token, name) {
        assert conditions[1..][j] == conditions[j + 1];
      }
      LookupTakesFirst(t, name, conditions[1..], i - 1);
    }
  }

  /** The token of the first condition that grants the resource; none for no resource. */
  ghost predicate IsFirst(t: Table, name: Option<Path>, conditions: seq<Condition>, token: Token) {
    if name.None? then token == NO_TOKEN
    else exists i: nat :: FirstGrant(t, name.value, conditions, i) && token == conditions[i].token
  }

  lemma GrantedHasFirst(t: Table, name: Path, conditions: seq<Condition>, i: nat) returns (first: nat)
    requires i < |conditions| && Grants(t, conditions[i].token, name)
    ensures FirstGrant(t, name, conditions, first)
  {
    if j :| 0 <= j < i && Grants(t, conditions[j].token, name) {
      first := GrantedHasFirst(t, name, conditions, j);
    } else {
      first := i;
    }
  }

  /** Confirm holds for each named resource the first lock presented that is free and covers
      it, and fails with one error, changing nothing, when one of them has none. The function it
      returns frees them again, which leaves exactly the locks that were live. */
  lemma ConfirmExactly(t: Table, now: int, name0: Option<Path>, name1: Option<Path>, conditions: seq<Condition>)
    requires Wellformed(t)
    ensures var (t', r) := Confirm(t, now, name0, name1, conditions);
            && (r.Err? ==> r.error == ErrConfirmationFailed && OnlyCollected(t, t', now))
            && (r.Ok? ==>
                  && OnlyCollected(t, Release(t', r.value), now)
                  && exists k0, k1 :: IsFirst(Collect(t, now), name0, conditions, k0) && IsFirst(Collect(t, now), name1, conditions, k1)
                                      && TokensOf(r.value) == {k0, k1} - {NO_TOKEN})
  {
    hide Confirm, Wellformed, Takes, IsFirst, Release, Granted, TokensOf, Collect;
    var (t', r) := Confirm(t, now, name0, name1, conditions);
    var c := Collect(t, now);
    CollectIsLive(t, now);
    ConfirmSucceedsWhenGranted(t, now, name0, name1, conditions);
    ConfirmTakes(t, now, name0, name1, conditions);
    ConfirmAnswers(t, now, name0, name1, conditions);
    if r.Ok? {
      EmptyIsNoToken(t, now);
      var k0 := FirstOf(c, name0, conditions);
      var k1 := FirstOf(c, name1, conditions);
      ReleaseRestores(c, t', r.value, conditions);
    }
  }

  lemma EmptyIsNoToken(t: Table, now: int)
    requires Wellformed(t)
    ensures NO_TOKEN !in Collect(t, now).locks
  {
    NextTokenIsNew(t.gen);
  }

  function LookupIn(t: Table, name: Option<Path>, conditions: seq<Condition>): Token {
    if name.Some? then Lookup(t, name.value, conditions) else NO_TOKEN
  }

  lemma ConfirmAnswers(t: Table, now: int, name0: Option<Path>, name1: Option<Path>, conditions: seq<Condition>)
    ensures var r := Confirm(t, now, name0, name1, conditions).1;
            && (r.Err? ==> r.error == ErrConfirmationFailed)
            && (r.Ok? ==> TokensOf(r.value) == {LookupIn(Collect(t, now), name0, conditions), LookupIn(Collect(t, now), name1, conditions)} - {NO_TOKEN})
  {
  }

  lemma FirstOf(t: Table, name: Option<Path>, conditions: seq<Condition>) returns (k: Token)
    requires NO_TOKEN !in t.locks && Granted(t, name, conditions)
    ensures IsFirst(t, name, conditions, k)
    ensures k == LookupIn(t, name, conditions)
  {
    k := NO_TOKEN;
    if name.Some? {
      var i :| 0 <= i < |conditions| && Grants(t, conditions[i].token, name.value);
      var first := GrantedHasFirst(t, name.value, conditions, i);
      LookupTakesFirst(t, name.value, conditions, first);
      k := conditions[first].token;
    }
  }

  lemma ReleaseRestores(c: Table, t': Table, claim: Claim, conditions: seq<Condition>)
    requires NO_TOKEN !in c.locks && Takes(c, t', claim, conditions)
    ensures Release(t', claim) == c
  {
    var u := Release(t', claim);
    assert u.locks.Keys == c.locks.Keys;
    forall k | k in c.locks ensures u.locks[k] == c.locks[k] {
    }
    assert u.locks == c.locks;
  }

  // ---------- Lifetimes over runs ----------

  /** The operation names the token. */
  predicate Mentions(op: Op, token: Token) {
    match op
    case OpCreate(_, _, _, _, _) => false
    case OpRefresh(_, k, _) => k == token
    case OpUnlock(_, k) => k == token
    case OpConfirm(_, _, _, conditions) => Presented(conditions, token)
    case OpRelease(_) => false
  }

  /** Whatever time the operation is given is not after `now`. */
  predicate NotAfter(op: Op, now: int) {
    match op
    case OpCreate(t, _, _, _, _) => t <= now
    case OpRefresh(t, _, _) => t <= now
    case OpUnlock(t, _) => t <= now
    case OpConfirm(t, _, _, _) => t <= now
    case OpRelease(_) => true
  }

  /** Live in one exactly when in the other, and then the same lock, which is free. */
  predicate SameLife(t: Table, t': Table, token: Token, now: int) {
    && (token in t'.locks ==> !t'.locks[token].held)
    && (Live(t', token, now) <==> Live(t, token, now))
    && (Live(t, token, now) ==> t'.locks[token] == t.locks[token])
  }

  lemma StepKeepsLife(t: Table, op: Op, token: Token, now: int)
    requires Wellformed(t) && Generated(token, t.gen) && (token in t.locks ==> !t.locks[token].held)
    requires !Mentions(op, token) && NotAfter(op, now)
    ensures SameLife(t, Step(t, op), token, now) && Generated(token, Step(t, op).gen)
  {
    hide Create, Refresh, Unlock, Confirm, Wellformed;
    match op
    case OpCreate(at, root, zeroDepth, duration, owner) =>
      CreateExactly(t, at, root, zeroDepth, duration, owner);
      NextTokenIsNew(t.gen);
    case OpRefresh(at, k, duration) => RefreshExactly(t, at, k, duration);
    case OpUnlock(at, k) => UnlockExactly(t, at, k);
    case OpConfirm(at, name0, name1, conditions) =>
      ConfirmTakes(t, at, name0, name1, conditions);
      CollectIsLive(t, at);
    case OpRelease(claim) =>
  }

  /** A free lock that nobody refreshes, unlocks or presents lives, unchanged, through any run
      until its time is up, and not longer. */
  lemma {:induction false} LivesExactly(t: Table, ops: seq<Op>, token: Token, now: int)
    requires Wellformed(t) && Generated(token, t.gen) && (token in t.locks ==> !t.locks[token].held)
    requires forall op | op in ops :: !Mentions(op, token) && NotAfter(op, now)
    ensures SameLife(t, Run(t, ops), token, now)
    decreases |ops|
  {
    if ops != [] {
      StepKeepsLife(t, ops[0], token, now);
      StepKeepsWellformed(t, ops[0]);
      LivesExactly(Step(t, ops[0]), ops[1..], token, now);
    }
  }

  /** From LOCK on: the lock is there exactly until its duration has passed. */
  lemma LockLivesExactly(t: Table, at: int, root: Path, zeroDepth: bool, duration: int, owner: string, ops: seq<Op>, now: int)
    requires Wellformed(t) && Create(t, at, root, zeroDepth, duration, owner).1.Ok? && at <= now
    requires forall op | op in ops :: !Mentions(op, Create(t, at, root, zeroDepth, duration, owner).1.value) && NotAfter(op, now)
    ensures var (t', r) := Create(t, at, root, zeroDepth, duration, owner);
            Live(Run(t', ops), r.value, now) <==> duration < 0 || now < at + duration
  {
    var (t', r) := Create(t, at, root, zeroDepth, duration, owner);
    CreateExactly(t, at, root, zeroDepth, duration, owner);
    CreateKeepsWellformed(t, at, root, zeroDepth, duration, owner);
    CollectIsLive(t', now);
    LivesExactly(t', ops, r.value, now);
  }

  /** From a refresh on, too. */
  lemma RefreshedLivesExactly(t: Table, at: int, token: Token, duration: int, ops: seq<Op>, now: int)
    requires Wellformed(t) && Refresh(t, at, token, duration).1.Ok? && at <= now
    requires forall op | op in ops :: !Mentions(op, token) && NotAfter(op, now)
    ensures Live(Run(Refresh(t, at, token, duration).0, ops), token, now) <==> duration < 0 || now < at + duration
  {
    var t' := Refresh(t, at, token, duration).0;
    RefreshExactly(t, at, token, duration);
    StepKeepsWellformed(t, OpRefresh(at, token, duration));
    CollectIsLive(t', now);
    LivesExactly(t', ops, token, now);
  }
}
