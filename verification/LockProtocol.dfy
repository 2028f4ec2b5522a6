/** Locks over whole runs: what every sequence of calls keeps, what a confirmed lock is
    protected from, and who may claim a resource while requests are interleaved. */
module LockProtocol {
  import opened Wrappers
  import opened Paths
  import opened LockTable

  // ---------- Runs of the lock system ----------

  datatype Op =
    | OpCreate(now: int, root: Path, zeroDepth: bool, duration: int, owner: string)
    | OpRefresh(now: int, token: Token, duration: int)
    | OpUnlock(now: int, token: Token)
    | OpConfirm(now: int, name0: Option<Path>, name1: Option<Path>, conditions: seq<Condition>)
    | OpRelease(claim: Claim)

  function Step(t: Table, op: Op): Table {
    match op
    case OpCreate(now, root, zeroDepth, duration, owner) => Create(t, now, root, zeroDepth, duration, owner).0
    case OpRefresh(now, token, duration) => Refresh(t, now, token, duration).0
    case OpUnlock(now, token) => Unlock(t, now, token).0
    case OpConfirm(now, name0, name1, conditions) => Confirm(t, now, name0, name1, conditions).0
    case OpRelease(claim) => Release(t, claim)
  }

  function Run(t: Table, ops: seq<Op>): Table
    decreases |ops|
  {
    if ops == [] then t else Run(Step(t, ops[0]), ops[1..])
  }

  /** Holding, releasing, refreshing and dropping locks leave what remains exclusive. */
  lemma ShrinkKeepsWellformed(t: Table, t': Table)
    requires Wellformed(t) && t'.gen == t.gen
    requires forall k | k in t'.locks :: k in t.locks && t'.locks[k].root == t.locks[k].root && t'.locks[k].zeroDepth == t.locks[k].zeroDepth
    ensures Wellformed(t')
  {
    forall j, k, name | CoveredBy(t', j, name) && CoveredBy(t', k, name) ensures j == k {
      assert CoveredBy(t, j, name) && CoveredBy(t, k, name);
    }
  }

  lemma SetHeldKeepsWellformed(t: Table, token: Token, held: bool)
    requires Wellformed(t)
    ensures Wellformed(SetHeld(t, token, held))
  {
    ShrinkKeepsWellformed(t, SetHeld(t, token, held));
  }

  lemma StepKeepsWellformed(t: Table, op: Op)
    requires Wellformed(t)
    ensures Wellformed(Step(t, op))
  {
    match op
    case OpCreate(now, root, zeroDepth, duration, owner) => CreateKeepsWellformed(t, now, root, zeroDepth, duration, owner);
    case OpRefresh(now, token, duration) => ShrinkKeepsWellformed(t, Step(t, op));
    case OpUnlock(now, token) => ShrinkKeepsWellformed(t, Step(t, op));
    case OpConfirm(now, name0, name1, conditions) =>
      ConfirmTakes(t, now, name0, name1, conditions);
      ShrinkKeepsWellformed(t, Step(t, op));
    case OpRelease(claim) =>
      SetHeldKeepsWellformed(t, claim.token1, false);
      SetHeldKeepsWellformed(SetHeld(t, claim.token1, false), claim.token0, false);
  }

  /** After any run at most one live lock covers any resource. */
  lemma {:induction false} RunIsExclusive(t: Table, ops: seq<Op>)
    requires Wellformed(t)
    ensures Wellformed(Run(t, ops))
    decreases |ops|
  {
    if ops != [] {
      StepKeepsWellformed(t, ops[0]);
      RunIsExclusive(Step(t, ops[0]), ops[1..]);
    }
  }

  function TokensOf(claim: Claim): set<Token> {
    {claim.token0, claim.token1} - {NO_TOKEN}
  }

  predicate Releases(op: Op, token: Token) {
    op.OpRelease? && token in TokensOf(op.claim)
  }

  lemma StepKeepsConfirmed(t: Table, token: Token, op: Op)
    requires Wellformed(t) && token in t.locks && t.locks[token].held && !Releases(op, token)
    ensures token in Step(t, op).locks && Step(t, op).locks[token] == t.locks[token]
  {
    match op
    case OpCreate(now, root, zeroDepth, duration, owner) => CreateSpares(t, now, root, zeroDepth, duration, owner, token);
    case OpRefresh(now, k, duration) => RefreshAndUnlockSpare(t, now, k, duration, token);
    case OpUnlock(now, k) => RefreshAndUnlockSpare(t, now, k, 0, token);
    case OpConfirm(now, name0, name1, conditions) => ConfirmSpares(t, now, name0, name1, conditions, token);
    case OpRelease(claim) =>
      NextTokenIsNew(t.gen);
      ReleaseSpares(t, claim, token);
  }

  lemma CreateSpares(t: Table, now: int, root: Path, zeroDepth: bool, duration: int, owner: string, token: Token)
    requires Wellformed(t) && token in t.locks && t.locks[token].held
    ensures var t' := Create(t, now, root, zeroDepth, duration, owner).0; token in t'.locks && t'.locks[token] == t.locks[token]
  {
    NextTokenIsNew(t.gen);
  }

  lemma RefreshAndUnlockSpare(t: Table, now: int, k: Token, duration: int, token: Token)
    requires token in t.locks && t.locks[token].held
    ensures var t' := Refresh(t, now, k, duration).0; token in t'.locks && t'.locks[token] == t.locks[token]
    ensures var t' := Unlock(t, now, k).0; token in t'.locks && t'.locks[token] == t.locks[token]
  {
  }

  lemma ConfirmSpares(t: Table, now: int, name0: Option<Path>, name1: Option<Path>, conditions: seq<Condition>, token: Token)
    requires Wellformed(t) && token in t.locks && t.locks[token].held
    ensures var t' := Confirm(t, now, name0, name1, conditions).0; token in t'.locks && t'.locks[token] == t.locks[token]
  {
    ConfirmTakes(t, now, name0, name1, conditions);
    assert token in Collect(t, now).locks;
  }

  lemma ReleaseSpares(t: Table, claim: Claim, token: Token)
    requires token in t.locks && token != claim.token0 && token != claim.token1
    ensures token in Release(t, claim).locks && Release(t, claim).locks[token] == t.locks[token]
  {
  }

  /** A confirmed lock stays, unchanged, through everything but its release: neither expiry
      nor Unlock nor Refresh touches it. */
  lemma {:induction false} ConfirmedLockStays(t: Table, token: Token, ops: seq<Op>)
    requires Wellformed(t) && token in t.locks && t.locks[token].held
    requires forall i | 0 <= i < |ops| :: !Releases(ops[i], token)
    ensures token in Run(t, ops).locks && Run(t, ops).locks[token] == t.locks[token]
    decreases |ops|
  {
    if ops != [] {
      StepKeepsConfirmed(t, token, ops[0]);
      StepKeepsWellformed(t, ops[0]);
      ConfirmedLockStays(Step(t, ops[0]), token, ops[1..]);
    }
  }

  // ---------- What Confirm promises ----------

  /** The token names a free live lock that covers the resource. */
  predicate Grants(t: Table, token: Token, name: Path) {
    token in t.locks && !t.locks[token].held && Covers(t.locks[token], name)
  }

  predicate Presented(conditions: seq<Condition>, token: Token) {
    exists i :: 0 <= i < |conditions| && conditions[i].token == token
  }

  lemma {:induction false} LookupIsFirst(t: Table, name: Path, conditions: seq<Condition>)
    requires NO_TOKEN !in t.locks
    ensures var k := Lookup(t, name, conditions);
            if k == NO_TOKEN then forall i | 0 <= i < |conditions| :: !Grants(t, conditions[i].token, name)
            else Grants(t, k, name) && Presented(conditions, k)
  {
    if conditions != [] {
      LookupIsFirst(t, name, conditions[1..]);
      var k := Lookup(t, name, conditions);
      assert conditions[0].token != k && k != NO_TOKEN ==> Presented(conditions[1..], k);
      if Presented(conditions[1..], k) {
        var i :| 0 <= i < |conditions[1..]| && conditions[1..][i].token == k;
        assert conditions[i + 1].token == k;
      }
    }
  }

  /** Some condition grants the resource, if there is one. */
  predicate Granted(t: Table, name: Option<Path>, conditions: seq<Condition>) {
    name.Some? ==> exists i :: 0 <= i < |conditions| && Grants(t, conditions[i].token, name.value)
  }

  predicate ClaimCovers(t: Table, claim: Claim, name: Option<Path>) {
    name.Some? ==> exists k :: k in TokensOf(claim) && k in t.locks && Covers(t.locks[k], name.value)
  }

  /** Free locks that were presented become held; nothing else changes. */
  predicate Takes(c: Table, t': Table, claim: Claim, conditions: seq<Condition>) {
    && t'.gen == c.gen && t'.locks.Keys == c.locks.Keys
    && (forall k | k in c.locks :: t'.locks[k] == if k in TokensOf(claim) then c.locks[k].(held := true) else c.locks[k])
    && (forall k | k in TokensOf(claim) :: k in c.locks && !c.locks[k].held && Presented(conditions, k))
  }

  /** Confirm succeeds exactly when each named resource is covered by a free live lock whose
      token is among the conditions. */
  lemma ConfirmSucceedsWhenGranted(t: Table, now: int, name0: Option<Path>, name1: Option<Path>, conditions: seq<Condition>)
    requires Wellformed(t)
    ensures Confirm(t, now, name0, name1, conditions).1.Ok? <==>
            Granted(Collect(t, now), name0, conditions) && Granted(Collect(t, now), name1, conditions)
  {
    NextTokenIsNew(t.gen);
    var c := Collect(t, now);
    if name0.Some? {
      LookupIsFirst(c, name0.value, conditions);
    }
    if name1.Some? {
      LookupIsFirst(c, name1.value, conditions);
    }
  }

  /** It then holds locks that cover both, and changes nothing else. */
  lemma ConfirmTakes(t: Table, now: int, name0: Option<Path>, name1: Option<Path>, conditions: seq<Condition>)
    requires Wellformed(t)
    ensures var (t', r) := Confirm(t, now, name0, name1, conditions);
            var c := Collect(t, now);
            if r.Err? then t' == c
            else Takes(c, t', r.value, conditions) && ClaimCovers(t', r.value, name0) && ClaimCovers(t', r.value, name1)
  {
    NextTokenIsNew(t.gen);
    var c := Collect(t, now);
    var k0 := if name0.Some? then Lookup(c, name0.value, conditions) else NO_TOKEN;
    var k1 := if name1.Some? then Lookup(c, name1.value, conditions) else NO_TOKEN;
    if name0.Some? {
      LookupIsFirst(c, name0.value, conditions);
    }
    if name1.Some? {
      LookupIsFirst(c, name1.value, conditions);
    }
    var (t', r) := Confirm(t, now, name0, name1, conditions);
    if r.Ok? {
      TakesHolds(c, k0, k1, conditions);
      assert name0.Some? ==> k0 in TokensOf(r.value);
      assert name1.Some? ==> k1 in TokensOf(r.value);
    }
  }

  lemma TakesHolds(c: Table, k0: Token, k1: Token, conditions: seq<Condition>)
    requires NO_TOKEN !in c.locks
    requires forall k | k in {k0, k1} && k != NO_TOKEN :: k in c.locks && !c.locks[k].held && Presented(conditions, k)
    ensures var k1' := if k1 == k0 then NO_TOKEN else k1;
            Takes(c, SetHeld(SetHeld(c, k0, true), k1', true), Claim(k0, k1'), conditions)
  {
  }

  // ---------- Requests in flight ----------

  type Request = nat

  datatype Hold = Hold(claim: Claim, name0: Option<Path>, name1: Option<Path>)

  /** The lock table, the tokens that LOCK has returned to clients, the temporary locks and
      who made them, and the confirmed claims that have not been released. */
  datatype System = System(table: Table, issued: set<Token>, temps: map<Token, Request>, holds: map<Request, Hold>)

  /** One call of the lock system on behalf of a client or of a request. A request without an
      If header makes temporary locks one name at a time, so others may come in between. */
  datatype Action =
    | LockFor(now: int, root: Path, zeroDepth: bool, duration: int, owner: string)
    | RefreshBy(now: int, token: Token, duration: int)
    | UnlockBy(now: int, token: Token)
    | LockTemp(request: Request, now: int, name: Path)
    | UnlockTemp(request: Request, now: int, token: Token)
    | ConfirmFor(request: Request, now: int, name0: Option<Path>, name1: Option<Path>, conditions: seq<Condition>)
    | ReleaseFor(request: Request)

  const INFINITE := -1

  /** Clients present only tokens that LOCK has returned; a request gives back what it took. */
  predicate Allowed(s: System, a: Action) {
    match a
    case LockFor(_, _, _, _, _) => true
    case RefreshBy(_, token, _) => token in s.issued
    case UnlockBy(_, token) => token in s.issued
    case LockTemp(_, _, _) => true
    case UnlockTemp(request, _, token) => token in s.temps && s.temps[token] == request
    case ConfirmFor(request, _, _, _, conditions) =>
      request !in s.holds && forall i | 0 <= i < |conditions| :: conditions[i].token == NO_TOKEN || conditions[i].token in s.issued
    case ReleaseFor(request) => request in s.holds
  }

  function Act(s: System, a: Action): System {
    match a
    case LockFor(now, root, zeroDepth, duration, owner) =>
      var (t, r) := Create(s.table, now, root, zeroDepth, duration, owner);
      s.(table := t, issued := if r.Ok? then s.issued + {r.value} else s.issued)
    case RefreshBy(now, token, duration) => s.(table := Refresh(s.table, now, token, duration).0)
    case UnlockBy(now, token) => s.(table := Unlock(s.table, now, token).0)
    case LockTemp(request, now, name) =>
      var (t, r) := Create(s.table, now, name, true, INFINITE, "");
      s.(table := t, temps := if r.Ok? then s.temps[r.value := request] else s.temps)
    case UnlockTemp(request, now, token) =>
      s.(table := Unlock(s.table, now, token).0, temps := s.temps - {token})
    case ConfirmFor(request, now, name0, name1, conditions) =>
      var (t, r) := Confirm(s.table, now, name0, name1, conditions);
      s.(table := t, holds := if r.Ok? then s.holds[request := Hold(r.value, name0, name1)] else s.holds)
    case ReleaseFor(request) =>
      if request in s.holds then
        s.(table := Release(s.table, s.holds[request].claim), holds := s.holds - {request})
      else s
  }

  function ActAll(s: System, actions: seq<Action>): System
    decreases |actions|
  {
    if actions == [] then s else ActAll(Act(s, actions[0]), actions[1..])
  }

  predicate AllowedRun(s: System, actions: seq<Action>)
    decreases |actions|
  {
    actions != [] ==> Allowed(s, actions[0]) && AllowedRun(Act(s, actions[0]), actions[1..])
  }

  /** The request has claimed the resource: by a temporary lock on it, or by a confirmed claim. */
  ghost predicate HasClaim(s: System, request: Request, name: Path) {
    || (exists k :: k in s.temps && s.temps[k] == request && k in s.table.locks && s.table.locks[k].root == name)
    || (request in s.holds && (s.holds[request].name0 == Some(name) || s.holds[request].name1 == Some(name)))
  }

  // A temporary lock is live, free, and unknown to clients.
  ghost predicate GoodTemp(s: System, k: Token) {
    && k in s.table.locks && k !in s.issued
    && s.table.locks[k].zeroDepth && s.table.locks[k].duration < 0 && !s.table.locks[k].held
  }

  // A confirmed claim still holds its locks, which cover what was named.
  ghost predicate GoodHold(s: System, h: Hold) {
    && (forall k | k in TokensOf(h.claim) :: k in s.table.locks && s.table.locks[k].held)
    && ClaimCovers(s.table, h.claim, h.name0)
    && ClaimCovers(s.table, h.claim, h.name1)
  }

  ghost predicate Consistent(s: System) {
    && Wellformed(s.table)
    && (forall k | k in s.issued || k in s.temps :: Generated(k, s.table.gen))
    && (forall k {:trigger GoodTemp(s, k)} | k in s.temps :: GoodTemp(s, k))
    && (forall r {:trigger GoodHold(s, s.holds[r])} | r in s.holds :: GoodHold(s, s.holds[r]))
    && (forall r, r' | r in s.holds && r' in s.holds && r != r' :: TokensOf(s.holds[r].claim) !! TokensOf(s.holds[r'].claim))
  }

  /** At most one request in flight has a claim on any resource. */
  lemma ClaimsAreExclusive(s: System, r: Request, r': Request, name: Path)
    requires Consistent(s) && HasClaim(s, r, name) && HasClaim(s, r', name)
    ensures r == r'
  {
    var k := CoveringToken(s, r, name);
    var k' := CoveringToken(s, r', name);
    assert CoveredBy(s.table, k, name) && CoveredBy(s.table, k', name);
  }

  /** A claim rests on a live lock that covers the resource and belongs to the request. */
  lemma CoveringToken(s: System, r: Request, name: Path) returns (k: Token)
    requires Consistent(s) && HasClaim(s, r, name)
    ensures k in s.table.locks && Covers(s.table.locks[k], name)
    ensures s.table.locks[k].held ==> r in s.holds && k in TokensOf(s.holds[r].claim)
    ensures !s.table.locks[k].held ==> k in s.temps && s.temps[k] == r
  {
    if r in s.holds && (s.holds[r].name0 == Some(name) || s.holds[r].name1 == Some(name)) {
      assert GoodHold(s, s.holds[r]);
      k :| k in TokensOf(s.holds[r].claim) && k in s.table.locks && Covers(s.table.locks[k], name);
    } else {
      k :| k in s.temps && s.temps[k] == r && k in s.table.locks && s.table.locks[k].root == name;
      assert GoodTemp(s, k);
    }
  }

  /** A call that leaves the temporary and the held locks alone keeps the claims in order. */
  lemma QuietStep(s: System, t': Table, issued': set<Token>)
    requires Consistent(s) && Wellformed(t')
    requires forall k | Generated(k, s.table.gen) :: Generated(k, t'.gen)
    requires forall k | k in s.table.locks && (k in s.temps || s.table.locks[k].held) :: k in t'.locks && t'.locks[k] == s.table.locks[k]
    requires forall k | k in issued' :: Generated(k, t'.gen) && k !in s.temps
    ensures Consistent(s.(table := t', issued := issued'))
  {
    var s' := s.(table := t', issued := issued');
    forall k | k in s'.temps ensures GoodTemp(s', k) {
      assert GoodTemp(s, k);
    }
    forall r | r in s'.holds ensures GoodHold(s', s'.holds[r]) {
      assert GoodHold(s, s.holds[r]);
    }
  }

  /** Collecting expired locks spares temporary and held ones. */
  lemma CollectSpares(s: System, now: int)
    requires Consistent(s)
    ensures forall k | k in s.table.locks && (k in s.temps || s.table.locks[k].held) :: k in Collect(s.table, now).locks
  {
    forall k | k in s.temps ensures k in Collect(s.table, now).locks {
      assert GoodTemp(s, k);
    }
  }

  lemma IssuedAreNotTemporary(s: System)
    requires Consistent(s)
    ensures forall k | k in s.issued :: k !in s.temps
  {
    forall k | k in s.temps ensures k !in s.issued {
      assert GoodTemp(s, k);
    }
  }

  /** LOCK, and the first half of a temporary lock: a new lock, nothing else changed. */
  lemma CreateStep(s: System, now: int, root: Path, zeroDepth: bool, duration: int, owner: string)
    requires Consistent(s)
    ensures var (t, r) := Create(s.table, now, root, zeroDepth, duration, owner);
            && Consistent(s.(table := t))
            && (r.Ok? ==>
                && Consistent(s.(table := t, issued := s.issued + {r.value}))
                && r.value !in s.issued && r.value !in s.temps && Generated(r.value, t.gen)
                && r.value in t.locks && t.locks[r.value] == Lock(root, zeroDepth, duration, Deadline(now, duration), false, owner))
  {
    var (t, r) := Create(s.table, now, root, zeroDepth, duration, owner);
    NextTokenIsNew(s.table.gen);
    CreateKeepsWellformed(s.table, now, root, zeroDepth, duration, owner);
    CollectSpares(s, now);
    IssuedAreNotTemporary(s);
    QuietStep(s, t, s.issued);
    if r.Ok? {
      QuietStep(s, t, s.issued + {r.value});
    }
  }

  lemma TempStep(s: System, request: Request, now: int, name: Path)
    requires Consistent(s)
    ensures Consistent(Act(s, LockTemp(request, now, name)))
  {
    CreateStep(s, now, name, true, INFINITE, "");
    var s1 := s.(table := Create(s.table, now, name, true, INFINITE, "").0);
    var s' := Act(s, LockTemp(request, now, name));
    forall k | k in s'.temps ensures GoodTemp(s', k) {
      assert k in s.temps ==> GoodTemp(s1, k);
    }
    forall h | h in s'.holds ensures GoodHold(s', s'.holds[h]) {
      assert GoodHold(s1, s1.holds[h]);
    }
  }

  lemma RefreshStep(s: System, now: int, token: Token, duration: int)
    requires Consistent(s) && token in s.issued
    ensures Consistent(Act(s, RefreshBy(now, token, duration)))
  {
    StepKeepsWellformed(s.table, OpRefresh(now, token, duration));
    CollectSpares(s, now);
    IssuedAreNotTemporary(s);
    QuietStep(s, Refresh(s.table, now, token, duration).0, s.issued);
  }

  lemma UnlockStep(s: System, now: int, token: Token)
    requires Consistent(s) && token in s.issued
    ensures Consistent(Act(s, UnlockBy(now, token)))
  {
    StepKeepsWellformed(s.table, OpUnlock(now, token));
    CollectSpares(s, now);
    IssuedAreNotTemporary(s);
    QuietStep(s, Unlock(s.table, now, token).0, s.issued);
  }

  lemma UnlockTempStep(s: System, request: Request, now: int, token: Token)
    requires Consistent(s) && token in s.temps
    ensures Consistent(Act(s, UnlockTemp(request, now, token)))
  {
    assert GoodTemp(s, token);
    var s' := Act(s, UnlockTemp(request, now, token));
    StepKeepsWellformed(s.table, OpUnlock(now, token));
    CollectSpares(s, now);
    forall k | k in s'.temps ensures GoodTemp(s', k) {
      assert GoodTemp(s, k);
    }
    forall r | r in s'.holds ensures GoodHold(s', s'.holds[r]) {
      assert GoodHold(s, s.holds[r]);
    }
  }

  lemma ConfirmKeepsTemps(s: System, request: Request, now: int, name0: Option<Path>, name1: Option<Path>, conditions: seq<Condition>)
    requires Consistent(s) && Allowed(s, ConfirmFor(request, now, name0, name1, conditions))
    ensures var s' := Act(s, ConfirmFor(request, now, name0, name1, conditions));
            forall k {:trigger GoodTemp(s', k)} | k in s.temps :: GoodTemp(s', k)
  {
    var (t, r) := Confirm(s.table, now, name0, name1, conditions);
    var s' := Act(s, ConfirmFor(request, now, name0, name1, conditions));
    ConfirmTakes(s.table, now, name0, name1, conditions);
    CollectSpares(s, now);
    if r.Ok? {
      forall k | k in TokensOf(r.value) ensures k in s.issued {
        assert Presented(conditions, k);
      }
    }
    forall k | k in s.temps ensures GoodTemp(s', k) {
      assert GoodTemp(s, k);
    }
  }

  lemma ConfirmKeepsHolds(s: System, request: Request, now: int, name0: Option<Path>, name1: Option<Path>, conditions: seq<Condition>)
    requires Consistent(s) && Allowed(s, ConfirmFor(request, now, name0, name1, conditions))
    ensures var s' := Act(s, ConfirmFor(request, now, name0, name1, conditions));
            forall q {:trigger GoodHold(s', s'.holds[q])} | q in s'.holds :: GoodHold(s', s'.holds[q])
  {
    var s' := Act(s, ConfirmFor(request, now, name0, name1, conditions));
    ConfirmTakes(s.table, now, name0, name1, conditions);
    forall q | q in s'.holds ensures GoodHold(s', s'.holds[q]) {
      assert q in s.holds ==> GoodHold(s, s.holds[q]);
    }
  }

  lemma ConfirmStep(s: System, request: Request, now: int, name0: Option<Path>, name1: Option<Path>, conditions: seq<Condition>)
    requires Consistent(s) && Allowed(s, ConfirmFor(request, now, name0, name1, conditions))
    ensures Consistent(Act(s, ConfirmFor(request, now, name0, name1, conditions)))
  {
    hide Wellformed, GoodTemp, Confirm;
    var (t, r) := Confirm(s.table, now, name0, name1, conditions);
    var s' := Act(s, ConfirmFor(request, now, name0, name1, conditions));
    StepKeepsWellformed(s.table, OpConfirm(now, name0, name1, conditions));
    ConfirmTakes(s.table, now, name0, name1, conditions);
    CollectSpares(s, now);
    ConfirmKeepsTemps(s, request, now, name0, name1, conditions);
    ConfirmKeepsHolds(s, request, now, name0, name1, conditions);
    ConfirmTakesOthers(s, now, name0, name1, conditions);
  }

  /** What Confirm takes, nobody held. */
  lemma ConfirmTakesOthers(s: System, now: int, name0: Option<Path>, name1: Option<Path>, conditions: seq<Condition>)
    requires Consistent(s)
    ensures var r := Confirm(s.table, now, name0, name1, conditions).1;
            forall q | q in s.holds && r.Ok? :: TokensOf(s.holds[q].claim) !! TokensOf(r.value)
  {
    var r := Confirm(s.table, now, name0, name1, conditions).1;
    ConfirmTakes(s.table, now, name0, name1, conditions);
    forall q | q in s.holds && r.Ok? ensures TokensOf(s.holds[q].claim) !! TokensOf(r.value) {
      assert GoodHold(s, s.holds[q]);
    }
  }

  lemma ReleaseStep(s: System, request: Request)
    requires Consistent(s) && request in s.holds
    ensures Consistent(Act(s, ReleaseFor(request)))
  {
    hide Wellformed, GoodTemp, GoodHold;
    NextTokenIsNew(s.table.gen);
    StepKeepsWellformed(s.table, OpRelease(s.holds[request].claim));
    ReleaseKeepsTemps(s, request);
    ReleaseKeepsHolds(s, request);
  }

  lemma ReleaseKeepsTemps(s: System, request: Request)
    requires Consistent(s) && request in s.holds
    ensures var s' := Act(s, ReleaseFor(request));
            forall k {:trigger GoodTemp(s', k)} | k in s'.temps :: GoodTemp(s', k)
  {
    var s' := Act(s, ReleaseFor(request));
    assert GoodHold(s, s.holds[request]);
    forall k | k in s'.temps ensures GoodTemp(s', k) {
      assert GoodTemp(s, k);
    }
  }

  lemma ReleaseKeepsHolds(s: System, request: Request)
    requires Consistent(s) && request in s.holds
    ensures var s' := Act(s, ReleaseFor(request));
            forall q {:trigger GoodHold(s', s'.holds[q])} | q in s'.holds :: GoodHold(s', s'.holds[q])
  {
    var s' := Act(s, ReleaseFor(request));
    var claim := s.holds[request].claim;
    forall q | q in s'.holds ensures GoodHold(s', s'.holds[q]) {
      assert GoodHold(s, s.holds[q]);
      assert TokensOf(s.holds[q].claim) !! TokensOf(claim);
    }
  }

  lemma ActKeepsConsistent(s: System, a: Action)
    requires Consistent(s) && Allowed(s, a)
    ensures Consistent(Act(s, a))
  {
    match a
    case LockFor(now, root, zeroDepth, duration, owner) => CreateStep(s, now, root, zeroDepth, duration, owner);
    case RefreshBy(now, token, duration) => RefreshStep(s, now, token, duration);
    case UnlockBy(now, token) => UnlockStep(s, now, token);
    case LockTemp(request, now, name) => TempStep(s, request, now, name);
    case UnlockTemp(request, now, token) => UnlockTempStep(s, request, now, token);
    case ConfirmFor(request, now, name0, name1, conditions) => ConfirmStep(s, request, now, name0, name1, conditions);
    case ReleaseFor(request) => ReleaseStep(s, request);
  }

  // ---------- How long a claim lasts ----------

  /** The request gives back a temporary lock, or releases what it has confirmed. */
  predicate GivesUp(a: Action, r: Request) {
    (a.UnlockTemp? && a.request == r) || (a.ReleaseFor? && a.request == r)
  }

  predicate RootsKept(t: Table, t': Table) {
    forall k | k in t.locks && k in t'.locks :: t'.locks[k].root == t.locks[k].root
  }

  lemma RootsOfHeld(t: Table, k0: Token, held0: bool, k1: Token, held1: bool)
    ensures var t' := SetHeld(SetHeld(t, k0, held0), k1, held1); t'.locks.Keys == t.locks.Keys && RootsKept(t, t')
  {
  }

  lemma RootsOfConfirm(t: Table, now: int, name0: Option<Path>, name1: Option<Path>, conditions: seq<Condition>)
    ensures RootsKept(t, Confirm(t, now, name0, name1, conditions).0)
  {
    var c := Collect(t, now);
    var k0 := if name0.Some? then Lookup(c, name0.value, conditions) else NO_TOKEN;
    var k1 := if name1.Some? then Lookup(c, name1.value, conditions) else NO_TOKEN;
    RootsOfHeld(c, k0, true, if k1 == k0 then NO_TOKEN else k1, true);
  }

  lemma RootsOfCreate(t: Table, now: int, root: Path, zeroDepth: bool, duration: int, owner: string)
    requires Wellformed(t)
    ensures RootsKept(t, Create(t, now, root, zeroDepth, duration, owner).0)
  {
    NextTokenIsNew(t.gen);
  }

  /** No call changes the root of a lock that stays. */
  lemma RootsStay(s: System, a: Action)
    requires Wellformed(s.table)
    ensures RootsKept(s.table, Act(s, a).table)
  {
    match a
    case LockFor(now, root, zeroDepth, duration, owner) => RootsOfCreate(s.table, now, root, zeroDepth, duration, owner);
    case LockTemp(_, now, name) => RootsOfCreate(s.table, now, name, true, INFINITE, "");
    case ConfirmFor(_, now, name0, name1, conditions) => RootsOfConfirm(s.table, now, name0, name1, conditions);
    case ReleaseFor(request) =>
      if request in s.holds {
        RootsOfHeld(s.table, s.holds[request].claim.token1, false, s.holds[request].claim.token0, false);
      }
    case RefreshBy(_, _, _) =>
    case UnlockBy(_, _) =>
    case UnlockTemp(_, _, _) =>
  }

  /** A claim lasts until its request gives it up, whatever anybody else does. */
  lemma ClaimPersists(s: System, a: Action, r: Request, name: Path)
    requires Consistent(s) && Allowed(s, a) && HasClaim(s, r, name) && !GivesUp(a, r)
    ensures HasClaim(Act(s, a), r, name)
  {
    var s' := Act(s, a);
    ActKeepsConsistent(s, a);
    RootsStay(s, a);
    if !(r in s.holds && (s.holds[r].name0 == Some(name) || s.holds[r].name1 == Some(name))) {
      var k :| k in s.temps && s.temps[k] == r && k in s.table.locks && s.table.locks[k].root == name;
      TempStays(s, a, r, k);
      assert GoodTemp(s', k);
      assert s'.temps[k] == r && k in s'.table.locks && s'.table.locks[k].root == name;
    }
  }

  lemma TempStays(s: System, a: Action, r: Request, k: Token)
    requires Consistent(s) && Allowed(s, a) && k in s.temps && s.temps[k] == r && !GivesUp(a, r)
    ensures k in Act(s, a).temps && Act(s, a).temps[k] == r
  {
    NextTokenIsNew(s.table.gen);
  }

  lemma {:induction false} ClaimPersistsThrough(s: System, actions: seq<Action>, r: Request, name: Path)
    requires Consistent(s) && AllowedRun(s, actions) && HasClaim(s, r, name)
    requires forall a | a in actions :: !GivesUp(a, r)
    ensures HasClaim(ActAll(s, actions), r, name)
    decreases |actions|
  {
    if actions != [] {
      ActKeepsConsistent(s, actions[0]);
      ClaimPersists(s, actions[0], r, name);
      ClaimPersistsThrough(Act(s, actions[0]), actions[1..], r, name);
    }
  }

  lemma {:induction false} RunKeepsConsistent(s: System, actions: seq<Action>)
    requires Consistent(s) && AllowedRun(s, actions)
    ensures Consistent(ActAll(s, actions))
    decreases |actions|
  {
    if actions != [] {
      ActKeepsConsistent(s, actions[0]);
      RunKeepsConsistent(Act(s, actions[0]), actions[1..]);
    }
  }

  /** However the calls of any number of requests and clients interleave, no resource is ever
      claimed by two requests at once. */
  lemma NoTwoClaims(s: System, actions: seq<Action>, r: Request, r': Request, name: Path)
    requires Consistent(s) && AllowedRun(s, actions)
    requires HasClaim(ActAll(s, actions), r, name) && HasClaim(ActAll(s, actions), r', name)
    ensures r == r'
  {
    RunKeepsConsistent(s, actions);
    ClaimsAreExclusive(ActAll(s, actions), r, r', name);
  }

  lemma EmptySystemIsConsistent(gen: nat)
    ensures Consistent(System(Table(map[], gen), {}, map[], map[]))
  {
  }
}
