/** How a request claims the resources it is about to change: confirmLocks and the release
    function it returns. Parsing the tag URLs of the If header is a parameter. */
module RequestHandler {
  import opened Wrappers
  import opened Paths
  import opened LockTable
  import opened ExpiryHeap
  import opened MemLS
  import opened LockProtocol
  import opened IfHeader

  const STATUS_OK := 0
  const BAD_REQUEST := 400
  const PRECONDITION_FAILED := 412
  const LOCKED := 423

  /** What a resource tag stands for: a list to be passed over (not a URL, or another host),
      an error of stripPrefix, or a path. */
  datatype Target = Skip | Fail(status: int) | At(path: string)

  datatype Outcome = Refused(status: int) | Temporary(claim: Claim) | Confirmed(claim: Claim)

  // ---------- Without an If header ----------

  /** Handler.lock, where an empty name is passed over. */
  function TempLock(t: Table, now: int, name: string): (Table, Result<Token>) {
    if name == "" then (t, Ok(NO_TOKEN)) else Create(t, now, SlashClean(name), true, INFINITE, "")
  }

  function Unlocked(t: Table, now: int, token: Token): Table {
    if token == NO_TOKEN then t else Unlock(t, now, token).0
  }

  function TempLocks(t: Table, now: int, src: string, dst: string): (Table, Result<Claim>) {
    var (t1, r1) := TempLock(t, now, src);
    if r1.Err? then (t1, Err(r1.error))
    else
      var (t2, r2) := TempLock(t1, now, dst);
      if r2.Err? then (Unlocked(t2, now, r1.value), Err(r2.error))
      else (t2, Ok(Claim(r1.value, r2.value)))
  }

  function ReleaseTemp(t: Table, now: int, claim: Claim): Table {
    Unlocked(Unlocked(t, now, claim.token1), now, claim.token0)
  }

  // ---------- With an If header ----------

  function TargetOf(l: IfList, src: string, resolve: string -> Target): Target {
    if l.resourceTag == "" then At(src) else resolve(l.resourceTag)
  }

  /** The lists are tried in order, each at its own time, until one is confirmed. */
  function TryLists(t: Table, clock: nat -> int, i: nat, lists: seq<IfList>, src: string, dst: string, resolve: string -> Target): (Table, Outcome)
    requires i <= |lists|
    decreases |lists| - i
  {
    if i == |lists| then (t, Refused(PRECONDITION_FAILED))
    else
      match TargetOf(lists[i], src, resolve)
      case Skip => TryLists(t, clock, i + 1, lists, src, dst, resolve)
      case Fail(status) => (t, Refused(status))
      case At(path) =>
        var (t', r) := Confirm(t, clock(i), Cleaned(path), Cleaned(dst), lists[i].conditions);
        if r.Ok? then (t', Confirmed(r.value)) else TryLists(t', clock, i + 1, lists, src, dst, resolve)
  }

  function LocksConfirmed(t: Table, clock: nat -> int, header: string, src: string, dst: string, resolve: string -> Target): (Table, Outcome) {
    if header == "" then
      var (t', r) := TempLocks(t, clock(0), src, dst);
      (t', if r.Ok? then Temporary(r.value) else Refused(LOCKED))
    else
      match ParseLexemes(Lexemes(TrimSpace(header)))
      case None => (t, Refused(BAD_REQUEST))
      case Some(lists) => TryLists(t, clock, 0, lists, src, dst, resolve)
  }

  // ---------- What it promises ----------

  /** A name that is given is covered by no live lock. */
  ghost predicate Free(t: Table, name: string) {
    name != "" ==> forall k :: !CoveredBy(t, k, SlashClean(name))
  }

  function TempLockOn(name: string): Lock {
    Lock(SlashClean(name), true, INFINITE, 0, false, "")
  }

  /** After a successful TempLock the live locks are those before, and one on the name if there is a name. */
  ghost predicate TempAdded(c: Table, c': Table, token: Token, name: string) {
    if name == "" then token == NO_TOKEN && c'.locks == c.locks
    else token != NO_TOKEN && token !in c.locks && c'.locks == c.locks[token := TempLockOn(name)]
  }

  lemma TempLockExact(t: Table, now: int, name: string)
    requires Wellformed(t)
    ensures var (t', r) := TempLock(t, now, name); var c := Collect(t, now);
            && Wellformed(t') && (r.Ok? <==> Free(c, name))
            && (r.Ok? ==> TempAdded(c, Collect(t', now), r.value, name))
            && (r.Err? ==> t' == c)
  {
    if name != "" {
      var root := SlashClean(name);
      var c := Collect(t, now);
      NextTokenIsNew(t.gen);
      CreateKeepsWellformed(t, now, root, true, INFINITE, "");
      CanCreateIsNoOverlap(c, TempLockOn(name));
      if CanCreate(c, root, true) {
        forall k ensures !CoveredBy(c, k, root) {
          assert Covers(TempLockOn(name), root);
        }
      } else {
        var k :| k in c.locks && Conflicts(c.locks[k], root, true);
        assert CoveredBy(c, k, root);
      }
    }
  }

  lemma UnlockedExact(t: Table, now: int, token: Token)
    requires NO_TOKEN !in t.locks
    requires token != NO_TOKEN ==> token in t.locks && !t.locks[token].held && t.locks[token].duration < 0
    ensures Collect(Unlocked(t, now, token), now).locks == Collect(t, now).locks - {token}
  {
  }

  /** The lock on src is in the way of one on dst only if the names are the same. */
  lemma FreeAfterTemp(c: Table, c1: Table, token: Token, src: string, dst: string)
    requires TempAdded(c, c1, token, src)
    ensures Free(c1, dst) <==> Free(c, dst) && (src != "" && dst != "" ==> SlashClean(src) != SlashClean(dst))
  {
    if dst != "" {
      var name := SlashClean(dst);
      forall k ensures CoveredBy(c1, k, name) <==> CoveredBy(c, k, name) || (src != "" && k == token && SlashClean(src) == name) {
      }
      assert src != "" && SlashClean(src) == name ==> CoveredBy(c1, token, name);
    }
  }

  lemma NoEmptyToken(t: Table)
    requires Wellformed(t)
    ensures NO_TOKEN !in t.locks
  {
    NextTokenIsNew(t.gen);
  }

  /** Without an If header a request gets its temporary locks exactly when no live lock covers
      a named resource and the two names differ. */
  lemma TempLocksExact(t: Table, now: int, src: string, dst: string)
    requires Wellformed(t)
    ensures TempLocks(t, now, src, dst).1.Ok? <==>
            && Free(Collect(t, now), src) && Free(Collect(t, now), dst)
            && (src != "" && dst != "" ==> SlashClean(src) != SlashClean(dst))
  {
    var (t1, r1) := TempLock(t, now, src);
    TempLockExact(t, now, src);
    if r1.Ok? {
      TempLockExact(t1, now, dst);
      FreeAfterTemp(Collect(t, now), Collect(t1, now), r1.value, src, dst);
    }
  }

  /** When it does not get them, no lock is left behind; when it does, giving them back at once
      restores the live locks. */
  lemma TempLocksUndo(t: Table, now: int, src: string, dst: string)
    requires Wellformed(t)
    ensures var (t', r) := TempLocks(t, now, src, dst);
            Collect(if r.Ok? then ReleaseTemp(t', now, r.value) else t', now).locks == Collect(t, now).locks
  {
    var (t1, r1) := TempLock(t, now, src);
    TempLockExact(t, now, src);
    if r1.Ok? {
      var (t2, r2) := TempLock(t1, now, dst);
      TempLockExact(t1, now, dst);
      if r2.Err? {
        UndoFirst(t, now, src, dst);
      } else {
        UndoTaken(t, now, src, dst);
      }
    }
  }

  lemma UndoFirst(t: Table, now: int, src: string, dst: string)
    requires Wellformed(t) && TempLock(t, now, src).1.Ok? && TempLock(TempLock(t, now, src).0, now, dst).1.Err?
    ensures Collect(TempLocks(t, now, src, dst).0, now).locks == Collect(t, now).locks
  {
    var (t1, r1) := TempLock(t, now, src);
    var (t2, _) := TempLock(t1, now, dst);
    TempLockExact(t, now, src);
    TempLockExact(t1, now, dst);
    NoEmptyToken(t2);
    UnlockedExact(t2, now, r1.value);
  }

  lemma UndoTaken(t: Table, now: int, src: string, dst: string)
    requires Wellformed(t) && TempLock(t, now, src).1.Ok? && TempLock(TempLock(t, now, src).0, now, dst).1.Ok?
    ensures var (t1, r1) := TempLock(t, now, src);
            var (t2, r2) := TempLock(t1, now, dst);
            Collect(ReleaseTemp(t2, now, Claim(r1.value, r2.value)), now).locks == Collect(t, now).locks
  {
    var (t1, r1) := TempLock(t, now, src);
    TempLockExact(t, now, src);
    var (t2, r2) := TempLock(t1, now, dst);
    TempLockExact(t1, now, dst);
    NoEmptyToken(t2);
    TwoAdded(Collect(t, now), Collect(t1, now), Collect(t2, now), r1.value, r2.value, src, dst);
    ReleaseTakesBack(t2, now, Claim(r1.value, r2.value));
  }

  lemma TwoAdded(c: Table, c1: Table, c2: Table, token0: Token, token1: Token, src: string, dst: string)
    requires NO_TOKEN !in c.locks && TempAdded(c, c1, token0, src) && TempAdded(c1, c2, token1, dst)
    ensures c2.locks - TokensOf(Claim(token0, token1)) == c.locks && (token0 == token1 ==> token0 == NO_TOKEN)
    ensures forall k | k in TokensOf(Claim(token0, token1)) :: k in c2.locks && !c2.locks[k].held && c2.locks[k].duration < 0
  {
  }

  /** List j names a path, and at its time it grants that path and the destination. */
  ghost predicate ListHolds(t: Table, clock: nat -> int, j: nat, l: IfList, src: string, dst: string, resolve: string -> Target) {
    var target := TargetOf(l, src, resolve);
    && target.At?
    && Granted(Collect(t, clock(j)), Cleaned(target.path), l.conditions)
    && Granted(Collect(t, clock(j)), Cleaned(dst), l.conditions)
  }

  ghost predicate Decides(t: Table, clock: nat -> int, j: nat, l: IfList, src: string, dst: string, resolve: string -> Target) {
    ListHolds(t, clock, j, l, src, dst, resolve) || TargetOf(l, src, resolve).Fail?
  }

  /** The outcome took free locks presented in the list, which cover both names. */
  ghost predicate ClaimedBy(c: Table, t': Table, o: Outcome, l: IfList, path: string, dst: string) {
    && o.Confirmed?
    && Takes(c, t', o.claim, l.conditions)
    && ClaimCovers(t', o.claim, Cleaned(path))
    && ClaimCovers(t', o.claim, Cleaned(dst))
  }

  /** With an If header, the first list that holds or has a bad tag decides. If it holds, the
      locks taken cover the destination and the path of the list's own tag (or the request
      path, for a list without tag); if no list decides, the request fails with 412. */
  lemma {:induction false} TryListsExact(t0: Table, t: Table, clock: nat -> int, i: nat, lists: seq<IfList>, src: string, dst: string, resolve: string -> Target)
      returns (j: nat)
    requires Wellformed(t) && i <= |lists|
    requires forall k | i <= k < |lists| :: Collect(t, clock(k)) == Collect(t0, clock(k))
    requires forall k, k' | i <= k <= k' < |lists| :: clock(k) <= clock(k')
    ensures i <= j <= |lists| && forall k | i <= k < j :: !Decides(t0, clock, k, lists[k], src, dst, resolve)
    ensures var (t', o) := TryLists(t, clock, i, lists, src, dst, resolve);
            && Wellformed(t')
            && (j == |lists| ==> o == Refused(PRECONDITION_FAILED))
            && (j < |lists| ==>
                var target := TargetOf(lists[j], src, resolve);
                && Decides(t0, clock, j, lists[j], src, dst, resolve)
                && (target.Fail? ==> o == Refused(target.status))
                && (target.At? ==> ClaimedBy(Collect(t0, clock(j)), t', o, lists[j], target.path, dst)))
    decreases |lists| - i
  {
    j := i;
    if i < |lists| {
      match TargetOf(lists[i], src, resolve)
      case Skip => j := TryListsExact(t0, t, clock, i + 1, lists, src, dst, resolve);
      case Fail(status) =>
      case At(path) =>
        ListTried(t0, t, clock, i, lists[i], path, src, dst, resolve);
        var (t', r) := Confirm(t, clock(i), Cleaned(path), Cleaned(dst), lists[i].conditions);
        if r.Err? {
          CollectLater(t, clock, i, |lists|);
          j := TryListsExact(t0, t', clock, i + 1, lists, src, dst, resolve);
        }
    }
  }

  /** What confirmLocks answers: 423 without a header when a name is not free or both are the same;
      400 for a header that is not in the grammar; and otherwise the list that decides. */
  lemma AnswersExactly(t: Table, clock: nat -> int, header: string, src: string, dst: string, resolve: string -> Target)
    requires Wellformed(t) && forall k, k' | k <= k' :: clock(k) <= clock(k')
    ensures var (t', o) := LocksConfirmed(t, clock, header, src, dst, resolve); var c := Collect(t, clock(0));
            if header == "" then
              if Free(c, src) && Free(c, dst) && (src != "" && dst != "" ==> SlashClean(src) != SlashClean(dst))
              then o.Temporary? else o == Refused(423)
            else if !exists lists :: Derives(Lexemes(TrimSpace(header)), lists) then o == Refused(400) && t' == t
            else
              exists lists :: Derives(Lexemes(TrimSpace(header)), lists) && DecidedBy(t, clock, lists, src, dst, resolve, o)
  {
    if header == "" {
      TempLocksExact(t, clock(0), src, dst);
    } else {
      var ts := Lexemes(TrimSpace(header));
      var parsed := ParseLexemes(ts);
      if parsed.None? {
        forall lists ensures !Derives(ts, lists) {
          ParserIsGrammar(ts, lists);
        }
      } else {
        ParserIsGrammar(ts, parsed.value);
        var j := TryListsExact(t, t, clock, 0, parsed.value, src, dst, resolve);
        assert DecidedAt(t, clock, parsed.value, src, dst, resolve, LocksConfirmed(t, clock, header, src, dst, resolve).1, j);
      }
    }
  }

  /** The first list that holds confirms the request, the first with a bad tag before it refuses it
      with its status, and 412 is left if there is neither. */
  ghost predicate DecidedBy(t: Table, clock: nat -> int, lists: seq<IfList>, src: string, dst: string, resolve: string -> Target, o: Outcome) {
    exists j: nat :: DecidedAt(t, clock, lists, src, dst, resolve, o, j)
  }

  ghost predicate DecidedAt(t: Table, clock: nat -> int, lists: seq<IfList>, src: string, dst: string, resolve: string -> Target, o: Outcome, j: nat) {
    && j <= |lists| && (forall k | 0 <= k < j :: !Decides(t, clock, k, lists[k], src, dst, resolve))
    && if j == |lists| then o == Refused(412)
       else if ListHolds(t, clock, j, lists[j], src, dst, resolve) then o.Confirmed?
       else lists[j].resourceTag != "" && resolve(lists[j].resourceTag).Fail? && o == Refused(resolve(lists[j].resourceTag).status)
  }

  /** One list: it holds and is confirmed, or it does not and only expired locks go. */
  lemma ListTried(t0: Table, t: Table, clock: nat -> int, i: nat, l: IfList, path: string, src: string, dst: string, resolve: string -> Target)
    requires Wellformed(t) && Collect(t, clock(i)) == Collect(t0, clock(i)) && TargetOf(l, src, resolve) == At(path)
    ensures var (t', r) := Confirm(t, clock(i), Cleaned(path), Cleaned(dst), l.conditions);
            && Wellformed(t') && (r.Ok? <==> ListHolds(t0, clock, i, l, src, dst, resolve))
            && (if r.Ok? then ClaimedBy(Collect(t0, clock(i)), t', Confirmed(r.value), l, path, dst) else t' == Collect(t, clock(i)))
  {
    ConfirmSucceedsWhenGranted(t, clock(i), Cleaned(path), Cleaned(dst), l.conditions);
    ConfirmTakes(t, clock(i), Cleaned(path), Cleaned(dst), l.conditions);
    StepKeepsWellformed(t, OpConfirm(clock(i), Cleaned(path), Cleaned(dst), l.conditions));
  }

  /** Collecting now makes no difference to what a later collection leaves. */
  lemma CollectLater(t: Table, clock: nat -> int, i: nat, n: nat)
    requires forall k | i <= k < n :: clock(i) <= clock(k)
    ensures forall k | i <= k < n :: Collect(Collect(t, clock(i)), clock(k)) == Collect(t, clock(k))
  {
  }

  /** A tagged list need not give the request a claim on its own path: here the list names
      /b, the request changes /a, and no lock covers /a. */
  lemma TagDecidesWhatIsClaimed()
    ensures var t := Table(map["1" := Lock(["b"], true, INFINITE, 0, false, "")], 1);
            var l := IfList("/b", [Condition(false, "1", "")]);
            var (t', o) := TryLists(t, k => 0, 0, [l], "/a", "", tag => At(tag));
            o == Confirmed(Claim("1", NO_TOKEN)) && !ClaimCovers(t', o.claim, Cleaned("/a"))
  {
    var t := Table(map["1" := Lock(["b"], true, INFINITE, 0, false, "")], 1);
    var l := IfList("/b", [Condition(false, "1", "")]);
    CleanIsCanonical(["b"]);
    CleanIsCanonical(["a"]);
    assert Render(["b"]) == "/b" && Render(["a"]) == "/a";
    assert Collect(t, 0) == t;
  }

  /** The lock that Confirm finds for the name covers this resource as well. */
  predicate FoundCovers(c: Table, name: string, conditions: seq<Condition>, resource: Path) {
    name != "" &&
    var k := Lookup(c, SlashClean(name), conditions);
    k in c.locks && Covers(c.locks[k], resource)
  }

  /** Exactly when the locks taken for a list cover the source of the request too: when the lock
      found for the path of the list, or the one found for the destination, does. */
  lemma TagCoversSource(t: Table, now: int, path: string, dst: string, src: string, conditions: seq<Condition>)
    requires Wellformed(t) && src != "" && Confirm(t, now, Cleaned(path), Cleaned(dst), conditions).1.Ok?
    ensures var (t', r) := Confirm(t, now, Cleaned(path), Cleaned(dst), conditions);
            var c := Collect(t, now);
            ClaimCovers(t', r.value, Cleaned(src)) <==>
              FoundCovers(c, path, conditions, SlashClean(src)) || FoundCovers(c, dst, conditions, SlashClean(src))
  {
    var (t', r) := Confirm(t, now, Cleaned(path), Cleaned(dst), conditions);
    var c := Collect(t, now);
    ConfirmTakes(t, now, Cleaned(path), Cleaned(dst), conditions);
    NoEmptyToken(t);
    FoundIsTaken(c, path, conditions);
    FoundIsTaken(c, dst, conditions);
    var name := SlashClean(src);
    forall k | k in TokensOf(r.value) ensures k in c.locks && (Covers(t'.locks[k], name) <==> Covers(c.locks[k], name)) {
    }
    assert path != "" ==> Lookup(c, SlashClean(path), conditions) in TokensOf(r.value);
    assert dst != "" ==> Lookup(c, SlashClean(dst), conditions) in TokensOf(r.value);
  }

  lemma FoundIsTaken(c: Table, name: string, conditions: seq<Condition>)
    requires NO_TOKEN !in c.locks
    ensures name != "" && Lookup(c, SlashClean(name), conditions) != NO_TOKEN ==> Lookup(c, SlashClean(name), conditions) in c.locks
  {
    if name != "" {
      LookupIsFirst(c, SlashClean(name), conditions);
    }
  }

  /** Giving back temporary locks at any later time, into whatever table there is then, takes
      away these locks and nothing else. */
  lemma ReleaseTakesBack(t: Table, now: int, claim: Claim)
    requires NO_TOKEN !in t.locks && (claim.token0 == claim.token1 ==> claim.token0 == NO_TOKEN)
    requires forall k | k in TokensOf(claim) :: k in t.locks && !t.locks[k].held && t.locks[k].duration < 0
    ensures Collect(ReleaseTemp(t, now, claim), now).locks == Collect(t, now).locks - TokensOf(claim)
  {
    UnlockedExact(t, now, claim.token1);
    var t1 := Unlocked(t, now, claim.token1);
    assert claim.token0 != NO_TOKEN ==> claim.token0 in Collect(t, now).locks;
    UnlockedExact(t1, now, claim.token0);
    assert NO_TOKEN !in Collect(t, now).locks;
  }

  // ---------- The request handler ----------

  class Handler {
    const lockSystem: MemLS

    constructor (ls: MemLS)
      ensures lockSystem == ls
    {
      lockSystem := ls;
    }

    method LockFor(now: int, root: string) returns (token: Token, status: int)
      requires lockSystem.Valid()
      modifies lockSystem, lockSystem.byExpiry, lockSystem.nodes
      ensures lockSystem.Valid() && old(lockSystem.nodes) <= lockSystem.nodes && fresh(lockSystem.nodes - old(lockSystem.nodes))
      ensures var (t', r) := TempLock(old(lockSystem.table), now, root);
              lockSystem.table == t' && if r.Ok? then status == STATUS_OK && token == r.value else status == LOCKED && token == NO_TOKEN
    {
      if root == "" {
        return NO_TOKEN, STATUS_OK;
      }
      var r := lockSystem.Create(now, root, true, INFINITE, "");
      match r
      case Ok(value) => return value, STATUS_OK;
      case Err(_) => return NO_TOKEN, LOCKED;
    }

    method UnlockIfAny(now: int, token: Token)
      requires lockSystem.Valid()
      modifies lockSystem, lockSystem.byExpiry, lockSystem.nodes
      ensures lockSystem.Valid() && lockSystem.nodes == old(lockSystem.nodes)
      ensures lockSystem.table == Unlocked(old(lockSystem.table), now, token)
    {
      if token != NO_TOKEN {
        var r := lockSystem.Unlock(now, token);
      }
    }

    /** The branch of confirmLocks for a request without an If header. */
    method TakeTempLocks(now: int, src: string, dst: string) returns (o: Outcome)
      requires lockSystem.Valid()
      modifies lockSystem, lockSystem.byExpiry, lockSystem.nodes
      ensures lockSystem.Valid() && old(lockSystem.nodes) <= lockSystem.nodes && fresh(lockSystem.nodes - old(lockSystem.nodes))
      ensures var (t', r) := TempLocks(old(lockSystem.table), now, src, dst);
              lockSystem.table == t' && o == if r.Ok? then Temporary(r.value) else Refused(LOCKED)
    {
      var srcToken, status := LockFor(now, src);
      if status != STATUS_OK {
        return Refused(status);
      }
      var dstToken;
      dstToken, status := LockFor(now, dst);
      if status != STATUS_OK {
        UnlockIfAny(now, srcToken);
        return Refused(status);
      }
      return Temporary(Claim(srcToken, dstToken));
    }

    /** confirmLocks; the nodes are what the release function of a confirmed claim captures. */
    method ConfirmLocks(clock: nat -> int, header: string, src: string, dst: string, resolve: string -> Target)
        returns (o: Outcome, n0: Node?, n1: Node?)
      requires lockSystem.Valid()
      modifies lockSystem, lockSystem.byExpiry, lockSystem.nodes
      ensures lockSystem.Valid() && old(lockSystem.nodes) <= lockSystem.nodes && fresh(lockSystem.nodes - old(lockSystem.nodes))
      ensures (lockSystem.table, o) == LocksConfirmed(old(lockSystem.table), clock, header, src, dst, resolve)
      ensures o.Confirmed? ==> lockSystem.Holds(o.claim, n0, n1)
    {
      n0, n1 := null, null;
      if header == "" {
        o := TakeTempLocks(clock(0), src, dst);
        return;
      }
      var lists, ok := ReadIfHeader(header);
      if !ok {
        return Refused(BAD_REQUEST), null, null;
      }
      o, n0, n1 := ConfirmLists(clock, lists, src, dst, resolve);
    }

    /** The loop over the lists of the header. */
    method ConfirmLists(clock: nat -> int, lists: seq<IfList>, src: string, dst: string, resolve: string -> Target)
        returns (o: Outcome, n0: Node?, n1: Node?)
      requires lockSystem.Valid()
      modifies lockSystem, lockSystem.byExpiry, lockSystem.nodes
      ensures lockSystem.Valid() && lockSystem.nodes == old(lockSystem.nodes)
      ensures (lockSystem.table, o) == TryLists(old(lockSystem.table), clock, 0, lists, src, dst, resolve)
      ensures o.Confirmed? ==> lockSystem.Holds(o.claim, n0, n1)
    {
      n0, n1 := null, null;
      var i := 0;
      while i < |lists|
        invariant 0 <= i <= |lists| && lockSystem.Valid() && lockSystem.nodes == old(lockSystem.nodes)
        invariant TryLists(old(lockSystem.table), clock, 0, lists, src, dst, resolve) == TryLists(lockSystem.table, clock, i, lists, src, dst, resolve)
      {
        match TargetOf(lists[i], src, resolve) {
          case Skip =>
          case Fail(status) =>
            return Refused(status), null, null;
          case At(path) =>
            var r;
            r, n0, n1 := lockSystem.Confirm(clock(i), path, dst, lists[i].conditions);
            if r.Ok? {
              return Confirmed(r.value), n0, n1;
            }
        }
        i := i + 1;
      }
      return Refused(PRECONDITION_FAILED), null, null;
    }

    /** The release function: `now` is the time captured when temporary locks were made. */
    method Release(o: Outcome, n0: Node?, n1: Node?, now: int)
      requires lockSystem.Valid() && !o.Refused?
      requires o.Confirmed? ==> lockSystem.Holds(o.claim, n0, n1)
      modifies lockSystem, lockSystem.byExpiry, lockSystem.nodes
      ensures lockSystem.Valid() && lockSystem.nodes == old(lockSystem.nodes)
      ensures lockSystem.table == if o.Confirmed? then LockTable.Release(old(lockSystem.table), o.claim) else ReleaseTemp(old(lockSystem.table), now, o.claim)
    {
      match o
      case Confirmed(claim) => lockSystem.Release(claim, n0, n1);
      case Temporary(claim) =>
        UnlockIfAny(now, claim.token1);
        UnlockIfAny(now, claim.token0);
    }
  }
}
