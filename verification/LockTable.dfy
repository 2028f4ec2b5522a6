/** What a lock system means: a finite table from tokens to locks.

    The in-memory lock system of module MemLS is proved against these operations;
    the theorems about locks are proved here, about the table. */
module LockTable {
  import opened Wrappers
  import opened Paths
  import opened Decimal

  type Token = string

  /** The empty token marks a node that is not locked. */
  const NO_TOKEN: Token := ""

  /** The generator has produced this token. */
  ghost predicate Generated(t: Token, gen: nat) {
    exists k | 0 < k <= gen :: t == Itoa(k)
  }

  lemma NextTokenIsNew(gen: nat)
    ensures !Generated(Itoa(gen + 1), gen)
    ensures forall t :: Generated(t, gen + 1) <==> Generated(t, gen) || t == Itoa(gen + 1)
    ensures !Generated(NO_TOKEN, gen)
  {
    forall k | 0 < k <= gen && Itoa(gen + 1) == Itoa(k) ensures false {
      ItoaInjective(gen + 1, k);
    }
    assert Itoa(gen + 1) == Itoa(gen + 1);
  }

  /** A negative duration means that the lock never expires. */
  datatype Lock = Lock(root: Path, zeroDepth: bool, duration: int, expiry: int, held: bool, owner: string)

  datatype Table = Table(locks: map<Token, Lock>, gen: nat)

  datatype Condition = Condition(negated: bool, token: Token, etag: string)

  datatype LockError = ErrConfirmationFailed | ErrLocked | ErrNoSuchLock

  datatype Result<T> = Ok(value: T) | Err(error: LockError)

  predicate Covers(l: Lock, name: Path) {
    name == l.root || (!l.zeroDepth && l.root <= name)
  }

  /** Some name would be covered by both a lock and a request for (root, zeroDepth). */
  predicate Conflicts(l: Lock, root: Path, zeroDepth: bool) {
    || l.root == root
    || (!l.zeroDepth && l.root <= root)
    || (!zeroDepth && root <= l.root)
  }

  predicate Expired(l: Lock, now: int) {
    !l.held && l.duration >= 0 && l.expiry <= now
  }

  function Collect(t: Table, now: int): Table {
    t.(locks := map k | k in t.locks && !Expired(t.locks[k], now) :: t.locks[k])
  }

  /** When a lock with this duration expires that is created or refreshed at `now`; 0 if never. */
  function Deadline(now: int, duration: int): int {
    if duration >= 0 then now + duration else 0
  }

  predicate CanCreate(t: Table, root: Path, zeroDepth: bool) {
    forall k | k in t.locks :: !Conflicts(t.locks[k], root, zeroDepth)
  }

  function Create(t: Table, now: int, root: Path, zeroDepth: bool, duration: int, owner: string): (Table, Result<Token>) {
    var c := Collect(t, now);
    if !CanCreate(c, root, zeroDepth) then (c, Err(ErrLocked))
    else
      var lock := Lock(root, zeroDepth, duration, Deadline(now, duration), false, owner);
      (Table(c.locks[Itoa(c.gen + 1) := lock], c.gen + 1), Ok(Itoa(c.gen + 1)))
  }

  function Refresh(t: Table, now: int, token: Token, duration: int): (Table, Result<Lock>) {
    var c := Collect(t, now);
    if token !in c.locks then (c, Err(ErrNoSuchLock))
    else if c.locks[token].held then (c, Err(ErrLocked))
    else
      var lock := c.locks[token].(duration := duration, expiry := Deadline(now, duration));
      (c.(locks := c.locks[token := lock]), Ok(lock))
  }

  function Unlock(t: Table, now: int, token: Token): (Table, Result<()>) {
    var c := Collect(t, now);
    if token !in c.locks then (c, Err(ErrNoSuchLock))
    else if c.locks[token].held then (c, Err(ErrLocked))
    else (c.(locks := c.locks - {token}), Ok(()))
  }

  /** The first condition whose lock is free and covers the name; no token if there is none. */
  function Lookup(t: Table, name: Path, conditions: seq<Condition>): Token {
    if conditions == [] then NO_TOKEN
    else
      var k := conditions[0].token;
      if k in t.locks && !t.locks[k].held && Covers(t.locks[k], name) then k
      else Lookup(t, name, conditions[1..])
  }

  function SetHeld(t: Table, token: Token, held: bool): Table {
    if token in t.locks then t.(locks := t.locks[token := t.locks[token].(held := held)]) else t
  }

  /** The tokens a successful Confirm holds; none where a name was empty or the lock is the same. */
  datatype Claim = Claim(token0: Token, token1: Token)

  function Confirm(t: Table, now: int, name0: Option<Path>, name1: Option<Path>, conditions: seq<Condition>): (Table, Result<Claim>) {
    var c := Collect(t, now);
    var k0 := if name0.Some? then Lookup(c, name0.value, conditions) else NO_TOKEN;
    var k1 := if name1.Some? then Lookup(c, name1.value, conditions) else NO_TOKEN;
    if (name0.Some? && k0 == NO_TOKEN) || (name1.Some? && k1 == NO_TOKEN) then (c, Err(ErrConfirmationFailed))
    else
      var k1' := if k1 == k0 then NO_TOKEN else k1;
      (SetHeld(SetHeld(c, k0, true), k1', true), Ok(Claim(k0, k1')))
  }

  function Release(t: Table, claim: Claim): Table {
    SetHeld(SetHeld(t, claim.token1, false), claim.token0, false)
  }

  /** A lock of infinite depth has this root. */
  ghost predicate InfiniteAt(t: Table, p: Path) {
    exists k | k in t.locks :: t.locks[k].root == p && !t.locks[k].zeroDepth
  }

  /** Neither the path nor any of its ancestors is such a root. */
  ghost predicate ClearUpwards(t: Table, p: Path)
    decreases |p|
  {
    !InfiniteAt(t, p) && (p == [] || ClearUpwards(t, Parent(p)))
  }

  lemma {:induction false} ClearUpwardsIsNoneAbove(t: Table, p: Path)
    ensures ClearUpwards(t, p) <==> forall k | k in t.locks && t.locks[k].root <= p :: t.locks[k].zeroDepth
    decreases |p|
  {
    if p != [] {
      ClearUpwardsIsNoneAbove(t, Parent(p));
      forall k | k in t.locks && t.locks[k].root <= p
        ensures t.locks[k].root == p || t.locks[k].root <= Parent(p)
      {
      }
    }
    if !ClearUpwards(t, p) && InfiniteAt(t, p) {
      var k :| k in t.locks && t.locks[k].root == p && !t.locks[k].zeroDepth;
      assert t.locks[k].root <= p;
    }
  }

  // ---------- Exclusive locks ----------

  /** The branch-wise conflict test is the meaning of exclusivity: some resource would be
      covered by both. */
  lemma ConflictIsOverlap(l: Lock, l': Lock)
    ensures Conflicts(l, l'.root, l'.zeroDepth) <==> exists name :: Covers(l, name) && Covers(l', name)
  {
    if Conflicts(l, l'.root, l'.zeroDepth) {
      var name := if l.root == l'.root || (!l.zeroDepth && l.root <= l'.root) then l'.root else l.root;
      assert Covers(l, name) && Covers(l', name);
    }
    forall name | Covers(l, name) && Covers(l', name) ensures Conflicts(l, l'.root, l'.zeroDepth) {
      if |l.root| <= |l'.root| {
        assert l.root == name[..|l.root|] && l'.root == name[..|l'.root|];
        assert l.root <= l'.root;
      } else {
        assert l'.root <= l.root;
      }
    }
  }

  predicate CoveredBy(t: Table, k: Token, name: Path) {
    k in t.locks && Covers(t.locks[k], name)
  }

  /** Two live locks never cover the same resource. */
  ghost predicate Exclusive(t: Table) {
    forall j, k, name | CoveredBy(t, j, name) && CoveredBy(t, k, name) :: j == k
  }

  ghost predicate Wellformed(t: Table) {
    && (forall k | k in t.locks :: Generated(k, t.gen))
    && Exclusive(t)
  }

  lemma CanCreateIsNoOverlap(t: Table, lock: Lock)
    ensures CanCreate(t, lock.root, lock.zeroDepth) <==>
            forall k, name | CoveredBy(t, k, name) :: !Covers(lock, name)
  {
    forall k | k in t.locks {
      ConflictIsOverlap(t.locks[k], lock);
    }
    if k :| k in t.locks && Conflicts(t.locks[k], lock.root, lock.zeroDepth) {
      var name :| Covers(t.locks[k], name) && Covers(lock, name);
      assert CoveredBy(t, k, name);
    }
  }

  lemma CreateKeepsWellformed(t: Table, now: int, root: Path, zeroDepth: bool, duration: int, owner: string)
    requires Wellformed(t)
    ensures Wellformed(Create(t, now, root, zeroDepth, duration, owner).0)
  {
    var lock := Lock(root, zeroDepth, duration, Deadline(now, duration), false, owner);
    var c := Collect(t, now);
    CanCreateIsNoOverlap(c, lock);
    NextTokenIsNew(t.gen);
    var t' := Create(t, now, root, zeroDepth, duration, owner).0;
    forall j, k, name | CoveredBy(t', j, name) && CoveredBy(t', k, name) ensures j == k {
      assert CoveredBy(t, j, name) || Covers(lock, name);
      assert CoveredBy(t, k, name) || Covers(lock, name);
      assert CanCreate(c, root, zeroDepth) ==> (j != Itoa(t.gen + 1) ==> CoveredBy(c, j, name)) && (k != Itoa(t.gen + 1) ==> CoveredBy(c, k, name));
    }
  }
}
