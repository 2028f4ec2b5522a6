/** The in-memory lock system: a map by name with a reference count on every ancestor,
    a map by token, and the expiry heap. Each method is proved to have the effect that
    module LockTable gives it on the table of locks. */
module MemLS {
  import opened Wrappers
  import opened Decimal
  import opened Paths
  import opened LockTable
  import opened ExpiryHeap

  /** The tokens locking a root at or below the name. */
  function LockedBelow(locks: map<Token, Lock>, name: Path): set<Token> {
    set t | t in locks && Within(locks[t].root, name)
  }

  lemma AddRoot(locks: map<Token, Lock>, t: Token, lock: Lock, name: Path)
    requires t !in locks
    ensures |LockedBelow(locks[t := lock], name)| == |LockedBelow(locks, name)| + if Within(lock.root, name) then 1 else 0
  {
    var below := LockedBelow(locks, name);
    assert LockedBelow(locks[t := lock], name) == if Within(lock.root, name) then below + {t} else below;
  }

  lemma DropRoot(locks: map<Token, Lock>, t: Token, name: Path)
    requires t in locks
    ensures |LockedBelow(locks - {t}, name)| == |LockedBelow(locks, name)| - if Within(locks[t].root, name) then 1 else 0
  {
    var below := LockedBelow(locks, name);
    assert LockedBelow(locks - {t}, name) == below - {t};
  }

  type Counts = map<Path, nat>

  function CountAt(c: Counts, k: Path): nat {
    if k in c then c[k] else 0
  }

  /** create's callback at one name. */
  function Bump(c: Counts, k: Path): Counts {
    c[k := CountAt(c, k) + 1]
  }

  /** remove's callback at one name. */
  function Drop(c: Counts, k: Path): Counts {
    if CountAt(c, k) <= 1 then c - {k} else c[k := c[k] - 1]
  }

  function BumpAll(c: Counts, name: Path): Counts
    decreases |name|
  {
    var c' := Bump(c, name);
    if name == [] then c' else BumpAll(c', Parent(name))
  }

  function DropAll(c: Counts, name: Path): Counts
    decreases |name|
  {
    var c' := Drop(c, name);
    if name == [] then c' else DropAll(c', Parent(name))
  }

  lemma {:induction false} BumpAllCounts(c: Counts, name: Path)
    ensures forall k :: CountAt(BumpAll(c, name), k) == CountAt(c, k) + if Within(name, k) then 1 else 0
    ensures (forall k | k in c :: c[k] > 0) ==> forall k | k in BumpAll(c, name) :: BumpAll(c, name)[k] > 0
    decreases |name|
  {
    if name != [] {
      BumpAllCounts(Bump(c, name), Parent(name));
      WithinStep(name);
    }
  }

  /** Every name that remove decrements has a node. */
  ghost predicate Droppable(c: Counts, name: Path)
    decreases |name|
  {
    CountAt(c, name) > 0 && (name == [] || Droppable(Drop(c, name), Parent(name)))
  }

  lemma {:induction false} DropAllCounts(c: Counts, name: Path)
    requires forall k :: Within(name, k) ==> CountAt(c, k) > 0
    ensures Droppable(c, name)
    ensures forall k :: CountAt(DropAll(c, name), k) == CountAt(c, k) - if Within(name, k) then 1 else 0
    ensures (forall k | k in c :: c[k] > 0) ==> forall k | k in DropAll(c, name) :: DropAll(c, name)[k] > 0
    decreases |name|
  {
    if name != [] {
      WithinStep(name);
      forall k | Within(Parent(name), k) ensures CountAt(Drop(c, name), k) > 0 {
        assert CountAt(Drop(c, name), k) == CountAt(c, k);
      }
      DropAllCounts(Drop(c, name), Parent(name));
    }
  }

  /** The reference counts number the locks at or below each name; names without any are absent. */
  ghost predicate Counted(c: Counts, locks: map<Token, Lock>) {
    && (forall k | k in c :: c[k] > 0)
    && (forall k :: CountAt(c, k) == |LockedBelow(locks, k)|)
  }

  lemma CountUp(c: Counts, locks: map<Token, Lock>, t: Token, lock: Lock)
    requires Counted(c, locks) && t !in locks
    ensures Counted(BumpAll(c, lock.root), locks[t := lock])
  {
    BumpAllCounts(c, lock.root);
    forall k ensures CountAt(BumpAll(c, lock.root), k) == |LockedBelow(locks[t := lock], k)| {
      AddRoot(locks, t, lock, k);
    }
  }

  lemma CountDown(c: Counts, locks: map<Token, Lock>, t: Token)
    requires Counted(c, locks) && t in locks
    ensures Droppable(c, locks[t].root)
    ensures Counted(DropAll(c, locks[t].root), locks - {t})
  {
    forall k | Within(locks[t].root, k) ensures CountAt(c, k) > 0 {
      assert t in LockedBelow(locks, k);
    }
    DropAllCounts(c, locks[t].root);
    forall k ensures CountAt(DropAll(c, locks[t].root), k) == |LockedBelow(locks - {t}, k)| {
      DropRoot(locks, t, k);
    }
  }

  lemma LockedIsCounted(c: Counts, locks: map<Token, Lock>, t: Token)
    requires Counted(c, locks) && t in locks
    ensures locks[t].root in c
  {
    assert t in LockedBelow(locks, locks[t].root);
    assert CountAt(c, locks[t].root) > 0;
  }

  /** Changing a lock without moving its root leaves the counts right. */
  lemma CountSame(c: Counts, locks: map<Token, Lock>, t: Token, lock: Lock)
    requires Counted(c, locks) && t in locks && lock.root == locks[t].root
    ensures Counted(c, locks[t := lock])
  {
    forall k ensures LockedBelow(locks[t := lock], k) == LockedBelow(locks, k) {
    }
  }

  /** Empty names are ignored; the others are cleaned. */
  function Cleaned(name: string): Option<Path> {
    if name == "" then None else Some(SlashClean(name))
  }

  class MemLS {
    var byName: map<Path, Node>
    var byToken: map<Token, Node>
    var gen: nat
    const byExpiry: Heap
    ghost var counts: Counts    // the reference counts
    ghost var nodes: set<Node>  // every node ever made for this lock system
    ghost var table: Table      // the locks that the three structures represent

    ghost predicate Valid()
      reads this, byExpiry, nodes
    {
      Registered() && Scheduled()
    }

    /** The two maps represent the table. */
    ghost predicate Registered()
      reads this, nodes`root, nodes`zeroDepth, nodes`duration, nodes`owner, nodes`token, nodes`refCount, nodes`expiry, nodes`held
    {
      && Named()
      && gen == table.gen
      && byToken.Keys == table.locks.Keys
      && (forall t {:trigger GoodToken(t)} | t in byToken :: GoodToken(t))
      && (forall n {:trigger Known(n)} | n in nodes :: Known(n))
      && Counted(counts, table.locks)
    }

    /** The heap holds exactly the nodes that expire; the others have no index. */
    ghost predicate Scheduled()
      reads this`nodes, byExpiry, nodes`token, nodes`held, nodes`duration, nodes`expiry, nodes`byExpiryIndex
    {
      && byExpiry.nodes <= nodes
      && byExpiry.Valid()
      && (forall n {:trigger Timed(n)} | n in nodes :: Timed(n))
    }

    /** byName holds the counted names, each with its own node. */
    ghost predicate Named()
      reads this`byName, this`counts, this`nodes, nodes`root, nodes`refCount
    {
      counts.Keys == byName.Keys && forall k {:trigger NamedAt(k)} | k in byName :: NamedAt(k)
    }

    ghost predicate NamedAt(k: Path)
      reads this`byName, this`counts, this`nodes, nodes`root, nodes`refCount
    {
      && k in byName && k in counts
      && byName[k] in nodes && byName[k].root == k && byName[k].refCount == counts[k]
    }

    /** A token leads to a node with that token, which is the node of its name and carries the lock. */
    ghost predicate GoodToken(t: Token)
      reads this, nodes`root, nodes`zeroDepth, nodes`duration, nodes`owner, nodes`token, nodes`expiry, nodes`held
    {
      && t in byToken && t in table.locks
      && Generated(t, gen)
      && byToken[t] in nodes && byToken[t].token == t
      && byToken[t].root in byName && byName[byToken[t].root] == byToken[t]
      && LockOf(byToken[t]) == table.locks[t]
    }

    /** A token field is inverted by byToken. */
    ghost predicate Known(n: Node)
      reads this`byToken, n`token, n`held
    {
      && (n.token == NO_TOKEN ==> !n.held)
      && (n.token != NO_TOKEN ==> n.token in byToken && byToken[n.token] == n)
    }

    ghost predicate Timed(n: Node)
      reads byExpiry, n`token, n`held, n`duration, n`byExpiryIndex
    {
      && (n in byExpiry.nodes <==> Expires(n))
      && (n !in byExpiry.nodes ==> n.byExpiryIndex == -1)
    }

    /** The heap is right but for one node. */
    ghost predicate ScheduledBut(n: Node)
      reads this`nodes, byExpiry, nodes`token, nodes`held, nodes`duration, nodes`expiry, nodes`byExpiryIndex
    {
      && byExpiry.nodes <= nodes
      && byExpiry.Valid()
      && (forall m {:trigger Timed(m)} | m in nodes && m != n :: Timed(m))
    }

    /** A node expires when it is locked, not held, and its lock has a finite duration. */
    ghost predicate Expires(n: Node)
      reads n`token, n`held, n`duration
    {
      n.token != NO_TOKEN && !n.held && n.duration >= 0
    }

    ghost function LockOf(n: Node): Lock
      reads n`root, n`zeroDepth, n`duration, n`owner, n`expiry, n`held
    {
      Lock(n.root, n.zeroDepth, n.duration, if n.duration >= 0 then n.expiry else 0, n.held, n.owner)
    }

    /** What a release function needs of the nodes it has captured. */
    ghost predicate Holds(claim: Claim, n0: Node?, n1: Node?)
      reads this
    {
      && HoldsOne(claim.token0, n0) && HoldsOne(claim.token1, n1)
      && (claim.token0 == claim.token1 ==> claim.token0 == NO_TOKEN)
    }

    ghost predicate HoldsOne(token: Token, n: Node?)
      reads this
    {
      if token == NO_TOKEN then n == null
      else n != null && token in byToken && byToken[token] == n && token in table.locks && table.locks[token].held
    }

    constructor (gen0: nat)
      ensures Valid() && table == Table(map[], gen0) && fresh(byExpiry) && nodes == {}
    {
      byName, byToken, gen := map[], map[], gen0;
      counts, nodes, table := map[], {}, Table(map[], gen0);
      byExpiry := new Heap();
    }

    // ---------- The reference counts ----------

    /** A node that stands for no lock. */
    ghost predicate Blank(n: Node)
      reads n
    {
      n.token == NO_TOKEN && n.byExpiryIndex == -1 && !n.held
    }

    /** The callback of create at one name: find the node or make one, and count it. */
    method Touch(name: Path) returns (n: Node)
      requires Named()
      modifies this`byName, this`nodes, this`counts, (if name in byName then {byName[name]} else {})`refCount
      ensures Named() && name in byName && n == byName[name]
      ensures counts == Bump(old(counts), name)
      ensures old(nodes) <= nodes && forall m | m in nodes && m !in old(nodes) :: fresh(m) && Blank(m)
      ensures forall k | k in old(byName) :: k in byName && byName[k] == old(byName)[k]
    {
      if name in byName {
        assert NamedAt(name);
        n := byName[name];
      } else {
        n := new Node(name);
        byName, nodes := byName[name := n], nodes + {n};
      }
      n.refCount := n.refCount + 1;
      counts := Bump(counts, name);
      forall k | k in byName ensures NamedAt(k) {
        assert k != name ==> old(NamedAt(k));
      }
    }

    /** create: count one more lock on the name and each of its ancestors. */
    method CreateNode(name: Path) returns (ret: Node)
      requires Named()
      modifies this`byName, this`nodes, this`counts, nodes`refCount
      ensures Named() && name in byName && ret == byName[name]
      ensures counts == BumpAll(old(counts), name)
      ensures old(nodes) <= nodes && forall n | n in nodes && n !in old(nodes) :: fresh(n) && Blank(n)
      ensures forall k | k in old(byName) :: k in byName && byName[k] == old(byName)[k]
    {
      hide Bump;
      assert name in byName ==> NamedAt(name);
      ret := Touch(name);
      var name0 := name;
      while name0 != []
        invariant Named() && name in byName && ret == byName[name]
        invariant BumpAll(old(counts), name) == if name0 == [] then counts else BumpAll(counts, Parent(name0))
        invariant old(nodes) <= nodes && forall n | n in nodes && n !in old(nodes) :: fresh(n) && Blank(n)
        invariant forall k | k in old(byName) :: k in byName && byName[k] == old(byName)[k]
        decreases |name0|
      {
        name0 := Parent(name0);
        assert name0 in byName ==> NamedAt(name0);
        var n := Touch(name0);
      }
    }

    /** The callback of remove at one name: uncount, and forget a node without locks below. */
    method Untouch(name: Path)
      requires Named() && name in counts && counts[name] > 0
      modifies this`byName, this`counts, nodes`refCount
      ensures Named() && counts == Drop(old(counts), name)
      ensures forall k | k in byName :: k in old(byName) && byName[k] == old(byName)[k]
    {
      assert NamedAt(name);
      var x := byName[name];
      x.refCount := x.refCount - 1;
      counts := Drop(counts, name);
      if x.refCount == 0 {
        byName := byName - {name};
      }
      forall k | k in byName ensures NamedAt(k) {
        assert old(NamedAt(k));
      }
    }

    /** The loop of remove. */
    method DropNames(name: Path)
      requires Named() && Droppable(counts, name)
      modifies this`byName, this`counts, nodes`refCount
      ensures Named() && counts == DropAll(old(counts), name)
      ensures forall k | k in byName :: k in old(byName) && byName[k] == old(byName)[k]
    {
      var name0 := name;
      Untouch(name0);
      while name0 != []
        invariant Named()
        invariant DropAll(old(counts), name) == if name0 == [] then counts else DropAll(counts, Parent(name0))
        invariant name0 != [] ==> Droppable(counts, Parent(name0))
        invariant forall k | k in byName :: k in old(byName) && byName[k] == old(byName)[k]
        decreases |name0|
      {
        name0 := Parent(name0);
        Untouch(name0);
      }
    }

    /** The part of remove before the heap. */
    method Unregister(n: Node)
      requires Registered() && n in nodes && n.token != NO_TOKEN && !n.held
      modifies this`byName, this`byToken, this`counts, this`table, n`token, nodes`refCount
      ensures Registered() && n.token == NO_TOKEN && byToken == old(byToken) - {old(n.token)}
      ensures table == old(table).(locks := old(table).locks - {old(n.token)})
    {
      TakeToken(n);
      ForgetNames(n.root);
    }

    /** The token and the lock go; the names still count the lock. */
    method TakeToken(n: Node)
      requires Registered() && n in nodes && n.token != NO_TOKEN && !n.held
      modifies this`byToken, this`table, n`token
      ensures n.token == NO_TOKEN && byToken == old(byToken) - {old(n.token)}
      ensures table == old(table).(locks := old(table).locks - {old(n.token)})
      ensures Named() && Droppable(counts, n.root) && Counted(DropAll(counts, n.root), table.locks)
      ensures gen == table.gen && byToken.Keys == table.locks.Keys
      ensures forall t {:trigger GoodToken(t)} | t in byToken :: GoodToken(t)
      ensures forall m {:trigger Known(m)} | m in nodes :: Known(m)
    {
      assert Known(n) && GoodToken(n.token);
      CountDown(counts, table.locks, n.token);
      table := table.(locks := table.locks - {n.token});
      byToken := byToken - {n.token};
      n.token := NO_TOKEN;
      forall m | m in nodes ensures Known(m) {
        assert old(Known(m));
      }
      forall t | t in byToken ensures GoodToken(t) {
        assert old(GoodToken(t));
      }
    }

    /** The names of a lock that is gone from the table. */
    method ForgetNames(name: Path)
      requires Named() && Droppable(counts, name) && Counted(DropAll(counts, name), table.locks)
      requires gen == table.gen && byToken.Keys == table.locks.Keys
      requires forall t {:trigger GoodToken(t)} | t in byToken :: GoodToken(t)
      requires forall m {:trigger Known(m)} | m in nodes :: Known(m)
      modifies this`byName, this`counts, nodes`refCount
      ensures Registered()
    {
      DropNames(name);
      forall m | m in nodes ensures Known(m) {
        assert old(Known(m));
      }
      forall t | t in byToken ensures GoodToken(t) {
        assert old(GoodToken(t));
        LockedIsCounted(counts, table.locks, t);
      }
    }

    // ---------- The heap ----------

    /** Take a node out of the heap if it is there. */
    method Unschedule(n: Node)
      requires n in nodes && ScheduledBut(n)
      requires n in byExpiry.nodes || n.byExpiryIndex == -1
      modifies byExpiry, nodes`byExpiryIndex
      ensures ScheduledBut(n) && n !in byExpiry.nodes && n.byExpiryIndex == -1
      ensures n in old(byExpiry.nodes) ==> |byExpiry.items| < |old(byExpiry.items)|
    {
      if n.byExpiryIndex >= 0 {
        byExpiry.Remove(n.byExpiryIndex);
      }
      forall m | m in nodes && m != n ensures Timed(m) {
        assert old(Timed(m));
      }
    }

    method Schedule(n: Node)
      requires n in nodes && ScheduledBut(n) && n !in byExpiry.nodes && Expires(n)
      modifies byExpiry, nodes`byExpiryIndex
      ensures Scheduled()
    {
      byExpiry.Push(n);
      forall m | m in nodes ensures Timed(m) {
        assert m != n ==> old(Timed(m));
      }
    }

    /** remove. */
    method RemoveNode(n: Node)
      requires Valid() && n in nodes && n.token != NO_TOKEN && !n.held
      modifies this, byExpiry, nodes
      ensures Valid() && nodes == old(nodes) && byToken == old(byToken) - {old(n.token)}
      ensures table == old(table).(locks := old(table).locks - {old(n.token)})
      ensures n in old(byExpiry.nodes) ==> |byExpiry.items| < |old(byExpiry.items)|
    {
      assert Timed(n);
      Unregister(n);
      forall m | m in nodes && m != n ensures Timed(m) {
        assert old(Timed(m));
      }
      Unschedule(n);
      assert Timed(n);
    }

    lemma NoneExpired(now: int)
      requires Valid()
      requires byExpiry.items == [] || now < byExpiry.items[0].expiry
      ensures forall t | t in table.locks :: !Expired(table.locks[t], now)
    {
      forall t | t in table.locks && Expired(table.locks[t], now) ensures false {
        assert GoodToken(t);
        var n := byToken[t];
        assert Timed(n);
        RootIsLeast(byExpiry.keys, n.byExpiryIndex);
      }
    }

    /** collectExpiredNodes: only the root of the heap is ever looked at. */
    method CollectExpired(now: int)
      requires Valid()
      modifies this, byExpiry, nodes
      ensures Valid() && nodes == old(nodes)
      ensures table == Collect(old(table), now)
      ensures forall t | t in byToken && t in old(byToken) :: byToken[t] == old(byToken)[t]
    {
      while |byExpiry.items| > 0
        invariant Valid() && nodes == old(nodes) && table.gen == old(table).gen
        invariant forall t | t in table.locks :: t in old(table).locks && table.locks[t] == old(table).locks[t]
        invariant forall t | t in byToken && t in old(byToken) :: byToken[t] == old(byToken)[t]
        invariant forall t | t in old(table).locks && t !in table.locks :: Expired(old(table).locks[t], now)
        decreases |byExpiry.items|
      {
        var n := byExpiry.items[0];
        if now < n.expiry {
          break;
        }
        assert Timed(n) && Known(n) && GoodToken(n.token);
        RemoveNode(n);
      }
      NoneExpired(now);
    }

    // ---------- The operations ----------

    /** canCreate: it looks at the name and its ancestors only, and decides whether any lock
        at all conflicts. */
    method CanCreateAt(name: Path, zeroDepth: bool) returns (ok: bool)
      requires Valid()
      ensures ok == CanCreate(table, name, zeroDepth)
    {
      var name0, first := name, true;
      NameTells(name);
      ClearUpwardsIsNoneAbove(table, name);
      while true
        invariant name0 <= name && (first <==> name0 == name)
        invariant !first ==> CanCreate(table, name, zeroDepth) == ClearUpwards(table, name0)
        decreases |name0|
      {
        NameTells(name0);
        if name0 in byName {
          var n := byName[name0];
          if first {
            if n.token != NO_TOKEN {
              return false;
            }
            if !zeroDepth {
              return false;
            }
          } else if n.token != NO_TOKEN && !n.zeroDepth {
            return false;
          }
        }
        if name0 == [] {
          break;
        }
        name0, first := Parent(name0), false;
      }
      return true;
    }

    /** What the node of a name, or its absence, tells about the table. */
    lemma NameTells(name: Path)
      requires Valid()
      ensures name in byName <==> exists t | t in table.locks :: name <= table.locks[t].root
      ensures name in byName && byName[name].token != NO_TOKEN <==> exists t | t in table.locks :: table.locks[t].root == name
      ensures name in byName && byName[name].token != NO_TOKEN && !byName[name].zeroDepth <==> InfiniteAt(table, name)
    {
      if name in byName {
        assert NamedAt(name);
        assert CountAt(counts, name) == |LockedBelow(table.locks, name)|;
        assert LockedBelow(table.locks, name) != {};
        var t :| t in LockedBelow(table.locks, name);
        var n := byName[name];
        assert Known(n);
        if n.token != NO_TOKEN {
          assert GoodToken(n.token) && table.locks[n.token].root == name;
        }
      }
      forall t | t in table.locks && name <= table.locks[t].root ensures name in byName {
        assert t in LockedBelow(table.locks, name);
        assert CountAt(counts, name) > 0;
      }
      forall t | t in table.locks && table.locks[t].root == name ensures t != NO_TOKEN && name in byName && byName[name].token == t {
        assert GoodToken(t);
      }
    }

    /** lookup. Like the source it takes no notice of `negated` and `etag`. */
    method LookupNode(name: Path, conditions: seq<Condition>) returns (r: Node?)
      requires Valid()
      ensures r == null <==> Lookup(table, name, conditions) == NO_TOKEN
      ensures r != null ==> r in nodes && r.token == Lookup(table, name, conditions) && r.token != NO_TOKEN && !r.held
    {
      var i := 0;
      while i < |conditions|
        invariant 0 <= i <= |conditions|
        invariant Lookup(table, name, conditions) == Lookup(table, name, conditions[i..])
      {
        var token := conditions[i].token;
        assert conditions[i..][1..] == conditions[i + 1..];
        if token in byToken {
          assert GoodToken(token);
          var n := byToken[token];
          if !n.held && (name == n.root || (!n.zeroDepth && n.root <= name)) {
            return n;
          }
        }
        i := i + 1;
      }
      return null;
    }

    /** The table part of hold and unhold. */
    method SetHeldFlag(n: Node, held: bool)
      requires Registered() && n in nodes && n.token != NO_TOKEN
      modifies this`table, n`held
      ensures Registered() && n.held == held
      ensures table == SetHeld(old(table), n.token, held)
    {
      assert Known(n) && GoodToken(n.token);
      ghost var lock := table.locks[n.token].(held := held);
      CountSame(counts, table.locks, n.token, lock);
      n.held := held;
      forall m | m in nodes ensures Known(m) {
        assert old(Known(m));
      }
      forall t | t in byToken && t != n.token ensures GoodToken(t) {
        assert old(GoodToken(t) && Known(byToken[t]));
      }
      Enter(n, lock);
    }

    /** The lock that the node carries goes into the table. */
    ghost method Enter(n: Node, lock: Lock)
      requires Named() && n in nodes && n.root in byName && byName[n.root] == n && LockOf(n) == lock
      requires Generated(n.token, gen) && n.token in byToken && byToken[n.token] == n
      requires byToken.Keys == table.locks.Keys + {n.token}
      requires Counted(counts, table.locks[n.token := lock])
      requires forall t {:trigger GoodToken(t)} | t in byToken && t != n.token :: GoodToken(t)
      requires forall m {:trigger Known(m)} | m in nodes :: Known(m)
      modifies this`table
      ensures Registered() && table == Table(old(table).locks[n.token := lock], gen)
    {
      table := Table(table.locks[n.token := lock], gen);
      forall m | m in nodes ensures Known(m) {
        assert old(Known(m));
      }
      forall t | t in byToken ensures GoodToken(t) {
        assert t != n.token ==> old(GoodToken(t));
      }
    }

    method Hold(n: Node)
      requires Valid() && n in nodes && n.token != NO_TOKEN && !n.held
      modifies this, byExpiry, nodes
      ensures Valid() && nodes == old(nodes) && n.held && n.token == old(n.token)
      ensures table == SetHeld(old(table), n.token, true) && byToken == old(byToken)
      ensures forall m | m in nodes :: m.token == old(m.token) && (m != n ==> m.held == old(m.held))
    {
      assert Timed(n);
      SetHeldFlag(n, true);
      forall m | m in nodes && m != n ensures Timed(m) {
        assert old(Timed(m));
      }
      if n.duration >= 0 {
        Unschedule(n);
      }
      assert Timed(n);
    }

    method Unhold(n: Node)
      requires Valid() && n in nodes && n.token != NO_TOKEN && n.held
      modifies this, byExpiry, nodes
      ensures Valid() && nodes == old(nodes) && !n.held && n.token == old(n.token)
      ensures table == SetHeld(old(table), n.token, false) && byToken == old(byToken)
      ensures forall m | m in nodes :: m.token == old(m.token) && (m != n ==> m.held == old(m.held))
    {
      assert Timed(n);
      SetHeldFlag(n, false);
      forall m | m in nodes && m != n ensures Timed(m) {
        assert old(Timed(m));
      }
      ScheduleIfFinite(n);
    }

    lemma FreshToken()
      requires Registered()
      ensures Itoa(gen + 1) !in byToken
    {
      NextTokenIsNew(gen);
      assert Itoa(gen + 1) in byToken ==> GoodToken(Itoa(gen + 1));
    }

    lemma FreeName(root: Path)
      requires Registered() && CanCreate(table, root, true)
      ensures root in byName ==> byName[root].token == NO_TOKEN
    {
      if root in byName {
        var n := byName[root];
        assert NamedAt(root) && Known(n);
        assert n.token in byToken ==> GoodToken(n.token);
      }
    }

    /** The part of Create that takes the node of the name. The new nodes are blank, and no
        token is known for this one. */
    method NodeFor(root: Path) returns (n: Node)
      requires Registered() && CanCreate(table, root, true)
      modifies this`byName, this`nodes, this`counts, nodes`refCount
      ensures Named() && counts == BumpAll(old(counts), root)
      ensures n in nodes && n.token == NO_TOKEN && n.root == root && root in byName && byName[root] == n
      ensures old(nodes) <= nodes && forall m | m in nodes && m !in old(nodes) :: fresh(m) && Blank(m)
      ensures forall t {:trigger GoodToken(t)} | t in byToken :: GoodToken(t)
      ensures forall m {:trigger Known(m)} | m in nodes :: Known(m)
    {
      FreeName(root);
      n := CreateNode(root);
      assert NamedAt(root);
      forall m | m in nodes ensures Known(m) {
        assert m in old(nodes) ==> old(Known(m));
      }
      forall t | t in byToken ensures GoodToken(t) {
        assert old(GoodToken(t));
      }
    }

    method SetDetails(n: Node, now: int, zeroDepth: bool, duration: int, owner: string)
      modifies n`zeroDepth, n`duration, n`owner, n`expiry
      ensures LockOf(n) == Lock(n.root, zeroDepth, duration, Deadline(now, duration), n.held, owner)
    {
      n.zeroDepth, n.duration, n.owner := zeroDepth, duration, owner;
      if n.duration >= 0 {
        n.expiry := now + n.duration;
      }
    }

    method GiveToken(n: Node)
      modifies this`gen, this`byToken, n`token
      ensures gen == old(gen) + 1 && n.token == Itoa(gen) && byToken == old(byToken)[Itoa(gen) := n]
    {
      gen := gen + 1;
      n.token := Itoa(gen);
      byToken := byToken[n.token := n];
    }

    /** The part of Create that makes the node carry the lock. */
    method Fill(n: Node, now: int, zeroDepth: bool, duration: int, owner: string, ghost lock: Lock)
      requires lock == Lock(n.root, zeroDepth, duration, Deadline(now, duration), false, owner)
      requires Named() && Counted(counts, table.locks[Itoa(gen + 1) := lock])
      requires n in nodes && n.token == NO_TOKEN && n.root in byName && byName[n.root] == n
      requires gen == table.gen && byToken.Keys == table.locks.Keys && Itoa(gen + 1) !in byToken
      requires forall t {:trigger GoodToken(t)} | t in byToken :: GoodToken(t)
      requires forall m {:trigger Known(m)} | m in nodes :: Known(m)
      modifies this`gen, this`byToken, this`table, n`token, n`zeroDepth, n`duration, n`owner, n`expiry
      ensures Registered() && gen == old(gen) + 1 && n.token == Itoa(gen) && n.duration == duration
      ensures byToken == old(byToken)[Itoa(gen) := n]
      ensures table == Table(old(table).locks[Itoa(gen) := lock], gen)
    {
      NextTokenIsNew(gen);
      assert Known(n);
      GiveToken(n);
      SetDetails(n, now, zeroDepth, duration, owner);
      forall m | m in nodes ensures Known(m) {
        assert old(Known(m));
      }
      forall t | t in byToken && t != n.token ensures GoodToken(t) {
        assert old(GoodToken(t) && Known(byToken[t]));
      }
      Enter(n, lock);
    }

    method TakeNode(root: Path) returns (n: Node)
      requires Valid() && CanCreate(table, root, true)
      modifies this`byName, this`nodes, this`counts, nodes`refCount
      ensures Named() && Scheduled() && counts == BumpAll(old(counts), root)
      ensures n in nodes && n.token == NO_TOKEN && n.root == root && root in byName && byName[root] == n
      ensures old(nodes) <= nodes && fresh(nodes - old(nodes))
      ensures forall t {:trigger GoodToken(t)} | t in byToken :: GoodToken(t)
      ensures forall m {:trigger Known(m)} | m in nodes :: Known(m)
    {
      n := NodeFor(root);
      forall m | m in nodes ensures Timed(m) {
        assert m in old(nodes) ==> old(Timed(m));
      }
    }

    /** The part of Create before the heap. */
    method Register(now: int, root: Path, zeroDepth: bool, duration: int, owner: string) returns (n: Node)
      requires Valid() && CanCreate(table, root, zeroDepth)
      modifies this, nodes`refCount, nodes`token, nodes`zeroDepth, nodes`duration, nodes`owner, nodes`expiry
      ensures Registered() && n in nodes && ScheduledBut(n) && n !in byExpiry.nodes && n.byExpiryIndex == -1
      ensures old(nodes) <= nodes && fresh(nodes - old(nodes))
      ensures gen == old(gen) + 1 && n.token == Itoa(gen) && n.duration == duration && !n.held
      ensures Itoa(gen) !in old(byToken) && byToken == old(byToken)[Itoa(gen) := n]
      ensures table == Table(old(table).locks[Itoa(gen) := Lock(root, zeroDepth, duration, Deadline(now, duration), false, owner)], gen)
    {
      ghost var lock := Lock(root, zeroDepth, duration, Deadline(now, duration), false, owner);
      CanCreateAny(root, zeroDepth);
      FreshToken();
      CountUp(counts, table.locks, Itoa(gen + 1), lock);
      n := TakeNode(root);
      assert Timed(n) && Known(n);
      label Taken:
      Fill(n, now, zeroDepth, duration, owner, lock);
      forall m | m in nodes && m != n ensures Timed(m) {
        assert old@Taken(Timed(m));
      }
    }

    method Create(now: int, name: string, zeroDepth: bool, duration: int, owner: string) returns (r: Result<Token>)
      requires Valid()
      modifies this, byExpiry, nodes
      ensures Valid() && old(nodes) <= nodes && fresh(nodes - old(nodes))
      ensures (table, r) == LockTable.Create(old(table), now, SlashClean(name), zeroDepth, duration, owner)
      ensures forall t | t in byToken && t in old(byToken) :: byToken[t] == old(byToken)[t]
    {
      hide LockTable.CanCreate, Itoa, SlashClean;
      FreshToken();
      CollectExpired(now);
      var root := SlashClean(name);
      var ok := CanCreateAt(root, zeroDepth);
      if !ok {
        return Err(ErrLocked);
      }
      var n := AddLock(now, root, zeroDepth, duration, owner);
      r := Ok(n.token);
      assert LockTable.Create(old(table), now, root, zeroDepth, duration, owner) == (table, r);
    }

    /** Create, when nothing is in the way. */
    method AddLock(now: int, root: Path, zeroDepth: bool, duration: int, owner: string) returns (n: Node)
      requires Valid() && CanCreate(table, root, zeroDepth)
      modifies this, byExpiry, nodes
      ensures Valid() && old(nodes) <= nodes && fresh(nodes - old(nodes))
      ensures n.token == Itoa(gen) && Itoa(gen) !in old(byToken) && byToken == old(byToken)[Itoa(gen) := n]
      ensures table == Table(old(table).locks[Itoa(gen) := Lock(root, zeroDepth, duration, Deadline(now, duration), false, owner)], gen)
      ensures gen == old(gen) + 1
    {
      n := Register(now, root, zeroDepth, duration, owner);
      ScheduleIfFinite(n);
    }

    method ScheduleIfFinite(n: Node)
      requires n in nodes && n.token != NO_TOKEN && !n.held
      requires ScheduledBut(n) && n !in byExpiry.nodes && n.byExpiryIndex == -1
      modifies byExpiry, nodes`byExpiryIndex
      ensures Scheduled()
    {
      if n.duration >= 0 {
        Schedule(n);
      } else {
        assert Timed(n);
      }
    }

    lemma CanCreateAny(root: Path, zeroDepth: bool)
      requires CanCreate(table, root, zeroDepth)
      ensures CanCreate(table, root, true)
    {
    }

    /** The table part of Refresh. */
    method SetDuration(n: Node, now: int, duration: int)
      requires Registered() && n in nodes && n.token in table.locks
      modifies this`table, n`duration, n`expiry
      ensures Registered() && n.duration == duration
      ensures table == old(table).(locks := old(table).locks[n.token := old(table).locks[n.token].(duration := duration, expiry := Deadline(now, duration))])
    {
      assert Known(n) && GoodToken(n.token);
      ghost var lock := table.locks[n.token].(duration := duration, expiry := Deadline(now, duration));
      CountSame(counts, table.locks, n.token, lock);
      n.duration := duration;
      if n.duration >= 0 {
        n.expiry := now + n.duration;
      }
      forall m | m in nodes ensures Known(m) {
        assert old(Known(m));
      }
      forall t | t in byToken && t != n.token ensures GoodToken(t) {
        assert old(GoodToken(t) && Known(byToken[t]));
      }
      Enter(n, lock);
    }

    /** The part of Refresh after the checks. */
    method Reschedule(n: Node, now: int, duration: int)
      requires Valid() && n in nodes && n.token in table.locks && n.token != NO_TOKEN && !n.held
      modifies this`table, byExpiry, n`duration, n`expiry, nodes`byExpiryIndex
      ensures Valid() && n.duration == duration
      ensures table == old(table).(locks := old(table).locks[n.token := old(table).locks[n.token].(duration := duration, expiry := Deadline(now, duration))])
    {
      assert Timed(n);
      Unschedule(n);
      label Removed:
      SetDuration(n, now, duration);
      forall m | m in nodes && m != n ensures Timed(m) {
        assert old@Removed(Timed(m));
      }
      ScheduleIfFinite(n);
    }

    method Refresh(now: int, token: Token, duration: int) returns (r: Result<Lock>)
      requires Valid()
      modifies this, byExpiry, nodes
      ensures Valid() && nodes == old(nodes)
      ensures (table, r) == LockTable.Refresh(old(table), now, token, duration)
      ensures forall t | t in byToken && t in old(byToken) :: byToken[t] == old(byToken)[t]
    {
      hide Itoa, SlashClean;
      CollectExpired(now);
      if token !in byToken {
        return Err(ErrNoSuchLock);
      }
      assert GoodToken(token);
      var n := byToken[token];
      if n.held {
        return Err(ErrLocked);
      }
      var lock := RefreshNode(n, now, token, duration);
      return Ok(lock);
    }

    /** Refresh, once the lock is known to be free. */
    method RefreshNode(n: Node, now: int, token: Token, duration: int) returns (lock: Lock)
      requires Valid() && token in byToken && n == byToken[token] && n in nodes && n.token == token && token != NO_TOKEN && !n.held
      requires token in table.locks
      modifies this`table, byExpiry, n`duration, n`expiry, nodes`byExpiryIndex
      ensures Valid() && lock == old(table).locks[token].(duration := duration, expiry := Deadline(now, duration))
      ensures table == old(table).(locks := old(table).locks[token := lock])
    {
      Reschedule(n, now, duration);
      assert GoodToken(token);
      lock := Lock(n.root, n.zeroDepth, n.duration, if n.duration >= 0 then n.expiry else 0, n.held, n.owner);
    }

    method Unlock(now: int, token: Token) returns (r: Result<()>)
      requires Valid()
      modifies this, byExpiry, nodes
      ensures Valid() && nodes == old(nodes)
      ensures (table, r) == LockTable.Unlock(old(table), now, token)
      ensures forall t | t in byToken && t in old(byToken) :: byToken[t] == old(byToken)[t]
    {
      CollectExpired(now);
      if token !in byToken {
        return Err(ErrNoSuchLock);
      }
      assert GoodToken(token);
      var n := byToken[token];
      if n.held {
        return Err(ErrLocked);
      }
      RemoveNode(n);
      return Ok(());
    }

    /** The part of Confirm after the lookups. */
    method HoldBoth(n0: Node?, n1: Node?) returns (claim: Claim)
      requires Valid() && (n0 == n1 ==> n0 == null)
      requires n0 != null ==> n0 in nodes && n0.token != NO_TOKEN && !n0.held
      requires n1 != null ==> n1 in nodes && n1.token != NO_TOKEN && !n1.held
      modifies this, byExpiry, nodes
      ensures Valid() && nodes == old(nodes) && byToken == old(byToken)
      ensures claim == Claim(if n0 == null then NO_TOKEN else old(n0.token), if n1 == null then NO_TOKEN else old(n1.token))
      ensures table == SetHeld(SetHeld(old(table), claim.token0, true), claim.token1, true)
      ensures Holds(claim, n0, n1)
    {
      claim := Claim(TokenOf(n0), TokenOf(n1));
      SameNode(n0, n1);
      HoldIf(n0);
      HoldIf(n1);
    }

    /** Hold a node, if there is one. */
    method HoldIf(n: Node?)
      requires Valid() && (n != null ==> n in nodes && n.token != NO_TOKEN && !n.held)
      modifies this, byExpiry, nodes
      ensures Valid() && nodes == old(nodes) && byToken == old(byToken)
      ensures table == SetHeld(old(table), old(TokenOf(n)), true) && HoldsOne(old(TokenOf(n)), n)
      ensures forall m | m in nodes :: m.token == old(m.token) && (m != n ==> m.held == old(m.held))
    {
      assert NO_TOKEN in byToken ==> GoodToken(NO_TOKEN);
      if n != null {
        assert Known(n) && GoodToken(n.token);
        Hold(n);
      }
    }

    function TokenOf(n: Node?): Token
      reads if n == null then {} else {n}
    {
      if n == null then NO_TOKEN else n.token
    }

    /** Confirm; the two nodes are what the release function it returns has captured. */
    method Confirm(now: int, name0: string, name1: string, conditions: seq<Condition>)
        returns (r: Result<Claim>, n0: Node?, n1: Node?)
      requires Valid()
      modifies this, byExpiry, nodes
      ensures Valid() && nodes == old(nodes)
      ensures (table, r) == LockTable.Confirm(old(table), now, Cleaned(name0), Cleaned(name1), conditions)
      ensures r.Ok? ==> Holds(r.value, n0, n1)
      ensures forall t | t in byToken && t in old(byToken) :: byToken[t] == old(byToken)[t]
    {
      CollectExpired(now);
      var ok;
      ok, n0, n1 := LookupBoth(name0, name1, conditions);
      if !ok {
        return Err(ErrConfirmationFailed), n0, n1;
      }
      var claim;
      claim, n1 := HoldOnce(n0, n1);
      return Ok(claim), n0, n1;
    }

    /** The same node is held once. */
    method HoldOnce(n0: Node?, n1: Node?) returns (claim: Claim, m1: Node?)
      requires Valid()
      requires n0 != null ==> n0 in nodes && n0.token != NO_TOKEN && !n0.held
      requires n1 != null ==> n1 in nodes && n1.token != NO_TOKEN && !n1.held
      modifies this, byExpiry, nodes
      ensures Valid() && nodes == old(nodes) && byToken == old(byToken)
      ensures var k0, k1 := old(TokenOf(n0)), old(TokenOf(n1));
              claim == Claim(k0, if k1 == k0 then NO_TOKEN else k1)
      ensures table == SetHeld(SetHeld(old(table), claim.token0, true), claim.token1, true)
      ensures Holds(claim, n0, m1)
    {
      SameNode(n0, n1);
      m1 := if n1 == n0 then null else n1;
      claim := HoldBoth(n0, m1);
    }

    /** The lookups of Confirm; an empty name needs no node. */
    method LookupBoth(name0: string, name1: string, conditions: seq<Condition>) returns (ok: bool, n0: Node?, n1: Node?)
      requires Valid()
      ensures var k0 := if name0 != "" then Lookup(table, SlashClean(name0), conditions) else NO_TOKEN;
              var k1 := if name1 != "" then Lookup(table, SlashClean(name1), conditions) else NO_TOKEN;
              && ok == ((name0 != "" ==> k0 != NO_TOKEN) && (name1 != "" ==> k1 != NO_TOKEN))
              && (ok ==> TokenOf(n0) == k0 && TokenOf(n1) == k1)
      ensures n0 != null ==> n0 in nodes && n0.token != NO_TOKEN && !n0.held
      ensures n1 != null ==> n1 in nodes && n1.token != NO_TOKEN && !n1.held
    {
      n0, n1 := null, null;
      if name0 != "" {
        n0 := LookupNode(SlashClean(name0), conditions);
        if n0 == null {
          return false, n0, n1;
        }
      }
      if name1 != "" {
        n1 := LookupNode(SlashClean(name1), conditions);
        if n1 == null {
          return false, n0, n1;
        }
      }
      ok := true;
    }

    /** Nodes with tokens are the same exactly when their tokens are. */
    lemma SameNode(n0: Node?, n1: Node?)
      requires Valid()
      requires n0 != null ==> n0 in nodes && n0.token != NO_TOKEN
      requires n1 != null ==> n1 in nodes && n1.token != NO_TOKEN
      ensures n0 != null && n1 != null && n0.token == n1.token ==> n0 == n1
    {
      assert n0 != null ==> Known(n0);
      assert n1 != null ==> Known(n1);
    }

    /** The function that Confirm returns. */
    method Release(ghost claim: Claim, n0: Node?, n1: Node?)
      requires Valid() && Holds(claim, n0, n1)
      modifies this, byExpiry, nodes
      ensures Valid() && nodes == old(nodes) && byToken == old(byToken)
      ensures table == LockTable.Release(old(table), claim)
    {
      assert claim.token0 != NO_TOKEN ==> GoodToken(claim.token0);
      assert claim.token1 != NO_TOKEN ==> GoodToken(claim.token1);
      assert NO_TOKEN in byToken ==> GoodToken(NO_TOKEN);
      if n1 != null {
        Unhold(n1);
      }
      if n0 != null {
        Unhold(n0);
      }
    }
  }
}
