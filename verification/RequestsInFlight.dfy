/** confirmLocks among the calls of other requests and clients: between any two calls that a
    request makes of the lock system, others may make theirs. */
module RequestsInFlight {
  import opened Wrappers
  import opened Paths
  import opened LockTable
  import opened MemLS
  import opened LockProtocol
  import opened IfHeader
  import opened RequestHandler

  // ---------- The others ----------

  /** What others do before the n-th call of the request, depending on the state they find. */
  type Others = (nat, System) -> seq<Action>

  predicate ByOthers(a: Action, r: Request) {
    match a
    case LockTemp(q, _, _) => q != r
    case UnlockTemp(q, _, _) => q != r
    case ConfirmFor(q, _, _, _, _) => q != r
    case ReleaseFor(q) => q != r
    case _ => true
  }

  predicate AllByOthers(actions: seq<Action>, r: Request) {
    forall a | a in actions :: ByOthers(a, r)
  }

  /** They keep the rules, and leave this request's own calls to it. */
  ghost predicate Harmless(others: Others, r: Request) {
    forall n, s {:trigger others(n, s)} :: AllowedRun(s, others(n, s)) && AllByOthers(others(n, s), r)
  }

  function Meanwhile(others: Others, n: nat, s: System): System {
    ActAll(s, others(n, s))
  }

  /** The temporary locks of the request. */
  function Own(s: System, r: Request): set<Token> {
    set k | k in s.temps && s.temps[k] == r
  }

  /** The request has what it had. */
  predicate OwnSame(s: System, s': System, r: Request) {
    Own(s', r) == Own(s, r) && (r in s'.holds <==> r in s.holds) && (r in s.holds ==> s'.holds[r] == s.holds[r])
  }

  lemma OtherActs(s: System, a: Action, r: Request)
    requires Consistent(s) && Allowed(s, a) && ByOthers(a, r)
    ensures Consistent(Act(s, a)) && OwnSame(s, Act(s, a), r) && s.issued <= Act(s, a).issued
  {
    hide Consistent;
    ActKeepsConsistent(s, a);
    if a.LockTemp? {
      CreateStep(s, a.now, a.name, true, LockProtocol.INFINITE, "");
    }
  }

  lemma {:induction false} OthersAct(s: System, actions: seq<Action>, r: Request)
    requires Consistent(s) && AllowedRun(s, actions) && AllByOthers(actions, r)
    ensures var s' := ActAll(s, actions);
            && Consistent(s') && OwnSame(s, s', r) && s.issued <= s'.issued
            && forall name | HasClaim(s, r, name) :: HasClaim(s', r, name)
    decreases |actions|
  {
    if actions != [] {
      assert ByOthers(actions[0], r);
      OtherActs(s, actions[0], r);
      forall name | HasClaim(s, r, name) ensures HasClaim(Act(s, actions[0]), r, name) {
        ClaimPersists(s, actions[0], r, name);
      }
      OthersAct(Act(s, actions[0]), actions[1..], r);
    }
  }

  // ---------- Runs ----------

  /** An allowed run leads from one state to the other. */
  ghost predicate Reaches(s: System, actions: seq<Action>, s': System) {
    AllowedRun(s, actions) && ActAll(s, actions) == s' && Consistent(s') && s.issued <= s'.issued
  }

  lemma ReachThen(s: System, a: seq<Action>, s1: System, b: seq<Action>, s2: System)
    requires Reaches(s, a, s1) && Reaches(s1, b, s2)
    ensures Reaches(s, a + b, s2)
  {
    RunThen(s, a, b);
  }

  lemma {:induction false} RunThen(s: System, a: seq<Action>, b: seq<Action>)
    requires AllowedRun(s, a) && AllowedRun(ActAll(s, a), b)
    ensures AllowedRun(s, a + b) && ActAll(s, a + b) == ActAll(ActAll(s, a), b)
    decreases |a|
  {
    if a == [] {
      assert a + b == b;
    } else {
      assert (a + b)[1..] == a[1..] + b;
      RunThen(Act(s, a[0]), a[1..], b);
    }
  }

  lemma ReachOthers(others: Others, n: nat, s: System, r: Request)
    requires Consistent(s) && Harmless(others, r)
    ensures var s' := Meanwhile(others, n, s);
            && Reaches(s, others(n, s), s') && OwnSame(s, s', r)
            && forall name | HasClaim(s, r, name) :: HasClaim(s', r, name)
  {
    OthersAct(s, others(n, s), r);
  }

  lemma ReachOne(s: System, a: Action)
    requires Consistent(s) && Allowed(s, a)
    ensures Reaches(s, [a], Act(s, a))
  {
    ActKeepsConsistent(s, a);
    assert [a][1..] == [];
  }

  /** A name that is given is claimed by the request. */
  ghost predicate Claims(s: System, r: Request, name: string) {
    name != "" ==> HasClaim(s, r, SlashClean(name))
  }

  // ---------- Without an If header ----------

  /** A temporary lock is one call, or none for an empty name. */
  function TempAction(r: Request, now: int, name: string): seq<Action> {
    if name == "" then [] else [LockTemp(r, now, SlashClean(name))]
  }

  /** The call, and its answer. */
  function TempTaken(s: System, r: Request, now: int, name: string): (System, Result<Token>) {
    (ActAll(s, TempAction(r, now, name)), TempLock(s.table, now, name).1)
  }

  function TempLocksAmong(others: Others, s: System, r: Request, now: int, src: string, dst: string): (System, Result<Claim>) {
    var (s1, r1) := TempTaken(Meanwhile(others, 0, s), r, now, src);
    if r1.Err? then (s1, Err(r1.error))
    else
      var (s2, r2) := TempTaken(Meanwhile(others, 1, s1), r, now, dst);
      if r2.Ok? then (s2, Ok(Claim(r1.value, r2.value)))
      else if r1.value == NO_TOKEN then (s2, Err(r2.error))
      else (Act(Meanwhile(others, 2, s2), UnlockTemp(r, now, r1.value)), Err(r2.error))
  }

  lemma TempTakes(s: System, r: Request, now: int, name: string)
    requires Consistent(s)
    ensures var (s', t) := TempTaken(s, r, now, name);
            && Reaches(s, TempAction(r, now, name), s')
            && s'.table == TempLock(s.table, now, name).0 && s'.holds == s.holds
            && (t.Err? || name == "" ==> s'.temps == s.temps)
            && (t.Ok? && name == "" ==> t.value == NO_TOKEN)
            && (t.Ok? && name != "" ==> t.value != NO_TOKEN && t.value !in s.temps && s'.temps == s.temps[t.value := r])
  {
    if name != "" {
      var a := LockTemp(r, now, SlashClean(name));
      ReachOne(s, a);
      NextTokenIsNew(s.table.gen);
    }
  }

  /** The name is claimed, and what was claimed before still is. */
  lemma TempClaims(s: System, r: Request, now: int, name: string)
    requires Consistent(s) && TempTaken(s, r, now, name).1.Ok?
    ensures var s' := TempTaken(s, r, now, name).0;
            Claims(s', r, name) && forall other | HasClaim(s, r, other) :: HasClaim(s', r, other)
  {
    TempTakes(s, r, now, name);
    var (s', t) := TempTaken(s, r, now, name);
    if name != "" {
      assert GoodTemp(s', t.value);
      CreateStep(s, now, SlashClean(name), true, LockProtocol.INFINITE, "");
      assert s'.temps[t.value] == r && s'.table.locks[t.value].root == SlashClean(name);
      var a := LockTemp(r, now, SlashClean(name));
      forall other | HasClaim(s, r, other) ensures HasClaim(Act(s, a), r, other) {
        ClaimPersists(s, a, r, other);
      }
    }
  }

  /** Giving the token back leaves the request the temporary locks it had besides. */
  lemma GivesBack(s: System, r: Request, now: int, token: Token)
    requires Consistent(s) && token in Own(s, r)
    ensures var s' := Act(s, UnlockTemp(r, now, token));
            Reaches(s, [UnlockTemp(r, now, token)], s') && Own(s', r) == Own(s, r) - {token} && s'.holds == s.holds
  {
    ReachOne(s, UnlockTemp(r, now, token));
  }

  /** The others, and then a temporary lock. */
  lemma WaitAndTake(others: Others, n: nat, s: System, r: Request, now: int, name: string) returns (actions: seq<Action>)
    requires Consistent(s) && Harmless(others, r)
    ensures var (s', t) := TempTaken(Meanwhile(others, n, s), r, now, name);
            && Reaches(s, actions, s')
            && (r in s'.holds <==> r in s.holds) && (r in s.holds ==> s'.holds[r] == s.holds[r])
            && (t.Ok? && name == "" ==> t.value == NO_TOKEN)
            && (t.Err? || name == "" ==> Own(s', r) == Own(s, r))
            && (t.Ok? && name != "" ==> t.value != NO_TOKEN && t.value !in Own(s, r) && Own(s', r) == Own(s, r) + {t.value})
            && (t.Ok? ==> Claims(s', r, name) && forall other | HasClaim(s, r, other) :: HasClaim(s', r, other))
  {
    hide Consistent, HasClaim, Meanwhile, Harmless;
    ReachOthers(others, n, s, r);
    var s0 := Meanwhile(others, n, s);
    TempTakes(s0, r, now, name);
    var (s', t) := TempTaken(s0, r, now, name);
    ReachThen(s, others(n, s), s0, TempAction(r, now, name), s');
    actions := others(n, s) + TempAction(r, now, name);
    if t.Ok? {
      TempClaims(s0, r, now, name);
    }
  }

  /** Without an If header: both names are claimed at the end, or the request has what it had. */
  lemma TempLocksClaim(others: Others, s: System, r: Request, now: int, src: string, dst: string) returns (actions: seq<Action>)
    requires Consistent(s) && Harmless(others, r)
    ensures var (s', o) := TempLocksAmong(others, s, r, now, src, dst);
            && Reaches(s, actions, s')
            && (o.Ok? ==> Claims(s', r, src) && Claims(s', r, dst))
            && (o.Err? ==> OwnSame(s, s', r))
  {
    hide Consistent, HasClaim, TempTaken;
    actions := WaitAndTake(others, 0, s, r, now, src);
    var (s1, r1) := TempTaken(Meanwhile(others, 0, s), r, now, src);
    if r1.Ok? {
      var more := WaitAndTake(others, 1, s1, r, now, dst);
      var (s2, r2) := TempTaken(Meanwhile(others, 1, s1), r, now, dst);
      ReachThen(s, actions, s1, more, s2);
      actions := actions + more;
      if r2.Err? && r1.value != NO_TOKEN {
        more := WaitAndGiveBack(others, s2, r, now, r1.value);
        ReachThen(s, actions, s2, more, Act(Meanwhile(others, 2, s2), UnlockTemp(r, now, r1.value)));
        actions := actions + more;
      }
    }
  }

  lemma WaitAndGiveBack(others: Others, s: System, r: Request, now: int, token: Token) returns (actions: seq<Action>)
    requires Consistent(s) && Harmless(others, r) && token in Own(s, r)
    ensures var s' := Act(Meanwhile(others, 2, s), UnlockTemp(r, now, token));
            && Reaches(s, actions, s') && Own(s', r) == Own(s, r) - {token}
            && (r in s'.holds <==> r in s.holds) && (r in s.holds ==> s'.holds[r] == s.holds[r])
  {
    ReachOthers(others, 2, s, r);
    var s0 := Meanwhile(others, 2, s);
    GivesBack(s0, r, now, token);
    ReachThen(s, others(2, s), s0, [UnlockTemp(r, now, token)], Act(s0, UnlockTemp(r, now, token)));
    actions := others(2, s) + [UnlockTemp(r, now, token)];
  }

  // ---------- With one ----------

  function ListsAmong(others: Others, s: System, r: Request, clock: nat -> int, i: nat, lists: seq<IfList>, src: string, dst: string, resolve: string -> Target): (System, Outcome, string)
    requires i <= |lists|
    decreases |lists| - i
  {
    if i == |lists| then (s, Refused(PRECONDITION_FAILED), "")
    else
      match TargetOf(lists[i], src, resolve)
      case Skip => ListsAmong(others, s, r, clock, i + 1, lists, src, dst, resolve)
      case Fail(status) => (s, Refused(status), "")
      case At(path) =>
        var s0 := Meanwhile(others, i, s);
        var s1 := Act(s0, ConfirmFor(r, clock(i), Cleaned(path), Cleaned(dst), lists[i].conditions));
        var c := Confirm(s0.table, clock(i), Cleaned(path), Cleaned(dst), lists[i].conditions).1;
        if c.Ok? then (s1, Confirmed(c.value), path)
        else ListsAmong(others, s1, r, clock, i + 1, lists, src, dst, resolve)
  }

  /** The request presents only tokens that LOCK has returned. */
  predicate Honest(s: System, lists: seq<IfList>) {
    forall l, c | l in lists && c in l.conditions :: c.token == NO_TOKEN || c.token in s.issued
  }

  /** A list of the header stands for the path. */
  predicate Stands(lists: seq<IfList>, src: string, resolve: string -> Target, path: string) {
    exists l :: l in lists && TargetOf(l, src, resolve) == At(path)
  }

  /** The request holds locks for exactly these two names. */
  predicate HoldsFor(s: System, r: Request, path: string, dst: string) {
    r in s.holds && s.holds[r].name0 == Cleaned(path) && s.holds[r].name1 == Cleaned(dst)
  }

  /** The others, and then a call of Confirm for one list. */
  lemma WaitAndConfirm(others: Others, n: nat, s: System, r: Request, now: int, lists: seq<IfList>, l: IfList, path: string, dst: string) returns (actions: seq<Action>)
    requires Consistent(s) && Harmless(others, r) && r !in s.holds && Honest(s, lists) && l in lists
    ensures var s0 := Meanwhile(others, n, s);
            var s' := Act(s0, ConfirmFor(r, now, Cleaned(path), Cleaned(dst), l.conditions));
            && Reaches(s, actions, s') && Own(s', r) == Own(s, r) && Honest(s', lists)
            && (if Confirm(s0.table, now, Cleaned(path), Cleaned(dst), l.conditions).1.Ok? then HoldsFor(s', r, path, dst) else r !in s'.holds)
  {
    ReachOthers(others, n, s, r);
    var s0 := Meanwhile(others, n, s);
    var a := ConfirmFor(r, now, Cleaned(path), Cleaned(dst), l.conditions);
    assert Allowed(s0, a) by {
      assert forall j | 0 <= j < |l.conditions| :: l.conditions[j] in l.conditions;
    }
    ReachOne(s0, a);
    ReachThen(s, others(n, s), s0, [a], Act(s0, a));
    actions := others(n, s) + [a];
  }

  /** With an If header: the request holds locks for the destination and for the path that some
      list stands for; or it has what it had. */
  lemma {:induction false} ListsClaim(others: Others, s: System, r: Request, clock: nat -> int, i: nat, lists: seq<IfList>, src: string, dst: string, resolve: string -> Target)
      returns (actions: seq<Action>)
    requires i <= |lists| && Consistent(s) && Harmless(others, r) && Honest(s, lists) && r !in s.holds
    ensures var (s', o, path) := ListsAmong(others, s, r, clock, i, lists, src, dst, resolve);
            && Reaches(s, actions, s') && Own(s', r) == Own(s, r) && !o.Temporary?
            && (o.Confirmed? ==> HoldsFor(s', r, path, dst) && Stands(lists, src, resolve, path))
            && (o.Refused? ==> r !in s'.holds)
    decreases |lists| - i
  {
    actions := [];
    if i < |lists| {
      match TargetOf(lists[i], src, resolve)
      case Skip => actions := ListsClaim(others, s, r, clock, i + 1, lists, src, dst, resolve);
      case Fail(_) =>
      case At(p) =>
        assert lists[i] in lists;
        actions := WaitAndConfirm(others, i, s, r, clock(i), lists, lists[i], p, dst);
        var s0 := Meanwhile(others, i, s);
        var s1 := Act(s0, ConfirmFor(r, clock(i), Cleaned(p), Cleaned(dst), lists[i].conditions));
        if Confirm(s0.table, clock(i), Cleaned(p), Cleaned(dst), lists[i].conditions).1.Err? {
          var more := ListsClaim(others, s1, r, clock, i + 1, lists, src, dst, resolve);
          ReachThen(s, actions, s1, more, ListsAmong(others, s1, r, clock, i + 1, lists, src, dst, resolve).0);
          actions := actions + more;
        }
    }
  }

  // ---------- confirmLocks ----------

  function HeaderLists(header: string): Option<seq<IfList>> {
    ParseLexemes(Lexemes(TrimSpace(header)))
  }

  function ConfirmLocksAmong(others: Others, s: System, r: Request, clock: nat -> int, header: string, src: string, dst: string, resolve: string -> Target): (System, Outcome, string) {
    if header == "" then
      var (s', o) := TempLocksAmong(others, s, r, clock(0), src, dst);
      (s', if o.Ok? then Temporary(o.value) else Refused(LOCKED), src)
    else
      match HeaderLists(header)
      case None => (s, Refused(BAD_REQUEST), "")
      case Some(lists) => ListsAmong(others, s, r, clock, 0, lists, src, dst, resolve)
  }

  /** When nobody else acts, it is what the handler does. */
  lemma AloneIsHandler(others: Others, s: System, r: Request, clock: nat -> int, header: string, src: string, dst: string, resolve: string -> Target)
    requires forall n, s' {:trigger others(n, s')} :: others(n, s') == []
    ensures var (s', o, _) := ConfirmLocksAmong(others, s, r, clock, header, src, dst, resolve);
            (s'.table, o) == LocksConfirmed(s.table, clock, header, src, dst, resolve)
  {
    if header == "" {
      TempLocksAlone(others, s, r, clock(0), src, dst);
    } else if HeaderLists(header).Some? {
      ListsAlone(others, s, r, clock, 0, HeaderLists(header).value, src, dst, resolve);
    }
  }

  lemma TempTakenTable(s: System, r: Request, now: int, name: string)
    ensures TempTaken(s, r, now, name).0.table == TempLock(s.table, now, name).0
  {
    if name != "" {
      var a := LockTemp(r, now, SlashClean(name));
      assert ActAll(s, [a]) == ActAll(Act(s, a), []) by {
        assert [a][1..] == [];
      }
    }
  }

  lemma TempLocksAlone(others: Others, s: System, r: Request, now: int, src: string, dst: string)
    requires forall n, s' {:trigger others(n, s')} :: others(n, s') == []
    ensures var (s', o) := TempLocksAmong(others, s, r, now, src, dst);
            (s'.table, o) == TempLocks(s.table, now, src, dst)
  {
    hide TempLock;
    TempTakenTable(s, r, now, src);
    var s1 := TempTaken(s, r, now, src).0;
    TempTakenTable(s1, r, now, dst);
  }

  lemma {:induction false} ListsAlone(others: Others, s: System, r: Request, clock: nat -> int, i: nat, lists: seq<IfList>, src: string, dst: string, resolve: string -> Target)
    requires i <= |lists| && forall n, s' {:trigger others(n, s')} :: others(n, s') == []
    ensures var (s', o, _) := ListsAmong(others, s, r, clock, i, lists, src, dst, resolve);
            (s'.table, o) == TryLists(s.table, clock, i, lists, src, dst, resolve)
    decreases |lists| - i
  {
    if i < |lists| {
      match TargetOf(lists[i], src, resolve)
      case Skip => ListsAlone(others, s, r, clock, i + 1, lists, src, dst, resolve);
      case Fail(_) =>
      case At(p) =>
        var s1 := Act(s, ConfirmFor(r, clock(i), Cleaned(p), Cleaned(dst), lists[i].conditions));
        ListsAlone(others, s1, r, clock, i + 1, lists, src, dst, resolve);
    }
  }

  /** confirmLocks, for an honest request among others: an allowed run. A request without If
      header that passes has claimed both its names; one with a header has claimed the
      destination and the path that a list of the header stands for; one that is refused has
      what it had. Since no allowed run lets two requests claim one resource, requests that
      have passed exclude each other there. */
  lemma ConfirmLocksClaims(others: Others, s: System, r: Request, clock: nat -> int, header: string, src: string, dst: string, resolve: string -> Target)
      returns (actions: seq<Action>)
    requires Consistent(s) && Harmless(others, r) && r !in s.holds
    requires HeaderLists(header).Some? ==> Honest(s, HeaderLists(header).value)
    ensures var (s', o, path) := ConfirmLocksAmong(others, s, r, clock, header, src, dst, resolve);
            && Reaches(s, actions, s')
            && (o.Temporary? ==> Claims(s', r, src) && Claims(s', r, dst))
            && (o.Confirmed? ==>
                && header != "" && HeaderLists(header).Some? && Stands(HeaderLists(header).value, src, resolve, path)
                && HoldsFor(s', r, path, dst) && Claims(s', r, path) && Claims(s', r, dst))
            && (o.Refused? ==> OwnSame(s, s', r))
  {
    actions := [];
    if header == "" {
      actions := TempLocksClaim(others, s, r, clock(0), src, dst);
    } else if HeaderLists(header).Some? {
      actions := ListsClaim(others, s, r, clock, 0, HeaderLists(header).value, src, dst, resolve);
    }
  }

  /** When the header is confirmed, the request has claimed its own source exactly when the list
      stands for that path, or the destination is that path. */
  lemma SourceClaimedExactly(others: Others, s: System, r: Request, clock: nat -> int, header: string, src: string, dst: string, resolve: string -> Target)
    requires Consistent(s) && Harmless(others, r) && r !in s.holds && Own(s, r) == {} && src != ""
    requires HeaderLists(header).Some? ==> Honest(s, HeaderLists(header).value)
    requires ConfirmLocksAmong(others, s, r, clock, header, src, dst, resolve).1.Confirmed?
    ensures var (s', _, path) := ConfirmLocksAmong(others, s, r, clock, header, src, dst, resolve);
            Claims(s', r, src) <==> Cleaned(path) == Cleaned(src) || Cleaned(dst) == Cleaned(src)
  {
    var (s', _, path) := ConfirmLocksAmong(others, s, r, clock, header, src, dst, resolve);
    var actions := ListsClaim(others, s, r, clock, 0, HeaderLists(header).value, src, dst, resolve);
    forall k | k in s'.temps ensures s'.temps[k] != r {
      assert k !in Own(s', r);
    }
  }

  /** If the list is confirmed, it is for the source of the request. */
  predicate IsForSource(l: IfList, src: string, resolve: string -> Target) {
    match TargetOf(l, src, resolve)
    case At(path) => Cleaned(path) == Cleaned(src)
    case _ => true
  }

  /** What can be seen before the call: if every list of the header is for the source, or the
      destination is the source, a confirmed header has claimed it. */
  lemma HeaderClaimsSource(others: Others, s: System, r: Request, clock: nat -> int, header: string, src: string, dst: string, resolve: string -> Target)
    requires Consistent(s) && Harmless(others, r) && r !in s.holds
    requires HeaderLists(header).Some? ==> Honest(s, HeaderLists(header).value)
    requires Cleaned(dst) == Cleaned(src) || (HeaderLists(header).Some? ==> forall l | l in HeaderLists(header).value :: IsForSource(l, src, resolve))
    requires ConfirmLocksAmong(others, s, r, clock, header, src, dst, resolve).1.Confirmed?
    ensures Claims(ConfirmLocksAmong(others, s, r, clock, header, src, dst, resolve).0, r, src)
  {
    var actions := ConfirmLocksClaims(others, s, r, clock, header, src, dst, resolve);
  }

  /** A header without tags always claims the source. */
  lemma UntaggedClaimsSource(others: Others, s: System, r: Request, clock: nat -> int, header: string, src: string, dst: string, resolve: string -> Target)
    requires Consistent(s) && Harmless(others, r) && r !in s.holds
    requires HeaderLists(header).Some? ==> Honest(s, HeaderLists(header).value) && forall l | l in HeaderLists(header).value :: l.resourceTag == ""
    requires ConfirmLocksAmong(others, s, r, clock, header, src, dst, resolve).1.Confirmed?
    ensures Claims(ConfirmLocksAmong(others, s, r, clock, header, src, dst, resolve).0, r, src)
  {
    hide Consistent, Harmless, ConfirmLocksAmong, Claims, HeaderLists;
    HeaderClaimsSource(others, s, r, clock, header, src, dst, resolve);
  }
}
