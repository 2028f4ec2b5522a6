/** Requests on any number of servers, interleaved read by read and commit by commit. What a
    request has read may be out of date when it commits; the version conditions decide. */
module StoreProtocol {
  import opened Paths
  import opened Store
  import StoreTree

  type Request = nat

  /** What one commit does to the index. */
  datatype Change =
    | Adds(path: Path, id: Id)
    | Deletes(path: Path)
    | Moves(from: Path, to: Path, isDir: bool, order: seq<Path>)

  function Apply(idx: Index, c: Change): Index {
    match c
    case Adds(path, id) => idx[path := id]
    case Deletes(path) => Pruned(idx, path)
    case Moves(from, to, isDir, order) => if from in idx then Renamed(idx, from, to, isDir, order) else idx
  }

  datatype Update = NewContents(size: nat, modified: int) | NewProps(deadProps: map<string, string>)

  function Updated(e: Entry, u: Update): Entry {
    match u
    case NewContents(size, modified) => e.(size := size, modified := modified)
    case NewProps(deadProps) => e.(deadProps := deadProps)
  }

  /** How far a request has got, with what it has read so far. */
  datatype Pending =
    | WillAdd(entry: Entry, path: Path)
    | AddReady(entry: Entry, path: Path, ref: Reference)
    | DeleteReady(ref: Reference, path: Path, ids: seq<Id>)
    | WillRename(ref: Reference, from: Path, to: Path)
    | RenameReady(ref: Reference, from: Path, to: Path, base: Entry, order: seq<Path>)
    | WillUpdate(id: Id, update: Update)
    | UpdateReady(base: Entry, update: Update)

  /** `used` holds the uuids ever made, `gone` the ids of deleted entries. */
  datatype World = World(st: State, pending: map<Request, Pending>, used: set<Id>, gone: set<Id>)

  datatype Step =
    | BeginMkdir(request: Request, path: Path, id: Id, now: int)
    | BeginCreate(request: Request, path: Path, id: Id, size: nat, now: int)
    | BeginRemove(request: Request, path: Path, ids: seq<Id>)
    | BeginRename(request: Request, from: Path, to: Path)
    | BeginPatch(request: Request, path: Path, deadProps: map<string, string>)
    | ReadReference(request: Request)
    | ReadEntry(request: Request, order: seq<Path>)
    | Commit(request: Request)
    | Abort(request: Request)

  /** A request begins once, with a uuid nobody else has; RemoveAll finds the ids to delete. */
  ghost predicate Enabled(w: World, s: Step) {
    match s
    case BeginMkdir(r, _, id, _) => r !in w.pending && id !in w.used && id != ROOT_PARENT
    case BeginCreate(r, _, id, _, _) => r !in w.pending && id !in w.used && id != ROOT_PARENT
    case BeginRemove(r, path, ids) => r !in w.pending && RemovedIds(w.st.ref.entries, path, ids)
    case BeginRename(r, _, _) => r !in w.pending
    case BeginPatch(r, _, _) => r !in w.pending
    case ReadReference(r) => r in w.pending && w.pending[r].WillAdd?
    case ReadEntry(r, _) => r in w.pending && (w.pending[r].WillRename? || w.pending[r].WillUpdate?)
    case Commit(r) => r in w.pending && (w.pending[r].AddReady? || w.pending[r].DeleteReady? || w.pending[r].RenameReady? || w.pending[r].UpdateReady?)
    case Abort(r) => r in w.pending
  }

  function Waits(w: World, r: Request, p: Pending): World {
    w.(pending := w.pending[r := p])
  }

  function Drop(w: World, r: Request): World {
    w.(pending := w.pending - {r})
  }

  function RenamedEntry(base: Entry, to: Path, ref: Reference): Entry {
    if to != [] && Parent(to) in ref.entries then base.(name := Last(to), parentId := ref.entries[Parent(to)]) else base
  }

  function CommitOf(st: State, p: Pending): Result<State> {
    match p
    case AddReady(entry, path, ref) => CommitAdd(st, ref, entry, path)
    case DeleteReady(ref, path, ids) => CommitDelete(st, ids, ref.(entries := Pruned(ref.entries, path)))
    case RenameReady(ref, from, to, base, order) =>
      CommitRename(st, RenamedEntry(base, to, ref), ref.(entries := Apply(ref.entries, Moves(from, to, base.kind.Dir?, order))))
    case UpdateReady(base, update) => CommitUpdate(st, Updated(base, update))
    case _ => Err(ErrInvalid)
  }

  function Next(w: World, s: Step): World {
    match s
    case BeginMkdir(r, path, id, now) =>
      (match CheckMkdir(w.st.ref, path)
       case Err(_) => w
       case Ok(parentId) => Waits(w, r, WillAdd(NewEntry(id, parentId, path, Dir, 0, now), path)).(used := w.used + {id}))
    case BeginCreate(r, path, id, size, now) =>
      var idx := w.st.ref.entries;
      if path in idx then Waits(w, r, WillUpdate(idx[path], NewContents(size, now)))
      else if path == [] || Parent(path) !in idx then w
      else Waits(w, r, WillAdd(NewEntry(id, idx[Parent(path)], path, File, size, now), path)).(used := w.used + {id})
    case BeginRemove(r, path, ids) =>
      if path == [] || path !in w.st.ref.entries then w else Waits(w, r, DeleteReady(w.st.ref, path, ids))
    case BeginRename(r, from, to) =>
      if CheckRename(w.st.ref, from, to).Ok? then Waits(w, r, WillRename(w.st.ref, from, to)) else w
    case BeginPatch(r, path, deadProps) =>
      if path in w.st.ref.entries then Waits(w, r, WillUpdate(w.st.ref.entries[path], NewProps(deadProps))) else w
    case ReadReference(r) =>
      if r !in w.pending then w
      else
        (match w.pending[r]
         case WillAdd(entry, path) => Waits(w, r, AddReady(entry, path, w.st.ref))
         case _ => w)
    case ReadEntry(r, order) =>
      if r !in w.pending then w
      else
        (match w.pending[r]
         case WillRename(ref, from, to) =>
           if from in ref.entries && ref.entries[from] in w.st.table
           then Waits(w, r, RenameReady(ref, from, to, w.st.table[ref.entries[from]], order))
           else Drop(w, r)
         case WillUpdate(id, update) =>
           if id in w.st.table then Waits(w, r, UpdateReady(w.st.table[id], update)) else Drop(w, r)
         case _ => w)
    case Commit(r) =>
      if r !in w.pending then w
      else
        (match CommitOf(w.st, w.pending[r])
         case Err(_) => Drop(w, r)
         case Ok(st') => Drop(w, r).(st := st', gone := w.gone + (w.st.table.Keys - st'.table.Keys)))
    case Abort(r) => Drop(w, r)
  }

  function NextAll(w: World, steps: seq<Step>): World
    decreases |steps|
  {
    if steps == [] then w else NextAll(Next(w, steps[0]), steps[1..])
  }

  ghost predicate EnabledAll(w: World, steps: seq<Step>)
    decreases |steps|
  {
    steps != [] ==> Enabled(w, steps[0]) && EnabledAll(Next(w, steps[0]), steps[1..])
  }

  // ---------- One request alone ----------

  /** The request is over, and has done what the operation does, or nothing. */
  predicate Settles(w: World, w': World, op: Result<State>) {
    w'.pending == w.pending && w'.st == if op.Ok? then op.value else w.st
  }

  /** When nothing comes in between, the steps of a request are the operation as a whole. */
  lemma MkdirAlone(w: World, r: Request, path: Path, id: Id, now: int)
    requires r !in w.pending
    ensures Settles(w, Next(Next(Next(w, BeginMkdir(r, path, id, now)), ReadReference(r)), Commit(r)), Store.Mkdir(w.st, path, id, now))
  {
  }

  lemma CreateAlone(w: World, r: Request, path: Path, id: Id, size: nat, now: int)
    requires r !in w.pending
    ensures var w2 := Next(Next(w, BeginCreate(r, path, id, size, now)), ReadReference(r));
            Settles(w, Next(Next(w2, ReadEntry(r, [])), Commit(r)), Store.Create(w.st, path, id, size, now))
  {
  }

  lemma RemoveAlone(w: World, r: Request, path: Path, ids: seq<Id>)
    requires r !in w.pending
    ensures Settles(w, Next(Next(w, BeginRemove(r, path, ids)), Commit(r)), Store.RemoveAll(w.st, path, ids))
  {
  }

  lemma RenameAlone(w: World, r: Request, from: Path, to: Path, order: seq<Path>)
    requires r !in w.pending
    ensures Settles(w, Next(Next(Next(w, BeginRename(r, from, to)), ReadEntry(r, order)), Commit(r)), Store.Rename(w.st, from, to, order))
  {
  }

  lemma PatchAlone(w: World, r: Request, path: Path, deadProps: map<string, string>)
    requires r !in w.pending
    ensures Settles(w, Next(Next(Next(w, BeginPatch(r, path, deadProps)), ReadEntry(r, [])), Commit(r)), Store.Patch(w.st, path, deadProps))
  {
  }

  // ---------- What every interleaving keeps ----------

  ghost predicate Injective(idx: Index) {
    forall p, q | p in idx && q in idx && idx[p] == idx[q] :: p == q
  }

  /** Each id in the index has an entry, no two paths share an id, and "/" is the original root. */
  ghost predicate SafeStore(st: State, rootId: Id) {
    && (forall p | p in st.ref.entries :: st.ref.entries[p] in st.table)
    && Injective(st.ref.entries)
    && [] in st.ref.entries && st.ref.entries[[]] == rootId
    && (forall id | id in st.table :: st.table[id].id == id)
  }

  /** A reference that was read: an older version, or the current one as it is. */
  ghost predicate GoodRef(st: State, ref: Reference) {
    ref.version <= st.ref.version && (ref.version == st.ref.version ==> ref == st.ref)
  }

  /** An entry that was read: since deleted, or an older version, or the current one as it is. */
  ghost predicate GoodBase(w: World, base: Entry) {
    && (base.id in w.st.table || base.id in w.gone)
    && (base.id in w.st.table ==>
        base.version <= w.st.table[base.id].version && (base.version == w.st.table[base.id].version ==> base == w.st.table[base.id]))
  }

  /** A uuid that has not got into the tables yet. */
  ghost predicate GoodNew(w: World, entry: Entry, path: Path) {
    && entry.id in w.used && entry.id !in w.st.table && entry.id !in w.gone && entry.id != ROOT_PARENT
    && path != [] && entry.name == Last(path)
  }

  ghost predicate GoodRename(st: State, ref: Reference, from: Path, to: Path) {
    GoodRef(st, ref) && from != [] && to != [] && from in ref.entries && Parent(to) in ref.entries
  }

  ghost predicate GoodPending(w: World, p: Pending) {
    match p
    case WillAdd(entry, path) => GoodNew(w, entry, path)
    case AddReady(entry, path, ref) => GoodNew(w, entry, path) && GoodRef(w.st, ref)
    case DeleteReady(ref, path, ids) => GoodRef(w.st, ref) && path != [] && path in ref.entries && RemovedIds(ref.entries, path, ids)
    case WillRename(ref, from, to) => GoodRename(w.st, ref, from, to)
    case RenameReady(ref, from, to, base, order) => GoodRename(w.st, ref, from, to) && GoodBase(w, base) && base.id == ref.entries[from]
    case WillUpdate(_, _) => true
    case UpdateReady(base, _) => GoodBase(w, base)
  }

  predicate Adding(p: Pending) {
    p.WillAdd? || p.AddReady?
  }

  ghost predicate Safe(w: World, rootId: Id) {
    && SafeStore(w.st, rootId)
    && w.st.table.Keys <= w.used && w.gone <= w.used && w.gone !! w.st.table.Keys
    && (forall r {:trigger GoodPending(w, w.pending[r])} | r in w.pending :: GoodPending(w, w.pending[r]))
    && (forall r, r' | r in w.pending && r' in w.pending && r != r' && Adding(w.pending[r]) && Adding(w.pending[r']) ::
          w.pending[r].entry.id != w.pending[r'].entry.id)
  }

  lemma StartIsSafe(rootId: Id, now: int)
    ensures Safe(World(Initial(rootId, now), map[], {rootId}, {}), rootId)
  {
  }

  // ---------- Steps that only read ----------

  lemma WaitsIsSafe(w: World, r: Request, p: Pending, rootId: Id)
    requires Safe(w, rootId) && GoodPending(w, p)
    requires Adding(p) ==> forall q | q in w.pending && q != r && Adding(w.pending[q]) :: w.pending[q].entry.id != p.entry.id
    ensures Safe(Waits(w, r, p), rootId)
  {
    var w' := Waits(w, r, p);
    forall q | q in w'.pending ensures GoodPending(w', w'.pending[q]) {
      assert q != r ==> GoodPending(w, w.pending[q]);
    }
  }

  lemma DropIsSafe(w: World, r: Request, rootId: Id)
    requires Safe(w, rootId)
    ensures Safe(Drop(w, r), rootId)
  {
    var w' := Drop(w, r);
    forall q | q in w'.pending ensures GoodPending(w', w'.pending[q]) {
      assert GoodPending(w, w.pending[q]);
    }
  }

  lemma BeginAddIsSafe(w: World, r: Request, entry: Entry, path: Path, rootId: Id)
    requires Safe(w, rootId) && r !in w.pending && entry.id !in w.used && entry.id != ROOT_PARENT
    requires path != [] && entry.name == Last(path)
    ensures Safe(Waits(w, r, WillAdd(entry, path)).(used := w.used + {entry.id}), rootId)
  {
    var w1 := w.(used := w.used + {entry.id});
    forall q | q in w1.pending ensures GoodPending(w1, w1.pending[q]) {
      assert GoodPending(w, w.pending[q]);
    }
    forall q | q in w1.pending && Adding(w1.pending[q]) ensures w1.pending[q].entry.id != entry.id {
      assert GoodPending(w, w.pending[q]);
    }
    WaitsIsSafe(w1, r, WillAdd(entry, path), rootId);
  }

  /** What a request knows after it has read is true. */
  lemma ReadsGood(w: World, s: Step, rootId: Id)
    requires Safe(w, rootId) && Enabled(w, s) && !s.Commit? && !s.BeginMkdir? && s.request in Next(w, s).pending
    requires s.BeginCreate? ==> s.path in w.st.ref.entries
    ensures GoodPending(w, Next(w, s).pending[s.request])
  {
    assert s.request in w.pending ==> GoodPending(w, w.pending[s.request]);
  }

  lemma ReadKeepsSafe(w: World, s: Step, rootId: Id)
    requires Safe(w, rootId) && Enabled(w, s) && !s.Commit?
    ensures Safe(Next(w, s), rootId)
  {
    hide GoodPending, SafeStore;
    var r, w' := s.request, Next(w, s);
    match s
    case BeginMkdir(_, path, id, now) =>
      if w' != w {
        BeginAddIsSafe(w, r, w'.pending[r].entry, path, rootId);
      }
    case BeginCreate(_, path, id, size, now) =>
      if path in w.st.ref.entries {
        ReadsGood(w, s, rootId);
        WaitsIsSafe(w, r, w'.pending[r], rootId);
      } else if w' != w {
        BeginAddIsSafe(w, r, w'.pending[r].entry, path, rootId);
      }
    case Abort(_) => DropIsSafe(w, r, rootId);
    case Commit(_) =>
    case _ =>
      DropIsSafe(w, r, rootId);
      if r in w'.pending {
        ReadsGood(w, s, rootId);
        WaitsIsSafe(w, r, w'.pending[r], rootId);
      }
  }

  // ---------- Commits ----------

  lemma {:induction false} MoveKeysInjective(m: Index, order: seq<Path>, from: Path, to: Path)
    requires Injective(m)
    ensures Injective(MoveKeys(m, order, from, to))
    decreases |order|
  {
    if order != [] {
      MoveKeysInjective(MoveKey(m, order[0], from, to), order[1..], from, to);
    }
  }

  /** However the iteration goes, Rename's index has the same ids at most once each, and leaves "/" alone. */
  lemma RenamedIsSafe(idx: Index, from: Path, to: Path, isDir: bool, order: seq<Path>)
    requires Injective(idx) && from in idx && from != [] && to != []
    ensures var idx' := Renamed(idx, from, to, isDir, order);
            && Injective(idx') && idx'.Values <= idx.Values
            && ([] in idx ==> [] in idx' && idx'[[]] == idx[[]])
  {
    var base := idx[to := idx[from]] - {from};
    assert base.Values <= idx.Values by {
      forall v | v in base.Values ensures v in idx.Values {
        var p :| p in base && base[p] == v;
        assert idx[if p == to then from else p] == v;
      }
    }
    MoveKeysInjective(base, order, from, to);
    StoreTree.MoveKeysValues(base, order, from, to);
  }

  /** One commit, seen by a request that stays pending. */
  ghost predicate Advances(w: World, w': World) {
    && (w'.st.ref == w.st.ref || w'.st.ref.version == w.st.ref.version + 1)
    && w'.gone == w.gone + (w.st.table.Keys - w'.st.table.Keys)
    && (forall id | id in w.st.table && id in w'.st.table :: w'.st.table[id] == w.st.table[id] || w'.st.table[id].version == w.st.table[id].version + 1)
  }

  lemma CommitKeepsStore(w: World, r: Request, rootId: Id)
    requires Safe(w, rootId) && Enabled(w, Commit(r)) && CommitOf(w.st, w.pending[r]).Ok?
    ensures SafeStore(CommitOf(w.st, w.pending[r]).value, rootId)
  {
    hide RemovedIds, Pruned, Renamed, CheckRename;
    assert GoodPending(w, w.pending[r]);
    match w.pending[r]
    case AddReady(entry, path, ref) =>
    case DeleteReady(ref, path, ids) => DeleteIsSafe(w.st, ref, path, ids, rootId);
    case RenameReady(ref, from, to, base, order) => RenameIsSafe(w.st, ref, from, to, base, order, rootId);
    case UpdateReady(base, update) =>
  }

  lemma CommitAdvances(w: World, r: Request, rootId: Id)
    requires Safe(w, rootId) && Enabled(w, Commit(r)) && CommitOf(w.st, w.pending[r]).Ok?
    ensures Advances(w, Next(w, Commit(r)))
    ensures forall id | id in Next(w, Commit(r)).st.table && id !in w.st.table :: w.pending[r].AddReady? && id == w.pending[r].entry.id
  {
    assert GoodPending(w, w.pending[r]);
  }

  lemma DeleteIsSafe(st: State, ref: Reference, path: Path, ids: seq<Id>, rootId: Id)
    requires SafeStore(st, rootId) && ref == st.ref && path != [] && RemovedIds(ref.entries, path, ids)
    ensures SafeStore(CommitDelete(st, ids, ref.(entries := Pruned(ref.entries, path))).value, rootId)
  {
    var st' := CommitDelete(st, ids, ref.(entries := Pruned(ref.entries, path))).value;
    forall q | q in st'.ref.entries ensures st'.ref.entries[q] in st'.table {
    }
  }

  lemma RenameIsSafe(st: State, ref: Reference, from: Path, to: Path, base: Entry, order: seq<Path>, rootId: Id)
    requires SafeStore(st, rootId) && ref == st.ref && from != [] && to != [] && from in ref.entries && base.id in st.table
    requires CommitOf(st, RenameReady(ref, from, to, base, order)).Ok?
    ensures SafeStore(CommitOf(st, RenameReady(ref, from, to, base, order)).value, rootId)
  {
    var st' := CommitOf(st, RenameReady(ref, from, to, base, order)).value;
    RenamedIsSafe(ref.entries, from, to, base.kind.Dir?, order);
    forall q | q in st'.ref.entries ensures st'.ref.entries[q] in st'.table {
      assert st'.ref.entries[q] in st'.ref.entries.Values;
      var q' :| q' in st.ref.entries && st.ref.entries[q'] == st'.ref.entries[q];
    }
  }

  lemma CommitKeepsSafe(w: World, r: Request, rootId: Id)
    requires Safe(w, rootId) && Enabled(w, Commit(r))
    ensures Safe(Next(w, Commit(r)), rootId)
  {
    hide GoodPending, SafeStore;
    var w' := Next(w, Commit(r));
    forall q | q in w'.pending ensures GoodPending(w', w'.pending[q]) {
      OtherStaysGood(w, r, rootId, q);
    }
    if CommitOf(w.st, w.pending[r]).Ok? {
      CommitKeepsStore(w, r, rootId);
      NoneComesBack(w, r, rootId);
    }
  }

  /** What a commit adds has not been deleted before. */
  lemma NoneComesBack(w: World, r: Request, rootId: Id)
    requires Safe(w, rootId) && Enabled(w, Commit(r)) && CommitOf(w.st, w.pending[r]).Ok?
    ensures var w' := Next(w, Commit(r));
            w'.st.table.Keys <= w'.used && w'.gone <= w'.used && w'.gone !! w'.st.table.Keys
  {
    assert GoodPending(w, w.pending[r]);
    CommitAdvances(w, r, rootId);
  }

  /** A request that stays pending still knows what it knew. */
  lemma OtherStaysGood(w: World, r: Request, rootId: Id, q: Request)
    requires Safe(w, rootId) && Enabled(w, Commit(r)) && q in w.pending && q != r
    ensures GoodPending(Next(w, Commit(r)), w.pending[q])
  {
    hide SafeStore, CommitOf, Advances;
    assert GoodPending(w, w.pending[q]) && GoodPending(w, w.pending[r]);
    if CommitOf(w.st, w.pending[r]).Ok? {
      CommitAdvances(w, r, rootId);
      KnowsAsMuch(w, Next(w, Commit(r)), w.pending[q]);
    } else {
      assert Next(w, Commit(r)).st == w.st;
    }
  }

  lemma KnowsAsMuch(w: World, w': World, p: Pending)
    requires GoodPending(w, p) && Advances(w, w') && w'.used == w.used
    requires forall id | id in w'.st.table && id !in w.st.table :: id !in w.gone && (Adding(p) ==> id != p.entry.id)
    ensures GoodPending(w', p)
  {
  }

  /** Under every interleaving of requests after Init, the committed store is safe. */
  lemma {:induction false} InterleavingIsSafe(w: World, steps: seq<Step>, rootId: Id)
    requires Safe(w, rootId) && EnabledAll(w, steps)
    ensures Safe(NextAll(w, steps), rootId)
    decreases |steps|
  {
    if steps != [] {
      if steps[0].Commit? {
        CommitKeepsSafe(w, steps[0].request, rootId);
      } else {
        ReadKeepsSafe(w, steps[0], rootId);
      }
      InterleavingIsSafe(Next(w, steps[0]), steps[1..], rootId);
    }
  }

  // ---------- No lost updates ----------

  /** The change to the index that a commit makes, if it makes one. */
  function ChangeOf(p: Pending): seq<Change> {
    match p
    case AddReady(entry, path, _) => [Adds(path, entry.id)]
    case DeleteReady(_, path, _) => [Deletes(path)]
    case RenameReady(_, from, to, base, order) => [Moves(from, to, base.kind.Dir?, order)]
    case _ => []
  }

  function ApplyAll(idx: Index, cs: seq<Change>): Index
    decreases |cs|
  {
    if cs == [] then idx else ApplyAll(Apply(idx, cs[0]), cs[1..])
  }

  /** The entry a request has read and means to overwrite. */
  predicate Rewrites(p: Pending, was: Entry, now: Entry) {
    match p
    case UpdateReady(base, update) => was == base && now == Updated(base, update).(version := base.version + 1)
    case RenameReady(ref, _, to, base, _) => was == base && now == RenamedEntry(base, to, ref).(version := base.version + 1)
    case _ => false
  }

  /** A commit that goes through changes exactly the current index, by one step of the version,
      and overwrites an entry only for a writer that has read that very version of it. A new
      entry takes an id that no entry has ever had. */
  lemma CommitIsCurrent(w: World, r: Request, rootId: Id)
    requires Safe(w, rootId) && Enabled(w, Commit(r)) && CommitOf(w.st, w.pending[r]).Ok?
    ensures var p, st' := w.pending[r], CommitOf(w.st, w.pending[r]).value;
            && st'.ref == Reference(ApplyAll(w.st.ref.entries, ChangeOf(p)), w.st.ref.version + |ChangeOf(p)|)
            && (forall id | id in w.st.table && id in st'.table :: st'.table[id] == w.st.table[id] || Rewrites(p, w.st.table[id], st'.table[id]))
            && (forall id | id in st'.table && id !in w.st.table :: id !in w.gone)
            && (forall id | id in w.st.table && id !in st'.table :: p.DeleteReady? && exists q | q in w.st.ref.entries && Within(q, p.path) :: w.st.ref.entries[q] == id)
  {
    hide SafeStore, ApplyAll;
    CommitsChange(w, r, rootId);
    assert GoodPending(w, w.pending[r]);
  }

  lemma CommitsChange(w: World, r: Request, rootId: Id)
    requires Safe(w, rootId) && Enabled(w, Commit(r)) && CommitOf(w.st, w.pending[r]).Ok?
    ensures var p, st' := w.pending[r], CommitOf(w.st, w.pending[r]).value;
            st'.ref == Reference(ApplyAll(w.st.ref.entries, ChangeOf(p)), w.st.ref.version + |ChangeOf(p)|)
  {
    var p := w.pending[r];
    assert GoodPending(w, p);
    assert ChangeOf(p) != [] ==> ApplyAll(w.st.ref.entries, ChangeOf(p)) == Apply(w.st.ref.entries, ChangeOf(p)[0]);
  }

  function Committed(w: World, s: Step): seq<Change> {
    if s.Commit? && s.request in w.pending && CommitOf(w.st, w.pending[s.request]).Ok? then ChangeOf(w.pending[s.request]) else []
  }

  function Changes(w: World, steps: seq<Step>): seq<Change>
    decreases |steps|
  {
    if steps == [] then [] else Committed(w, steps[0]) + Changes(Next(w, steps[0]), steps[1..])
  }

  lemma StepIsCurrent(w: World, s: Step, rootId: Id)
    requires Safe(w, rootId) && Enabled(w, s)
    ensures Safe(Next(w, s), rootId)
    ensures Next(w, s).st.ref == Reference(ApplyAll(w.st.ref.entries, Committed(w, s)), w.st.ref.version + |Committed(w, s)|)
  {
    if s.Commit? {
      CommitKeepsSafe(w, s.request, rootId);
      if CommitOf(w.st, w.pending[s.request]).Ok? {
        CommitIsCurrent(w, s.request, rootId);
      }
    } else {
      ReadKeepsSafe(w, s, rootId);
    }
  }

  lemma {:induction false} ApplyAllAppend(idx: Index, cs: seq<Change>, ds: seq<Change>)
    ensures ApplyAll(idx, cs + ds) == ApplyAll(ApplyAll(idx, cs), ds)
    decreases |cs|
  {
    if cs == [] {
      assert cs + ds == ds;
    } else {
      assert (cs + ds)[1..] == cs[1..] + ds;
      ApplyAllAppend(Apply(idx, cs[0]), cs[1..], ds);
    }
  }

  /** Over any run the index is the one at the start with the committed changes applied one
      after the other, and the version counts them. */
  lemma {:induction false} NoChangeIsLost(w: World, steps: seq<Step>, rootId: Id)
    requires Safe(w, rootId) && EnabledAll(w, steps)
    ensures NextAll(w, steps).st.ref == Reference(ApplyAll(w.st.ref.entries, Changes(w, steps)), w.st.ref.version + |Changes(w, steps)|)
    decreases |steps|
  {
    if steps != [] {
      StepIsCurrent(w, steps[0], rootId);
      NoChangeIsLost(Next(w, steps[0]), steps[1..], rootId);
      ApplyAllAppend(w.st.ref.entries, Committed(w, steps[0]), Changes(Next(w, steps[0]), steps[1..]));
    }
  }

  /** A deleted entry is never brought back. */
  lemma {:induction false} DeletedStaysDeleted(w: World, steps: seq<Step>, rootId: Id, id: Id)
    requires Safe(w, rootId) && EnabledAll(w, steps) && id in w.gone
    ensures id in NextAll(w, steps).gone && id !in NextAll(w, steps).st.table
    decreases |steps|
  {
    if steps != [] {
      if steps[0].Commit? {
        CommitKeepsSafe(w, steps[0].request, rootId);
      } else {
        ReadKeepsSafe(w, steps[0], rootId);
      }
      DeletedStaysDeleted(Next(w, steps[0]), steps[1..], rootId, id);
    }
  }

  // ---------- What does not survive interleaving ----------

  ghost predicate AllIndexed(st: State) {
    forall id | id in st.table :: exists p :: p in st.ref.entries && st.ref.entries[p] == id
  }

  /** AddEntry does not repeat the existence check. Its commit leaves every entry with a path
      exactly when the path is free at the time. */
  lemma AddKeepsAllIndexed(w: World, r: Request, rootId: Id)
    requires Safe(w, rootId) && AllIndexed(w.st) && Enabled(w, Commit(r))
    requires w.pending[r].AddReady? && CommitOf(w.st, w.pending[r]).Ok?
    ensures AllIndexed(CommitOf(w.st, w.pending[r]).value) <==> w.pending[r].path !in w.st.ref.entries
  {
    var entry, path := w.pending[r].entry, w.pending[r].path;
    assert GoodPending(w, w.pending[r]);
    var st' := CommitOf(w.st, w.pending[r]).value;
    assert st'.ref.entries == w.st.ref.entries[path := entry.id];
    if path in w.st.ref.entries {
      var lost := w.st.ref.entries[path];
      assert lost in st'.table && forall p | p in st'.ref.entries :: st'.ref.entries[p] != lost;
    } else {
      forall id | id in st'.table ensures exists p :: p in st'.ref.entries && st'.ref.entries[p] == id {
        if id == entry.id {
          assert st'.ref.entries[path] == id;
        } else {
          var p :| p in w.st.ref.entries && w.st.ref.entries[p] == id;
          assert st'.ref.entries[p] == id;
        }
      }
    }
  }

  /** Two requests that make the same directory, from the point where both have checked that
      it is not there: both commit, and the first entry is left without a path. */
  lemma TwoMkdirsLeaveAnOrphan()
    ensures var w0 := World(Initial("r", 0), map[], {"r"}, {});
            var w1 := Next(Next(w0, BeginMkdir(0, ["a"], "x", 1)), BeginMkdir(1, ["a"], "y", 2));
            var w2 := Next(Next(w1, ReadReference(0)), Commit(0));
            var w3 := Next(Next(w2, ReadReference(1)), Commit(1));
            !AllIndexed(w3.st)
  {
    hide Next;
    var w0 := World(Initial("r", 0), map[], {"r"}, {});
    var w1 := Next(Next(w0, BeginMkdir(0, ["a"], "x", 1)), BeginMkdir(1, ["a"], "y", 2));
    BothBegin(w0);
    FirstMkdir(w1);
    SecondMkdir(Next(Next(w1, ReadReference(0)), Commit(0)));
  }

  const X: Entry := NewEntry("x", "r", ["a"], Dir, 0, 1)
  const Y: Entry := NewEntry("y", "r", ["a"], Dir, 0, 2)

  lemma BothBegin(w0: World)
    requires w0 == World(Initial("r", 0), map[], {"r"}, {})
    ensures var w1 := Next(Next(w0, BeginMkdir(0, ["a"], "x", 1)), BeginMkdir(1, ["a"], "y", 2));
            w1.st == w0.st && w1.pending == map[0 := WillAdd(X, ["a"]), 1 := WillAdd(Y, ["a"])]
  {
    assert Parent(["a"]) == [];
  }

  lemma FirstMkdir(w1: World)
    requires w1.st == Initial("r", 0) && w1.pending == map[0 := WillAdd(X, ["a"]), 1 := WillAdd(Y, ["a"])]
    ensures var w2 := Next(Next(w1, ReadReference(0)), Commit(0));
            && w2.pending == map[1 := WillAdd(Y, ["a"])] && "x" in w2.st.table
            && w2.st.ref == Reference(map[[] := "r", ["a"] := "x"], 2)
  {
  }

  lemma SecondMkdir(w2: World)
    requires w2.pending == map[1 := WillAdd(Y, ["a"])] && "x" in w2.st.table
    requires w2.st.ref.entries == map[[] := "r", ["a"] := "x"]
    ensures !AllIndexed(Next(Next(w2, ReadReference(1)), Commit(1)).st)
  {
    var w3 := Next(Next(w2, ReadReference(1)), Commit(1));
    assert w3.st.ref.entries == map[[] := "r", ["a"] := "y"] && "x" in w3.st.table;
  }
}
