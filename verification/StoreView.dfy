/** The file system that the two tables stand for: a tree of nodes with a kind, a size, a time and
    properties. What each operation does to it is said here without the tables, and what the
    server does on the tables is proved to be that. */
module StoreView {
  import opened Wrappers
  import opened Paths
  import opened Store
  import opened StoreTree
  import Walk
  import V = Server

  datatype Node = Node(kind: Kind, size: nat, modified: int, deadProps: map<string, string>)

  type Tree = map<Path, Node>

  function NodeOf(e: Entry): Node {
    Node(e.kind, e.size, e.modified, e.deadProps)
  }

  function Seen(st: State): Tree {
    map p | p in st.ref.entries && st.ref.entries[p] in st.table :: NodeOf(st.table[st.ref.entries[p]])
  }

  lemma SeenIsIndexed(st: State)
    requires Agrees(st)
    ensures [] in Seen(st) && forall p :: p in Seen(st) <==> p in st.ref.entries
    ensures forall p | p in Seen(st) :: st.ref.entries[p] in st.table && Seen(st)[p] == NodeOf(st.table[st.ref.entries[p]])
  {
    forall p | p in st.ref.entries ensures st.ref.entries[p] in st.table {
      assert Hangs(st, p);
    }
  }

  // ---------- A new entry ----------

  /** The entry has the id and the place in the tree, and nothing else in the tables has changed. */
  ghost predicate AddedAt(st: State, st': State, path: Path, id: Id)
    requires path != []
  {
    && id in st'.table && st'.table[id].id == id && st'.table[id].version == 1
    && Parent(path) in st.ref.entries
    && st'.table[id].parentId == st.ref.entries[Parent(path)] && st'.table[id].name == Last(path)
    && (forall k | k != id :: (k in st'.table <==> k in st.table) && (k in st.table ==> st'.table[k] == st.table[k]))
    && st'.ref.entries == st.ref.entries[path := id]
  }

  /** Mkdir makes an empty directory that is new in every respect, under which more can be made,
      exactly where nothing is and the parent is there. */
  lemma MkdirExactly(st: State, path: Path, id: Id, now: int)
    requires Agrees(st) && FreshChild(st, path, id)
    ensures var r := Store.Mkdir(st, path, id, now);
            && (r == Err(ErrExist) <==> path in st.ref.entries)
            && (r == Err(ErrNotExist) <==> path !in st.ref.entries && Parent(path) !in st.ref.entries)
            && (r.Ok? <==> path !in st.ref.entries && Parent(path) in st.ref.entries)
            && (r.Ok? ==>
                  && AddedAt(st, r.value, path, id)
                  && NodeOf(r.value.table[id]) == Node(Dir, 0, now, map[])
                  && forall c: Component, x | x !in r.value.table && x != ROOT_PARENT :: FreshChild(r.value, path + [c], x))
  {
    var r := Store.Mkdir(st, path, id, now);
    if r.Ok? {
      forall c: Component ensures Parent(path + [c]) == path {
      }
    }
  }

  /** Create makes a file of the given size without properties where nothing is and the parent is
      there; where something is, it gives it a size and a time and leaves the rest. */
  lemma CreateExactly(st: State, path: Path, id: Id, size: nat, now: int)
    requires Agrees(st) && FreshChild(st, path, id)
    ensures var r := Store.Create(st, path, id, size, now);
            && (r.Ok? <==> path in st.ref.entries || Parent(path) in st.ref.entries)
            && (r.Err? ==> r.error == ErrNotExist)
            && (path !in st.ref.entries && r.Ok? ==>
                  && AddedAt(st, r.value, path, id)
                  && NodeOf(r.value.table[id]) == Node(File, size, now, map[]))
            && (path in st.ref.entries ==>
                  && var k := st.ref.entries[path];
                  && k in st.table && k in r.value.table
                  && r.value.table[k].size == size && r.value.table[k].modified == now
                  && r.value.table[k] == st.table[k].(size := size, modified := now, version := r.value.table[k].version)
                  && (forall x | x != k :: (x in r.value.table <==> x in st.table) && (x in st.table ==> r.value.table[x] == st.table[x]))
                  && r.value.ref == st.ref)
  {
    if path in st.ref.entries {
      assert Hangs(st, path);
    }
  }

  /** A commit is refused with a conflict exactly when what it was made from has changed since: the
      reference for one that writes the index, and the entry for one that writes an entry, which
      must still be there. */
  lemma StaleIsRefused(st: State, ref: Reference, entry: Entry, path: Path, ids: seq<Id>)
    ensures var stale := ref.version != st.ref.version;
            var gone := entry.id !in st.table || st.table[entry.id].version != entry.version;
            && (stale <==> CommitAdd(st, ref, entry, path) == Err(ErrConflict)) && (!stale <==> CommitAdd(st, ref, entry, path).Ok?)
            && (stale <==> CommitDelete(st, ids, ref) == Err(ErrConflict)) && (!stale <==> CommitDelete(st, ids, ref).Ok?)
            && (gone <==> CommitUpdate(st, entry) == Err(ErrConflict)) && (!gone <==> CommitUpdate(st, entry).Ok?)
            && (gone || stale <==> CommitRename(st, entry, ref) == Err(ErrConflict)) && (!gone && !stale <==> CommitRename(st, entry, ref).Ok?)
  {
  }

  // ---------- The file system without tables ----------

  /** The error that the operation fails with; none if it goes through. */
  function Refusal(t: Tree, op: Op): Option<Error> {
    match op
    case OpMkdir(path, _, _) =>
      if path in t || path == [] then Some(ErrExist) else if Parent(path) !in t then Some(ErrNotExist) else None
    case OpCreate(path, _, _, _) => if path in t || (path != [] && Parent(path) in t) then None else Some(ErrNotExist)
    case OpPatch(path, _) => if path in t then None else Some(ErrNotExist)
    case OpRemoveAll(path, _) => if path == [] then Some(ErrInvalid) else if path in t then None else Some(ErrNotExist)
    case OpRename(from, to, _) =>
      if from == [] || to == [] then Some(ErrInvalid) else if from in t && Parent(to) in t then None else Some(ErrNotExist)
  }

  /** What is there afterwards, when the operation goes through. */
  ghost predicate Effect(t: Tree, op: Op, t': Tree) {
    match op
    case OpMkdir(path, _, now) => t' == t[path := Node(Dir, 0, now, map[])]
    case OpCreate(path, _, size, now) =>
      t' == t[path := if path in t then t[path].(size := size, modified := now) else Node(File, size, now, map[])]
    case OpPatch(path, deadProps) => path in t && t' == t[path := t[path].(deadProps := deadProps)]
    case OpRemoveAll(path, _) => t' == map q | q in t && !(path <= q) :: t[q]
    case OpRename(from, to, _) => forall q :: MovedAt(t, t', from, to, q)
  }

  /** At or below the new name is what was at the same place at or below the old one, where nothing
      is any more; everything else is as it was. */
  ghost predicate MovedAt(t: Tree, t': Tree, from: Path, to: Path, q: Path) {
    if to <= q then
      var o := from + q[|to|..];
      (q in t' <==> o in t) && (q in t' ==> t'[q] == t[o])
    else
      (q in t' <==> q in t && !(from <= q)) && (q in t' ==> t'[q] == t[q])
  }

  lemma AddedIsSeen(st: State, st': State, path: Path, id: Id)
    requires Agrees(st) && Agrees(st') && path != [] && id !in st.table && AddedAt(st, st', path, id)
    ensures Seen(st') == Seen(st)[path := NodeOf(st'.table[id])]
  {
    hide Agrees;
    SeenIsIndexed(st);
    SeenIsIndexed(st');
  }

  /** One entry has changed in its table, and nothing in the index. */
  lemma ChangedIsSeen(st: State, st': State, path: Path)
    requires Agrees(st) && Agrees(st') && path in st.ref.entries && st'.ref == st.ref
    requires var k := st.ref.entries[path];
             k in st'.table && forall x | x != k :: (x in st'.table <==> x in st.table) && (x in st.table ==> st'.table[x] == st.table[x])
    ensures path in Seen(st) && Seen(st') == Seen(st)[path := NodeOf(st'.table[st.ref.entries[path]])]
  {
    SeenIsIndexed(st);
    SeenIsIndexed(st');
    OtherPaths(st, path);
    AtOthers(st, st', path);
  }

  lemma AtOthers(st: State, st': State, path: Path)
    requires st'.ref == st.ref && path in st.ref.entries && st.ref.entries[path] in st'.table
    requires forall q | q in st.ref.entries && q != path :: st.ref.entries[q] != st.ref.entries[path]
    requires forall x | x != st.ref.entries[path] :: (x in st'.table <==> x in st.table) && (x in st.table ==> st'.table[x] == st.table[x])
    ensures Seen(st') == Seen(st)[path := NodeOf(st'.table[st.ref.entries[path]])]
  {
  }

  lemma OtherPaths(st: State, path: Path)
    requires Agrees(st) && path in st.ref.entries
    ensures forall q | q in st.ref.entries && q != path :: st.ref.entries[q] != st.ref.entries[path]
  {
    assert Indexed(st, path, st.ref.entries[path]);
    forall q | q in st.ref.entries && st.ref.entries[q] == st.ref.entries[path] ensures q == path {
      assert Indexed(st, q, st.ref.entries[path]);
    }
  }

  lemma MkdirSeen(st: State, path: Path, id: Id, now: int)
    requires Agrees(st) && FreshChild(st, path, id) && Store.Mkdir(st, path, id, now).Ok?
    ensures Effect(Seen(st), OpMkdir(path, id, now), Seen(Store.Mkdir(st, path, id, now).value))
  {
    hide Agrees, Store.Mkdir, Seen;
    MkdirExactly(st, path, id, now);
    OpKeeps(st, OpMkdir(path, id, now));
    SeenIsIndexed(st);
    AddedIsSeen(st, Store.Mkdir(st, path, id, now).value, path, id);
  }

  lemma CreateSeen(st: State, path: Path, id: Id, size: nat, now: int)
    requires Agrees(st) && FreshChild(st, path, id) && Store.Create(st, path, id, size, now).Ok?
    ensures Effect(Seen(st), OpCreate(path, id, size, now), Seen(Store.Create(st, path, id, size, now).value))
  {
    hide Agrees, Store.Create, Seen;
    CreateExactly(st, path, id, size, now);
    OpKeeps(st, OpCreate(path, id, size, now));
    SeenIsIndexed(st);
    var st' := Store.Create(st, path, id, size, now).value;
    if path in st.ref.entries {
      ChangedIsSeen(st, st', path);
    } else {
      AddedIsSeen(st, st', path, id);
    }
  }

  lemma PatchSeen(st: State, path: Path, deadProps: map<string, string>)
    requires Agrees(st) && path in st.ref.entries
    ensures var r := Store.Patch(st, path, deadProps); r.Ok? && Effect(Seen(st), OpPatch(path, deadProps), Seen(r.value))
  {
    hide Seen;
    assert Hangs(st, path);
    OpKeeps(st, OpPatch(path, deadProps));
    SeenIsIndexed(st);
    ChangedIsSeen(st, Store.Patch(st, path, deadProps).value, path);
  }

  lemma RemoveAllSeen(st: State, path: Path, ids: seq<Id>)
    requires Agrees(st) && RemovedIds(st.ref.entries, path, ids) && path != [] && path in st.ref.entries
    ensures var r := Store.RemoveAll(st, path, ids); r.Ok? && Effect(Seen(st), OpRemoveAll(path, ids), Seen(r.value))
  {
    hide Agrees;
    RemoveKeeps(st, path, ids);
    var st' := Store.RemoveAll(st, path, ids).value;
    SeenIsIndexed(st);
    SeenIsIndexed(st');
    RemovedSeen(st, st', path);
  }

  lemma RemovedSeen(st: State, st': State, path: Path)
    requires forall p, id :: Indexed(st', p, id) <==> Indexed(st, p, id) && !Within(p, path)
    requires forall id | id in st'.table :: id in st.table && st'.table[id] == st.table[id]
    requires forall p | p in st'.ref.entries :: st'.ref.entries[p] in st'.table
    requires forall p | p in st.ref.entries :: st.ref.entries[p] in st.table
    ensures Seen(st') == map q | q in Seen(st) && !(path <= q) :: Seen(st)[q]
  {
    forall q ensures q in Seen(st') <==> q in Seen(st) && !(path <= q) {
      if q in st.ref.entries && !(path <= q) {
        assert Indexed(st, q, st.ref.entries[q]) && Indexed(st', q, st.ref.entries[q]);
      }
      if q in st'.ref.entries {
        assert Indexed(st', q, st'.ref.entries[q]) && Indexed(st, q, st'.ref.entries[q]);
      }
    }
    forall q | q in Seen(st') ensures Seen(st')[q] == Seen(st)[q] {
      assert Indexed(st', q, st'.ref.entries[q]) && Indexed(st, q, st'.ref.entries[q]);
    }
  }

  lemma RenameSeen(st: State, from: Path, to: Path, order: seq<Path>)
    requires Agrees(st) && InDomain(st, OpRename(from, to, order)) && Store.Rename(st, from, to, order).Ok?
    ensures Effect(Seen(st), OpRename(from, to, order), Seen(Store.Rename(st, from, to, order).value))
  {
    hide Agrees, RenamedAt, Renamed, Rename;
    RenameIsAfterRename(st, from, to, order);
    assert st.ref.entries[from] in st.table;
    RenameKeeps(st, from, to, order);
    var st' := AfterRename(st, from, to, order);
    SeenIsIndexed(st);
    SeenIsIndexed(st');
    forall q ensures MovedAt(Seen(st), Seen(st'), from, to, q) {
      assert RenamedAt(st.ref.entries, st'.ref.entries, from, to, q);
      RenamedSeen(st, st', from, to, q);
    }
  }

  lemma RenamedSeen(st: State, st': State, from: Path, to: Path, q: Path)
    requires RenamedAt(st.ref.entries, st'.ref.entries, from, to, q)
    requires forall p | p in st'.ref.entries :: st'.ref.entries[p] in st'.table
    requires forall p | p in st.ref.entries :: st.ref.entries[p] in st.table
    requires forall x | x in st.table && x in st'.table :: NodeOf(st'.table[x]) == NodeOf(st.table[x])
    ensures MovedAt(Seen(st), Seen(st'), from, to, q)
  {
  }

  // ---------- Runs ----------

  /** Each operation is refused exactly as without the tables, or has the effect it has there. */
  lemma OpSeen(st: State, op: Op)
    requires Agrees(st) && InDomain(st, op)
    ensures Do(st, op).Err? <==> Refusal(Seen(st), op).Some?
    ensures Do(st, op).Err? ==> Refusal(Seen(st), op) == Some(Do(st, op).error) && After(st, op) == st
    ensures Do(st, op).Ok? ==> Effect(Seen(st), op, Seen(After(st, op)))
  {
    hide Agrees, Effect, Seen, Store.Mkdir, Store.Create, Store.Patch, Store.RemoveAll, Store.Rename;
    SeenIsIndexed(st);
    match op
    case OpMkdir(path, id, now) =>
      MkdirExactly(st, path, id, now);
      if Do(st, op).Ok? {
        MkdirSeen(st, path, id, now);
      }
    case OpCreate(path, id, size, now) =>
      CreateExactly(st, path, id, size, now);
      if Do(st, op).Ok? {
        CreateSeen(st, path, id, size, now);
      }
    case OpPatch(path, deadProps) =>
      PatchRefused(st, path, deadProps);
      if path in st.ref.entries {
        PatchSeen(st, path, deadProps);
      }
    case OpRemoveAll(path, ids) =>
      RemoveAllRefused(st, path, ids);
      if path != [] && path in st.ref.entries {
        RemoveAllSeen(st, path, ids);
      }
    case OpRename(from, to, order) =>
      RenameRefused(st, from, to, order);
      if Do(st, op).Ok? {
        RenameSeen(st, from, to, order);
      }
  }

  lemma PatchRefused(st: State, path: Path, deadProps: map<string, string>)
    ensures path !in st.ref.entries ==> Store.Patch(st, path, deadProps) == Err(ErrNotExist)
  {
  }

  lemma RemoveAllRefused(st: State, path: Path, ids: seq<Id>)
    ensures path == [] ==> Store.RemoveAll(st, path, ids) == Err(ErrInvalid)
    ensures path != [] && path !in st.ref.entries ==> Store.RemoveAll(st, path, ids) == Err(ErrNotExist)
  {
  }

  lemma RenameRefused(st: State, from: Path, to: Path, order: seq<Path>)
    requires Agrees(st)
    ensures Store.Rename(st, from, to, order) == Err(ErrInvalid) <==> from == [] || to == []
    ensures Store.Rename(st, from, to, order) == Err(ErrNotExist) <==> from != [] && to != [] && !(from in st.ref.entries && Parent(to) in st.ref.entries)
    ensures Store.Rename(st, from, to, order).Ok? <==> from != [] && to != [] && from in st.ref.entries && Parent(to) in st.ref.entries
  {
    RenameIsAfterRename(st, from, to, order);
  }

  /** The trees that the operations make of a tree, one after the other. */
  ghost predicate TreeRun(t: Tree, ops: seq<Op>, t': Tree)
    decreases |ops|
  {
    if ops == [] then t' == t
    else if Refusal(t, ops[0]).Some? then TreeRun(t, ops[1..], t')
    else exists u :: Effect(t, ops[0], u) && TreeRun(u, ops[1..], t')
  }

  lemma EffectUnique(t: Tree, op: Op, u: Tree, v: Tree)
    requires Effect(t, op, u) && Effect(t, op, v)
    ensures u == v
  {
    if op.OpRename? {
      forall q ensures (q in u <==> q in v) && (q in u ==> u[q] == v[q]) {
        assert MovedAt(t, u, op.from, op.to, q) && MovedAt(t, v, op.from, op.to, q);
      }
    }
  }

  /** Any run on the tables in the domain does to the tree that is seen what the operations do
      to a tree. */
  lemma {:induction false} RunSeen(st: State, ops: seq<Op>)
    requires Agrees(st) && RunInDomain(st, ops)
    ensures Agrees(RunOps(st, ops)) && TreeRun(Seen(st), ops, Seen(RunOps(st, ops)))
    decreases |ops|
  {
    if ops != [] {
      hide Agrees, InDomain, Do, Effect, Refusal, Seen;
      OpSeen(st, ops[0]);
      OpKeeps(st, ops[0]);
      RunSeen(After(st, ops[0]), ops[1..]);
    }
  }

  lemma InitialSeen(rootId: Id, now: int)
    ensures Seen(Initial(rootId, now)) == map[[] := Node(Dir, 0, now, map[])]
  {
  }

  // ---------- What Stat and Readdir answer ----------

  /** Stat answers with the name and the node of what is seen at the path, or that nothing is; and
      with an error of its own for a path whose entry has gone. */
  lemma StatSees(st: State, path: Path)
    ensures var r := if path in st.ref.entries then Store.GetEntry(st, st.ref.entries[path]) else Err(ErrNotExist);
            && (r == Err(ErrNotExist) <==> path !in st.ref.entries)
            && (r == Err(ErrNoSuchEntry) <==> path in st.ref.entries && path !in Seen(st))
            && (Agrees(st) && path !in Seen(st) ==> r == Err(ErrNotExist))
            && (Agrees(st) && path in Seen(st) ==> r.Ok? && NodeOf(r.value) == Seen(st)[path] && (path != [] ==> r.value.name == Last(path)))
  {
    if Agrees(st) && path in st.ref.entries {
      SeenIsIndexed(st);
      assert Hangs(st, path);
    }
  }

  /** What a listing tells of a node. */
  function Told(c: Component, n: Node): V.FileInfo {
    V.FileInfo(c, n.size, n.modified, n.kind.Dir?)
  }

  /** Reading the directory at a path answers with what is seen one below it. */
  lemma ReaddirSees(st: State, path: Path, infos: seq<V.FileInfo>)
    requires Agrees(st) && path in Seen(st)
    requires forall x :: x in infos <==>
               IsDir(st, st.ref.entries[path]) && exists k :: k in st.table && st.table[k].parentId == st.ref.entries[path] && V.InfoOf(st.table[k]) == x
    ensures forall x :: x in infos <==> exists c: Component :: path + [c] in Seen(st) && x == Told(c, Seen(st)[path + [c]])
  {
    SeenIsIndexed(st);
    forall x | x in infos ensures exists c: Component :: path + [c] in Seen(st) && x == Told(c, Seen(st)[path + [c]]) {
      var k :| k in st.table && st.table[k].parentId == st.ref.entries[path] && V.InfoOf(st.table[k]) == x;
      Walk.KeysAreIds(st);
      Walk.ChildHangs(st, path, st.table[k]);
      var c: Component := st.table[k].name;
      assert x == Told(c, Seen(st)[path + [c]]);
    }
    forall c: Component | path + [c] in Seen(st) ensures Told(c, Seen(st)[path + [c]]) in infos {
      ChildTold(st, path, c);
    }
  }

  lemma ChildTold(st: State, path: Path, c: Component)
    requires Agrees(st) && path + [c] in Seen(st)
    ensures path in st.ref.entries && IsDir(st, st.ref.entries[path])
    ensures exists k :: k in st.table && st.table[k].parentId == st.ref.entries[path] && V.InfoOf(st.table[k]) == Told(c, Seen(st)[path + [c]])
  {
    var q := path + [c];
    assert Hangs(st, q) && Parent(q) == path && Last(q) == c;
    var k := st.ref.entries[q];
    assert st.table[k].parentId == st.ref.entries[path] && V.InfoOf(st.table[k]) == Told(c, Seen(st)[q]);
  }
}
