/** The path index and the parent tree, when operations do not overlap: what it means that
    they agree, which operations keep that, and exactly when. */
module StoreTree {
  import opened Paths
  import opened Store

  ghost predicate Indexed(st: State, p: Path, id: Id) {
    p in st.ref.entries && st.ref.entries[p] == id
  }

  /** Following names and parent ids from the entry up to the root spells the path. */
  predicate Spells(table: map<Id, Entry>, id: Id, p: Path)
    decreases |p|
  {
    && id in table
    && if p == [] then table[id].parentId == ROOT_PARENT && table[id].name == ROOT_NAME
       else table[id].name == Last(p) && Spells(table, table[id].parentId, Parent(p))
  }

  /** The entry at an indexed path other than the root hangs under the entry of the parent
      path, which is a directory. */
  ghost predicate Hangs(st: State, p: Path) {
    var idx, table := st.ref.entries, st.table;
    && p in idx && idx[p] in table && table[idx[p]].id == idx[p]
    && if p == [] then table[idx[p]].parentId == ROOT_PARENT && table[idx[p]].name == ROOT_NAME
       else
         && Parent(p) in idx && idx[Parent(p)] in table && table[idx[Parent(p)]].kind.Dir?
         && table[idx[p]].parentId == idx[Parent(p)]
         && table[idx[p]].name == Last(p)
  }

  /** Index and tree agree. */
  ghost predicate Agrees(st: State) {
    && [] in st.ref.entries && ROOT_PARENT !in st.table
    && (forall p {:trigger Hangs(st, p)} | p in st.ref.entries :: Hangs(st, p))
    && (forall p, q, id | Indexed(st, p, id) && Indexed(st, q, id) :: p == q)
    && (forall id | id in st.table :: exists p :: Indexed(st, p, id))
  }

  predicate IsDir(st: State, id: Id) {
    id in st.table && st.table[id].kind.Dir?
  }

  // ---------- What agreement means ----------

  /** A path is indexed with an id exactly when the tree spells it from that id. */
  lemma {:induction false} PathIsTreePath(st: State, p: Path, id: Id)
    requires Agrees(st)
    ensures Indexed(st, p, id) <==> Spells(st.table, id, p)
    decreases |p|
  {
    if Indexed(st, p, id) {
      assert Hangs(st, p);
      if p != [] {
        PathIsTreePath(st, Parent(p), st.table[id].parentId);
      }
    }
    if Spells(st.table, id, p) {
      var q :| Indexed(st, q, id);
      assert Hangs(st, q);
      if p != [] {
        PathIsTreePath(st, Parent(p), st.table[id].parentId);
        assert Hangs(st, Parent(p));
        assert q != [] ==> Indexed(st, Parent(q), st.table[id].parentId);
        assert p == Parent(p) + [Last(p)];
        assert q != [] ==> q == Parent(q) + [Last(q)];
      }
    }
  }

  lemma InitialAgrees(rootId: Id, now: int)
    requires rootId != ROOT_PARENT
    ensures Agrees(Initial(rootId, now))
  {
    var st := Initial(rootId, now);
    assert Hangs(st, []);
    assert Indexed(st, [], rootId);
  }

  // ---------- Adding and updating ----------

  /** A new child keeps index and tree in agreement exactly when its parent is a directory. */
  lemma AddExact(st: State, path: Path, entry: Entry)
    requires Agrees(st) && path != [] && path !in st.ref.entries && Parent(path) in st.ref.entries
    requires entry.id !in st.table && entry.id != ROOT_PARENT
    requires entry.parentId == st.ref.entries[Parent(path)] && entry.name == Last(path)
    ensures var st' := CommitAdd(st, st.ref, entry, path).value;
            Agrees(st') <==> IsDir(st, entry.parentId)
  {
    var st' := CommitAdd(st, st.ref, entry, path).value;
    assert Hangs(st, Parent(path));
    if Agrees(st') {
      assert Hangs(st', path);
    }
    if IsDir(st, entry.parentId) {
      AddKeeps(st, path, entry);
    }
  }

  lemma AddKeeps(st: State, path: Path, entry: Entry)
    requires Agrees(st) && path != [] && path !in st.ref.entries && Parent(path) in st.ref.entries
    requires entry.id !in st.table && entry.id != ROOT_PARENT
    requires entry.parentId == st.ref.entries[Parent(path)] && entry.name == Last(path) && IsDir(st, entry.parentId)
    ensures Agrees(CommitAdd(st, st.ref, entry, path).value)
  {
    var st' := CommitAdd(st, st.ref, entry, path).value;
    forall p | p in st'.ref.entries ensures Hangs(st', p) {
      assert p != path ==> Hangs(st, p);
    }
    forall p, q, x | Indexed(st', p, x) && Indexed(st', q, x) ensures p == q {
      assert p != path ==> Hangs(st, p) && Indexed(st, p, x);
      assert q != path ==> Hangs(st, q) && Indexed(st, q, x);
    }
    forall x | x in st'.table ensures exists p :: Indexed(st', p, x) {
      if x == entry.id {
        assert Indexed(st', path, x);
      } else {
        var p :| Indexed(st, p, x);
        assert Indexed(st', p, x);
      }
    }
  }

  /** Where a new entry fits: the path is free, and its parent is the directory the entry names. */
  predicate AddDomain(st: State, path: Path, entry: Entry)
    requires path != []
  {
    && path !in st.ref.entries && Parent(path) in st.ref.entries
    && st.ref.entries[Parent(path)] == entry.parentId && IsDir(st, entry.parentId)
  }

  /** An entry made from an earlier reading keeps index and tree in agreement exactly when it
      still fits. */
  lemma StaleAddExact(st: State, path: Path, entry: Entry)
    requires Agrees(st) && path != [] && entry.id !in st.table && entry.id != ROOT_PARENT && entry.name == Last(path)
    ensures Agrees(CommitAdd(st, st.ref, entry, path).value) <==> AddDomain(st, path, entry)
  {
    var st' := CommitAdd(st, st.ref, entry, path).value;
    if path in st.ref.entries {
      OverwrittenIsLost(st, path, entry);
    } else {
      if AddDomain(st, path, entry) {
        AddKeeps(st, path, entry);
      }
      if Agrees(st') {
        NewHangs(st, path, entry);
      }
    }
  }

  lemma NewHangs(st: State, path: Path, entry: Entry)
    requires Agrees(st) && path != [] && path !in st.ref.entries && entry.id !in st.table
    requires Agrees(CommitAdd(st, st.ref, entry, path).value)
    ensures AddDomain(st, path, entry)
  {
    assert Hangs(CommitAdd(st, st.ref, entry, path).value, path);
    assert Parent(path) != path;
    assert Hangs(st, Parent(path));
  }

  /** The entry that had the path is left without one. */
  lemma OverwrittenIsLost(st: State, path: Path, entry: Entry)
    requires Agrees(st) && path in st.ref.entries && entry.id !in st.table
    ensures !Agrees(CommitAdd(st, st.ref, entry, path).value)
  {
    var st' := CommitAdd(st, st.ref, entry, path).value;
    var lost := st.ref.entries[path];
    assert Hangs(st, path) && Indexed(st, path, lost);
    forall p ensures !Indexed(st', p, lost) {
      assert Indexed(st', p, lost) && p != path ==> Indexed(st, p, lost);
    }
    assert lost in st'.table;
  }

  lemma UpdateKeeps(st: State, entry: Entry)
    requires Agrees(st) && CommitUpdate(st, entry).Ok?
    ensures Agrees(CommitUpdate(st, entry).value)
  {
    var st' := CommitUpdate(st, entry).value;
    forall p | p in st'.ref.entries ensures Hangs(st', p) {
      assert Hangs(st, p);
    }
    forall p, q, x | Indexed(st', p, x) && Indexed(st', q, x) ensures p == q {
      assert Indexed(st, p, x) && Indexed(st, q, x);
    }
    forall x | x in st'.table ensures exists p :: Indexed(st', p, x) {
      var p :| Indexed(st, p, x);
      assert Indexed(st', p, x);
    }
  }

  // ---------- Removing ----------

  /** The ids of the subtree are the ones that go. */
  lemma RemovedExactly(st: State, path: Path, ids: seq<Id>)
    requires Agrees(st) && path != [] && path in st.ref.entries && RemovedIds(st.ref.entries, path, ids)
    ensures var st' := RemoveAll(st, path, ids).value;
            && (forall p, id :: Indexed(st', p, id) <==> Indexed(st, p, id) && !Within(p, path))
            && (forall p, id | Indexed(st', p, id) :: id in st'.table && st'.table[id] == st.table[id])
            && (forall id | id in st'.table :: id in st.table && id !in ids)
  {
    var st' := RemoveAll(st, path, ids).value;
    forall p, id | Indexed(st, p, id) && !Within(p, path) ensures id !in ids && id in st.table {
      assert Hangs(st, p);
      if id in ids {
        var q :| q in st.ref.entries && Within(q, path) && st.ref.entries[q] == id;
        assert Indexed(st, q, id);
      }
    }
    forall p, id ensures Indexed(st', p, id) <==> Indexed(st, p, id) && !Within(p, path) {
    }
  }

  /** RemoveAll takes a subtree out of both tables, and nothing else. */
  lemma RemoveKeeps(st: State, path: Path, ids: seq<Id>)
    requires Agrees(st) && path != [] && path in st.ref.entries && RemovedIds(st.ref.entries, path, ids)
    ensures var st' := RemoveAll(st, path, ids).value;
            && Agrees(st')
            && (forall p, id :: Indexed(st', p, id) <==> Indexed(st, p, id) && !Within(p, path))
            && (forall id :: id in st'.table <==> exists p :: Indexed(st', p, id))
            && (forall id | id in st'.table :: st'.table[id] == st.table[id])
  {
    var st' := RemoveAll(st, path, ids).value;
    RemovedExactly(st, path, ids);
    forall p | p in st'.ref.entries ensures Hangs(st', p) {
      RemainsHung(st, st', path, p);
    }
    forall p, q, x | Indexed(st', p, x) && Indexed(st', q, x) ensures p == q {
      assert Indexed(st, p, x) && Indexed(st, q, x);
    }
    forall x | x in st'.table ensures exists p :: Indexed(st', p, x) {
      var p :| Indexed(st, p, x);
      assert Indexed(st', p, x);
    }
    assert Hangs(st, []) && Indexed(st, [], st.ref.entries[[]]) && Indexed(st', [], st.ref.entries[[]]);
  }

  lemma RemainsHung(st: State, st': State, path: Path, p: Path)
    requires Agrees(st) && p in st'.ref.entries && path != []
    requires forall q, id :: Indexed(st', q, id) <==> Indexed(st, q, id) && !Within(q, path)
    requires forall q, id | Indexed(st', q, id) ::
               id in st'.table && id in st.table && st'.table[id] == st.table[id]
    ensures Hangs(st', p)
  {
    var id := st'.ref.entries[p];
    assert Indexed(st', p, id) && Indexed(st, p, id) && Hangs(st, p);
    if p != [] {
      var up := st.ref.entries[Parent(p)];
      assert Indexed(st, Parent(p), up) && !Within(Parent(p), path) && Indexed(st', Parent(p), up);
    }
  }

  // ---------- Renaming ----------

  lemma RebaseParent(p: Path, from: Path, to: Path)
    requires Below(p, from)
    ensures Rebase(p, from, to) != [] && Parent(Rebase(p, from, to)) == Rebase(Parent(p), from, to)
    ensures Last(Rebase(p, from, to)) == Last(p)
  {
  }

  /** `m` is `base` with the visited keys below `from` moved below `to`. */
  ghost predicate MovedSome(base: Index, m: Index, visited: set<Path>, from: Path, to: Path) {
    forall p :: MovedAt(base, m, visited, from, to, p)
  }

  ghost predicate MovedAt(base: Index, m: Index, visited: set<Path>, from: Path, to: Path, p: Path) {
    if Below(p, to) then
      var q := Rebase(p, to, from);
      (p in m <==> q in visited && q in base) && (p in m ==> m[p] == base[q])
    else
      (p in m <==> p in base && !(Below(p, from) && p in visited)) && (p in m ==> m[p] == base[p])
  }

  lemma MoveOne(base: Index, m: Index, visited: set<Path>, k: Path, from: Path, to: Path)
    requires Apart(from, to) && MovedSome(base, m, visited, from, to)
    ensures MovedSome(base, MoveKey(m, k, from, to), visited + {k}, from, to)
  {
    var m' := MoveKey(m, k, from, to);
    assert MovedAt(base, m, visited, from, to, k);
    forall p ensures MovedAt(base, m', visited + {k}, from, to, p) {
      assert MovedAt(base, m, visited, from, to, p);
      if Below(k, from) {
        RebaseBack(k, from, to);
      }
      if Below(p, to) {
        RebaseBack(p, to, from);
      }
    }
  }

  lemma {:induction false} MoveAll(base: Index, m: Index, visited: set<Path>, order: seq<Path>, from: Path, to: Path)
    requires Apart(from, to) && MovedSome(base, m, visited, from, to)
    ensures MovedSome(base, MoveKeys(m, order, from, to), visited + (set k | k in order), from, to)
    decreases |order|
  {
    if order == [] {
      assert visited + (set k | k in order) == visited;
    } else {
      MoveOne(base, m, visited, order[0], from, to);
      MoveAll(base, MoveKey(m, order[0], from, to), visited + {order[0]}, order[1..], from, to);
      assert visited + {order[0]} + (set k | k in order[1..]) == visited + set k | k in order;
    }
  }

  /** Where the entry that is now at p was before the rename. */
  function Before(p: Path, from: Path, to: Path): Path {
    if Within(p, to) then Rebase(p, to, from) else p
  }

  /** The new index has the old subtree at the new place, and is otherwise the same. */
  ghost predicate IsRenamed(idx: Index, idx': Index, from: Path, to: Path) {
    forall p :: RenamedAt(idx, idx', from, to, p)
  }

  ghost predicate RenamedAt(idx: Index, idx': Index, from: Path, to: Path, p: Path) {
    var q := Before(p, from, to);
    && (p in idx' <==> q in idx && (Within(p, to) || !Within(p, from)))
    && (p in idx' ==> idx'[p] == idx[q])
  }

  /** Whatever order the iteration takes, the index that Rename writes is the renamed one. */
  lemma RenamedExactly(st: State, from: Path, to: Path, order: seq<Path>)
    requires Agrees(st) && from in st.ref.entries && from != [] && to != []
    requires Apart(from, to) && to !in st.ref.entries
    requires Complete(order, st.ref.entries, from, to)
    ensures var isDir := IsDir(st, st.ref.entries[from]);
            IsRenamed(st.ref.entries, Renamed(st.ref.entries, from, to, isDir, order), from, to)
  {
    var idx := st.ref.entries;
    assert Hangs(st, from);
    var isDir := st.table[idx[from]].kind.Dir?;
    var base := idx[to := idx[from]] - {from};
    var result := Renamed(idx, from, to, isDir, order);
    forall p | p in idx ensures !Within(p, to) && (Below(p, from) ==> isDir) {
      NothingBelow(st, p, to);
      if Below(p, from) {
        BelowADirectory(st, p, from);
      }
    }
    assert MovedSome(base, base, {}, from, to) by {
      forall p ensures MovedAt(base, base, {}, from, to, p) {
      }
    }
    MoveAll(base, base, {}, order, from, to);
    assert Rebase(to, to, from) == from;
    forall p ensures RenamedAt(idx, result, from, to, p) {
      assert MovedAt(base, base, {}, from, to, p);
      if isDir {
        assert MovedAt(base, result, {} + (set k | k in order), from, to, p);
      }
      if Within(p, to) {
        var q := Rebase(p, to, from);
        RebaseBack(p, to, from);
        assert q in idx ==> q in order;
        assert p != to ==> p !in base;
        assert isDir && p != to ==> (p in result <==> q in base);
      } else {
        assert p in idx ==> p in order;
        assert p in base <==> p in idx && p != from;
      }
    }
  }

  /** Nothing is indexed below a path that is not indexed. */
  lemma {:induction false} NothingBelow(st: State, p: Path, q: Path)
    requires Agrees(st) && p in st.ref.entries && q !in st.ref.entries
    ensures !Within(p, q)
    decreases |p|
  {
    assert Within([], q) ==> q == [];
    if p != [] {
      assert Within(p, q) && p != q ==> Within(Parent(p), q);
      assert Hangs(st, p);
      NothingBelow(st, Parent(p), q);
    }
  }

  lemma {:induction false} BelowADirectory(st: State, p: Path, q: Path)
    requires Agrees(st) && p in st.ref.entries && Below(p, q)
    ensures q in st.ref.entries && IsDir(st, st.ref.entries[q])
    decreases |p|
  {
    assert Hangs(st, p);
    if Parent(p) != q {
      BelowADirectory(st, Parent(p), q);
    }
  }

  /** The transaction of a rename, when it goes through. */
  function AfterRename(st: State, from: Path, to: Path, order: seq<Path>): State
    requires CheckRename(st.ref, from, to).Ok? && st.ref.entries[from] in st.table
  {
    var id := st.ref.entries[from];
    var was := st.table[id];
    State(
      st.table[id := was.(name := Last(to), parentId := st.ref.entries[Parent(to)], version := was.version + 1)],
      Reference(Renamed(st.ref.entries, from, to, was.kind.Dir?, order), st.ref.version + 1))
  }

  lemma RenameIsAfterRename(st: State, from: Path, to: Path, order: seq<Path>)
    requires Agrees(st)
    ensures Rename(st, from, to, order).Ok? <==> CheckRename(st.ref, from, to).Ok?
    ensures CheckRename(st.ref, from, to).Ok? ==> st.ref.entries[from] in st.table && Rename(st, from, to, order).value == AfterRename(st, from, to, order)
  {
    assert from in st.ref.entries ==> Hangs(st, from);
  }

  /** In its domain Rename carries the whole subtree to the new place and nothing else, and
      index and tree still agree. */
  lemma RenameKeeps(st: State, from: Path, to: Path, order: seq<Path>)
    requires Agrees(st) && CheckRename(st.ref, from, to).Ok? && st.ref.entries[from] in st.table
    requires to !in st.ref.entries && !Within(to, from) && IsDir(st, st.ref.entries[Parent(to)])
    requires Complete(order, st.ref.entries, from, to)
    ensures IsRenamed(st.ref.entries, AfterRename(st, from, to, order).ref.entries, from, to)
    ensures Agrees(AfterRename(st, from, to, order))
  {
    var idx, id := st.ref.entries, st.ref.entries[from];
    var st' := AfterRename(st, from, to, order);
    NothingBelow(st, from, to);
    RenamedExactly(st, from, to, order);
    assert Hangs(st, from);
    forall p | p in st'.ref.entries ensures Hangs(st', p) {
      RenamedHangs(st, st', from, to, p);
    }
    forall p, q, x | Indexed(st', p, x) && Indexed(st', q, x) ensures p == q {
      assert RenamedAt(idx, st'.ref.entries, from, to, p) && RenamedAt(idx, st'.ref.entries, from, to, q);
      assert Indexed(st, Before(p, from, to), x) && Indexed(st, Before(q, from, to), x);
      BeforeInjective(p, q, from, to);
    }
    forall x | x in st'.table ensures exists p :: Indexed(st', p, x) {
      var q :| Indexed(st, q, x);
      var p := if Within(q, from) then Rebase(q, from, to) else q;
      if Within(q, from) {
        RebaseBack(q, from, to);
      } else {
        NothingBelow(st, q, to);
      }
      assert RenamedAt(idx, st'.ref.entries, from, to, p);
      assert Indexed(st', p, x);
    }
    assert RenamedAt(idx, st'.ref.entries, from, to, []);
  }

  lemma BeforeInjective(p: Path, q: Path, from: Path, to: Path)
    requires Before(p, from, to) == Before(q, from, to)
    requires (Within(p, to) || !Within(p, from)) && (Within(q, to) || !Within(q, from))
    ensures p == q
  {
    if Within(p, to) {
      RebaseBack(p, to, from);
    }
    if Within(q, to) {
      RebaseBack(q, to, from);
    }
  }

  lemma RenamedHangs(st: State, st': State, from: Path, to: Path, p: Path)
    requires Agrees(st) && CheckRename(st.ref, from, to).Ok? && Apart(from, to) && IsDir(st, st.ref.entries[Parent(to)])
    requires IsRenamed(st.ref.entries, st'.ref.entries, from, to) && p in st'.ref.entries
    requires var id := st.ref.entries[from];
             && id in st.table
             && st'.table == st.table[id := st.table[id].(name := Last(to), parentId := st.ref.entries[Parent(to)], version := st.table[id].version + 1)]
    ensures Hangs(st', p)
  {
    var idx, q := st.ref.entries, Before(p, from, to);
    assert RenamedAt(idx, st'.ref.entries, from, to, p);
    assert Hangs(st, q);
    assert Indexed(st, q, idx[q]) && Indexed(st, from, idx[from]);
    if p == to {
      assert Rebase(to, to, from) == from;
      assert !Within(Parent(to), from);
      assert RenamedAt(idx, st'.ref.entries, from, to, Parent(to));
      assert Hangs(st, Parent(to));
    } else if Within(p, to) {
      assert |q| > |from|;
      RebaseParent(p, to, from);
      RebaseBack(Parent(p), to, from);
      assert RenamedAt(idx, st'.ref.entries, from, to, Parent(p));
    } else if p != [] {
      assert q != from && !Within(Parent(p), from) && !Within(Parent(p), to);
      assert RenamedAt(idx, st'.ref.entries, from, to, Parent(p));
    }
  }

  // ---------- Exactly when Rename keeps the agreement ----------

  /** What a caller can check before the call: the target is not there, it does not lie in the
      subtree that moves, and it goes under a directory. */
  predicate RenameDomain(st: State, from: Path, to: Path)
    requires CheckRename(st.ref, from, to).Ok?
  {
    to !in st.ref.entries && !Within(to, from) && IsDir(st, st.ref.entries[Parent(to)])
  }

  lemma {:induction false} MoveKeysValues(m: Index, order: seq<Path>, from: Path, to: Path)
    ensures MoveKeys(m, order, from, to).Values <= m.Values
    ensures from != [] ==> ([] in m ==> to == [] || ([] in MoveKeys(m, order, from, to) && MoveKeys(m, order, from, to)[[]] == m[[]]))
    decreases |order|
  {
    if order != [] {
      var m' := MoveKey(m, order[0], from, to);
      forall v | v in m'.Values ensures v in m.Values {
        var p :| p in m' && m'[p] == v;
        assert m[if p in m && m[p] == v then p else order[0]] == v;
      }
      MoveKeysValues(m', order[1..], from, to);
    }
  }

  /** Over an existing target the entry there stays in the table without a path. */
  lemma RenameOver(st: State, from: Path, to: Path, order: seq<Path>)
    requires Agrees(st) && CheckRename(st.ref, from, to).Ok? && st.ref.entries[from] in st.table
    requires to in st.ref.entries
    ensures !Agrees(AfterRename(st, from, to, order))
  {
    var idx := st.ref.entries;
    var st' := AfterRename(st, from, to, order);
    assert Hangs(st, to) && Hangs(st, from);
    var base := idx[to := idx[from]] - {from};
    forall p | p in base ensures base[p] != idx[to] {
      assert Indexed(st, to, idx[to]) && Indexed(st, from, idx[from]);
      assert p in idx ==> Indexed(st, p, idx[p]);
    }
    assert idx[to] !in base.Values;
    MoveKeysValues(base, order, from, to);
    assert idx[to] in st'.table;
    forall p ensures !Indexed(st', p, idx[to]) {
      assert p in st'.ref.entries ==> st'.ref.entries[p] in st'.ref.entries.Values;
    }
  }

  /** Into its own subtree the directory would have to lie below itself. */
  lemma RenameInside(st: State, from: Path, to: Path, order: seq<Path>)
    requires Agrees(st) && CheckRename(st.ref, from, to).Ok? && st.ref.entries[from] in st.table
    requires Below(to, from)
    ensures !Agrees(AfterRename(st, from, to, order))
  {
    var idx, id := st.ref.entries, st.ref.entries[from];
    var st' := AfterRename(st, from, to, order);
    if Agrees(st') {
      assert Hangs(st, from) && id in st'.table;
      var p :| Indexed(st', p, id);
      assert Hangs(st', p);
      RootStays(st, from, to, order);
      assert Hangs(st, []);
      assert Indexed(st, [], idx[[]]) && Indexed(st, from, id);
      var r := Climb(st, st', from, Parent(to), Parent(p));
    }
  }

  lemma RootStays(st: State, from: Path, to: Path, order: seq<Path>)
    requires Agrees(st) && CheckRename(st.ref, from, to).Ok? && st.ref.entries[from] in st.table
    ensures [] in AfterRename(st, from, to, order).ref.entries
    ensures AfterRename(st, from, to, order).ref.entries[[]] == st.ref.entries[[]]
  {
    MoveKeysValues(st.ref.entries[to := st.ref.entries[from]] - {from}, order, from, to);
  }

  /** Climbing from the place of an old descendant of `from` leads to the place of `from`. */
  lemma {:induction false} Climb(st: State, st': State, from: Path, q: Path, r: Path) returns (top: Path)
    requires Agrees(st) && Agrees(st') && from in st.ref.entries && from != []
    requires forall x | x in st.table && x != st.ref.entries[from] :: x in st'.table && st'.table[x] == st.table[x]
    requires st.ref.entries[[]] == st'.ref.entries[[]]
    requires q in st.ref.entries && Within(q, from) && Indexed(st', r, st.ref.entries[q])
    ensures Indexed(st', top, st.ref.entries[from]) && |top| <= |r|
    decreases |q|
  {
    if q == from {
      top := r;
    } else {
      assert Hangs(st, q) && Hangs(st', r);
      assert Indexed(st, q, st.ref.entries[q]) && Indexed(st, from, st.ref.entries[from]) && Indexed(st, [], st.ref.entries[[]]);
      top := Climb(st, st', from, Parent(q), Parent(r));
    }
  }

  /** Under a file the entry's parent is not a directory. */
  lemma RenameUnderFile(st: State, from: Path, to: Path, order: seq<Path>)
    requires Agrees(st) && CheckRename(st.ref, from, to).Ok? && st.ref.entries[from] in st.table
    requires !IsDir(st, st.ref.entries[Parent(to)])
    ensures !Agrees(AfterRename(st, from, to, order))
  {
    var id := st.ref.entries[from];
    var st' := AfterRename(st, from, to, order);
    RootStays(st, from, to, order);
    assert Hangs(st, Parent(to));
    assert Indexed(st, [], st.ref.entries[[]]) && Indexed(st, from, id) && id in st'.table;
    forall p | Indexed(st', p, id) ensures !Hangs(st', p) {
    }
  }

  /** A rename that goes through keeps index and tree in agreement exactly in its domain. */
  lemma RenameExact(st: State, from: Path, to: Path, order: seq<Path>)
    requires Agrees(st) && Rename(st, from, to, order).Ok? && Complete(order, st.ref.entries, from, to)
    ensures Agrees(Rename(st, from, to, order).value) <==> RenameDomain(st, from, to)
  {
    RenameIsAfterRename(st, from, to, order);
    if to in st.ref.entries {
      RenameOver(st, from, to, order);
    } else if Within(to, from) {
      assert to != from;
      RenameInside(st, from, to, order);
    } else if !IsDir(st, st.ref.entries[Parent(to)]) {
      RenameUnderFile(st, from, to, order);
    } else {
      RenameKeeps(st, from, to, order);
    }
  }

  // ---------- Runs ----------

  datatype Op =
    | OpMkdir(path: Path, id: Id, now: int)
    | OpCreate(path: Path, id: Id, size: nat, now: int)
    | OpPatch(path: Path, deadProps: map<string, string>)
    | OpRemoveAll(path: Path, ids: seq<Id>)
    | OpRename(from: Path, to: Path, order: seq<Path>)

  function Do(st: State, op: Op): Result<State> {
    match op
    case OpMkdir(path, id, now) => Mkdir(st, path, id, now)
    case OpCreate(path, id, size, now) => Create(st, path, id, size, now)
    case OpPatch(path, deadProps) => Patch(st, path, deadProps)
    case OpRemoveAll(path, ids) => RemoveAll(st, path, ids)
    case OpRename(from, to, order) => Rename(st, from, to, order)
  }

  function After(st: State, op: Op): State {
    var r := Do(st, op);
    if r.Ok? then r.value else st
  }

  function RunOps(st: State, ops: seq<Op>): State
    decreases |ops|
  {
    if ops == [] then st else RunOps(After(st, ops[0]), ops[1..])
  }

  /** A new uuid, and children only under directories; a rename in its domain. */
  ghost predicate InDomain(st: State, op: Op) {
    match op
    case OpMkdir(path, id, _) => FreshChild(st, path, id)
    case OpCreate(path, id, _, _) => FreshChild(st, path, id)
    case OpPatch(_, _) => true
    case OpRemoveAll(path, ids) => RemovedIds(st.ref.entries, path, ids)
    case OpRename(from, to, order) =>
      Complete(order, st.ref.entries, from, to) && (CheckRename(st.ref, from, to).Ok? ==> RenameDomain(st, from, to))
  }

  ghost predicate FreshChild(st: State, path: Path, id: Id) {
    && id !in st.table && id != ROOT_PARENT
    && (path != [] && Parent(path) in st.ref.entries ==> IsDir(st, st.ref.entries[Parent(path)]))
  }

  ghost predicate RunInDomain(st: State, ops: seq<Op>)
    decreases |ops|
  {
    ops != [] ==> InDomain(st, ops[0]) && RunInDomain(After(st, ops[0]), ops[1..])
  }

  lemma OpKeeps(st: State, op: Op)
    requires Agrees(st) && InDomain(st, op)
    ensures Agrees(After(st, op))
  {
    if Do(st, op).Ok? {
      match op
      case OpMkdir(path, id, now) => AddExact(st, path, NewEntry(id, st.ref.entries[Parent(path)], path, Dir, 0, now));
      case OpCreate(path, id, size, now) =>
        if path in st.ref.entries {
          UpdateKeeps(st, st.table[st.ref.entries[path]].(size := size, modified := now));
        } else {
          AddExact(st, path, NewEntry(id, st.ref.entries[Parent(path)], path, File, size, now));
        }
      case OpPatch(path, deadProps) => UpdateKeeps(st, st.table[st.ref.entries[path]].(deadProps := deadProps));
      case OpRemoveAll(path, ids) => RemoveKeeps(st, path, ids);
      case OpRename(from, to, order) => RenameExact(st, from, to, order);
    }
  }

  /** After any run in the domain that starts from what Init writes, a path is indexed with an
      id exactly when the tree spells it, and the table holds exactly the indexed ids. */
  lemma {:induction false} RunAgrees(st: State, ops: seq<Op>, p: Path, id: Id)
    requires Agrees(st) && RunInDomain(st, ops)
    ensures var st' := RunOps(st, ops);
            && (Indexed(st', p, id) <==> Spells(st'.table, id, p))
            && (id in st'.table <==> exists q :: Indexed(st', q, id))
    decreases |ops|
  {
    if ops == [] {
      PathIsTreePath(st, p, id);
      if q :| Indexed(st, q, id) {
        assert Hangs(st, q);
      }
    } else {
      OpKeeps(st, ops[0]);
      RunAgrees(After(st, ops[0]), ops[1..], p, id);
    }
  }
}
