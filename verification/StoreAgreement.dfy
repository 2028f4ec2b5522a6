/** Agreement of index and tree when requests interleave: it does not hold over every run, but
    it does over every run whose commits still fit the state they find. */
module StoreAgreement {
  import opened Paths
  import opened Store
  import opened StoreTree
  import opened StoreProtocol

  /** What the committed state must be like for the commit to fit it: an added entry has a free
      path under the directory it names, and a rename is in its domain. */
  ghost predicate Fits(st: State, p: Pending) {
    match p
    case AddReady(entry, path, _) => path != [] && AddDomain(st, path, entry)
    case RenameReady(_, from, to, _, _) => CheckRename(st.ref, from, to).Ok? && RenameDomain(st, from, to)
    case _ => true
  }

  /** The loop of a rename has produced every key. */
  ghost predicate LoopComplete(st: State, p: Pending) {
    p.RenameReady? ==> Complete(p.order, st.ref.entries, p.from, p.to)
  }

  /** A rename that commits is the rename of the current state. */
  lemma CommittedRename(w: World, r: Request, rootId: Id)
    requires Safe(w, rootId) && r in w.pending && w.pending[r].RenameReady? && CommitOf(w.st, w.pending[r]).Ok?
    ensures CommitOf(w.st, w.pending[r]) == Rename(w.st, w.pending[r].from, w.pending[r].to, w.pending[r].order)
  {
    assert GoodPending(w, w.pending[r]);
  }

  /** A removal that commits is the removal from the current state. */
  lemma CommittedRemove(w: World, r: Request, rootId: Id)
    requires Safe(w, rootId) && r in w.pending && w.pending[r].DeleteReady? && CommitOf(w.st, w.pending[r]).Ok?
    ensures var p := w.pending[r];
            && p.path != [] && p.path in w.st.ref.entries && RemovedIds(w.st.ref.entries, p.path, p.ids)
            && CommitOf(w.st, p) == RemoveAll(w.st, p.path, p.ids)
  {
    assert GoodPending(w, w.pending[r]);
  }

  /** A commit that goes through keeps index and tree in agreement exactly when it fits. */
  lemma CommitAgreesExactly(w: World, r: Request, rootId: Id)
    requires Safe(w, rootId) && Agrees(w.st) && Enabled(w, Commit(r)) && CommitOf(w.st, w.pending[r]).Ok?
    requires LoopComplete(w.st, w.pending[r])
    ensures Agrees(Next(w, Commit(r)).st) <==> Fits(w.st, w.pending[r])
  {
    assert GoodPending(w, w.pending[r]);
    match w.pending[r]
    case AddReady(entry, path, _) => StaleAddExact(w.st, path, entry);
    case DeleteReady(_, path, ids) =>
      CommittedRemove(w, r, rootId);
      RemoveKeeps(w.st, path, ids);
    case RenameReady(_, from, to, _, order) =>
      CommittedRename(w, r, rootId);
      RenameExact(w.st, from, to, order);
    case UpdateReady(base, update) => UpdateKeeps(w.st, Updated(base, update));
  }

  /** Every commit that goes through fits the state it finds. */
  ghost predicate AllFit(w: World, steps: seq<Step>)
    decreases |steps|
  {
    steps != [] ==>
      && (steps[0].Commit? && steps[0].request in w.pending && CommitOf(w.st, w.pending[steps[0].request]).Ok? ==>
            Fits(w.st, w.pending[steps[0].request]) && LoopComplete(w.st, w.pending[steps[0].request]))
      && AllFit(Next(w, steps[0]), steps[1..])
  }

  /** Steps that read, and commits that fail, leave the tables alone. */
  lemma QuietStep(w: World, s: Step)
    requires Enabled(w, s) && (s.Commit? ==> CommitOf(w.st, w.pending[s.request]).Err?)
    ensures Next(w, s).st == w.st
  {
  }

  /** Over any interleaving whose commits fit, a path is indexed with an id exactly when the tree
      spells it, and the table holds exactly the indexed ids. */
  lemma {:induction false} InterleavingAgrees(w: World, steps: seq<Step>, rootId: Id, p: Path, id: Id)
    requires Safe(w, rootId) && Agrees(w.st) && EnabledAll(w, steps) && AllFit(w, steps)
    ensures var st := NextAll(w, steps).st;
            && Agrees(st)
            && (Indexed(st, p, id) <==> Spells(st.table, id, p))
            && (id in st.table <==> exists q :: Indexed(st, q, id))
    decreases |steps|
  {
    if steps == [] {
      RunAgrees(w.st, [], p, id);
    } else {
      var s := steps[0];
      StepIsCurrent(w, s, rootId);
      if s.Commit? && CommitOf(w.st, w.pending[s.request]).Ok? {
        CommitAgreesExactly(w, s.request, rootId);
      } else {
        QuietStep(w, s);
      }
      InterleavingAgrees(Next(w, s), steps[1..], rootId, p, id);
    }
  }

  /** The path may be free and the commit still not fit: one request checks /d/x, another removes
      /d, and then the first reads the reference and commits. Every entry has a path, but /d/x
      has no parent. */
  lemma RemovedParentIsMissed(w: World, x: Entry, d: Path)
    requires Agrees(w.st) && d != [] && d in w.st.ref.entries
    requires x.id !in w.st.table && x.id != ROOT_PARENT && x.parentId == w.st.ref.entries[d] && x.name == "x"
    requires d + ["x"] !in w.st.ref.entries && RemovedIds(w.st.ref.entries, d, [w.st.ref.entries[d]])
    requires w.pending == map[0 := WillAdd(x, d + ["x"]), 1 := DeleteReady(w.st.ref, d, [w.st.ref.entries[d]])]
    ensures var w' := Next(Next(Next(w, Commit(1)), ReadReference(0)), Commit(0));
            AllIndexed(w'.st) && d + ["x"] in w'.st.ref.entries && d !in w'.st.ref.entries && !Agrees(w'.st)
  {
    var path: Path := d + ["x"];
    var st1 := RemoveAll(w.st, d, [w.st.ref.entries[d]]).value;
    assert Parent(path) == d && Last(path) == "x";
    RemoveKeeps(w.st, d, [w.st.ref.entries[d]]);
    RemovedThenAdded(w, x, d, path, st1);
    StaleAddExact(st1, path, x);
    AddedAllIndexed(st1, path, x);
  }

  /** The steps of the two requests. */
  lemma RemovedThenAdded(w: World, x: Entry, d: Path, path: Path, st1: State)
    requires d != [] && d in w.st.ref.entries && RemoveAll(w.st, d, [w.st.ref.entries[d]]) == Ok(st1)
    requires w.pending == map[0 := WillAdd(x, path), 1 := DeleteReady(w.st.ref, d, [w.st.ref.entries[d]])]
    ensures Next(Next(Next(w, Commit(1)), ReadReference(0)), Commit(0)).st == CommitAdd(st1, st1.ref, x, path).value
  {
    var w1 := Next(w, Commit(1));
    assert w1.st == st1 && w1.pending[0] == WillAdd(x, path);
    var w2 := Next(w1, ReadReference(0));
    assert w2.pending[0] == AddReady(x, path, st1.ref) && w2.st == st1;
  }

  lemma AddedAllIndexed(st: State, path: Path, x: Entry)
    requires Agrees(st) && path !in st.ref.entries
    ensures AllIndexed(CommitAdd(st, st.ref, x, path).value)
  {
    var st' := CommitAdd(st, st.ref, x, path).value;
    forall id | id in st'.table ensures exists p :: p in st'.ref.entries && st'.ref.entries[p] == id {
      if id == x.id {
        assert st'.ref.entries[path] == id;
      } else {
        var p :| Indexed(st, p, id);
        assert st'.ref.entries[p] == id;
      }
    }
  }
}
