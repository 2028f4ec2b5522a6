/** walkFS over the store: what it visits, whatever order the listings come in. */
module Walk {
  import opened Paths
  import opened Store
  import opened StoreTree
  import V = Server

  /** What the walk function returns. */
  datatype Answer = Go | SkipDir | Fail

  // ---------- What is to be visited ----------

  predicate IsDirAt(st: State, p: Path) {
    p in st.ref.entries && IsDir(st, st.ref.entries[p])
  }

  /** The depth below a directory: 1 becomes 0, and everything else stays. */
  function Deeper(depth: int): int {
    if depth == 1 then 0 else depth
  }

  /** q is at or below name, not too deep, and no directory on the way to it is skipped. */
  ghost predicate Reached(st: State, name: Path, depth: int, fn: Path -> Answer, q: Path) {
    && q in st.ref.entries && name <= q
    && (depth == 0 ==> q == name) && (depth == 1 ==> |q| <= |name| + 1)
    && forall k: nat | |name| <= k < |q| :: fn(q[..k]).Go?
  }

  /** The walk function skips nothing but directories, and does not fail. */
  ghost predicate Tame(st: State, fn: Path -> Answer) {
    forall q | q in st.ref.entries :: fn(q).Go? || (fn(q).SkipDir? && IsDirAt(st, q))
  }

  predicate NoneTwice(s: seq<Path>) {
    forall i, j | 0 <= i < j < |s| :: s[i] != s[j]
  }

  /** No path comes after one below it. */
  predicate TopDown(s: seq<Path>) {
    forall i, j | 0 <= i < j < |s| :: !(s[j] < s[i])
  }

  /** The answer at p keeps the walk from going on to q: a failure ends it, and a file at which
      SkipDir is answered ends its directory. */
  predicate Stops(st: State, fn: Path -> Answer, p: Path, q: Path) {
    fn(p).Fail? || (EndsDir(st, fn, p) && p != [] && Parent(p) < q)
  }

  predicate EndsDir(st: State, fn: Path -> Answer, p: Path) {
    fn(p).SkipDir? && !IsDirAt(st, p)
  }

  ghost predicate Stopped(st: State, fn: Path -> Answer, visited: seq<Path>, q: Path) {
    exists p :: p in visited && Stops(st, fn, p, q)
  }

  /** What has been visited does not stop what is visited after it. */
  predicate NoneStopped(st: State, fn: Path -> Answer, visited: seq<Path>) {
    forall i, j | 0 <= i < j < |visited| :: !Stops(st, fn, visited[i], visited[j])
  }

  /** Only what is to be visited, each once and parents first, nothing after what stops it; and all
      that is to be visited, but for what is stopped. */
  ghost predicate FullVisit(st: State, name: Path, depth: int, fn: Path -> Answer, visited: seq<Path>) {
    && visited != []
    && (forall q | q in visited :: Reached(st, name, depth, fn, q))
    && (forall q | Reached(st, name, depth, fn, q) :: q in visited || Stopped(st, fn, visited, q))
    && NoneTwice(visited) && TopDown(visited) && NoneStopped(st, fn, visited)
  }

  /** All of it. */
  ghost predicate ExactVisit(st: State, name: Path, depth: int, fn: Path -> Answer, visited: seq<Path>) {
    && (forall q :: q in visited <==> Reached(st, name, depth, fn, q))
    && NoneTwice(visited) && TopDown(visited)
  }

  /** A tame walk function stops nothing. */
  lemma TameVisitsAll(st: State, name: Path, depth: int, fn: Path -> Answer, visited: seq<Path>)
    requires FullVisit(st, name, depth, fn, visited) && Tame(st, fn)
    ensures ExactVisit(st, name, depth, fn, visited)
  {
    forall q ensures !Stopped(st, fn, visited, q) {
      assert forall p | p in visited :: p in st.ref.entries && !Stops(st, fn, p, q);
    }
  }

  // ---------- Listings ----------

  /** The names of the children of a directory, once each. */
  ghost predicate Lists(st: State, p: Path, names: seq<Component>) {
    && (forall c: Component :: c in names <==> p + [c] in st.ref.entries)
    && (forall i, j | 0 <= i < j < |names| :: names[i] != names[j])
  }

  /** By their parent ids in the tree, the entries in a directory are the keys below it in the index. */
  lemma ListingIsExact(st: State, p: Path, names: seq<string>, entries: seq<Entry>)
    requires Agrees(st) && p in st.ref.entries && |names| == |entries|
    requires forall i | 0 <= i < |names| :: names[i] == entries[i].name
    requires forall e :: e in entries <==> e.id in st.table && st.table[e.id] == e && e.parentId == st.ref.entries[p]
    requires forall i, j | 0 <= i < j < |entries| :: entries[i].id != entries[j].id
    ensures forall i | 0 <= i < |names| :: ValidComponent(names[i])
    ensures Lists(st, p, names)
  {
    forall i | 0 <= i < |names| ensures ValidComponent(names[i]) && p + [names[i]] in st.ref.entries && st.ref.entries[p + [names[i]]] == entries[i].id {
      ChildHangs(st, p, entries[i]);
    }
    forall c: Component | p + [c] in st.ref.entries ensures c in names {
      var q := p + [c];
      assert Hangs(st, q) && Parent(q) == p && Last(q) == c;
      var e := st.table[st.ref.entries[q]];
      assert e in entries;
      var i :| 0 <= i < |entries| && entries[i] == e;
      assert names[i] == c;
    }
  }

  lemma ChildHangs(st: State, p: Path, e: Entry)
    requires Agrees(st) && p in st.ref.entries
    requires e.id in st.table && st.table[e.id] == e && e.parentId == st.ref.entries[p]
    ensures ValidComponent(e.name) && p + [e.name] in st.ref.entries && st.ref.entries[p + [e.name]] == e.id
  {
    var q :| Indexed(st, q, e.id);
    assert Hangs(st, q) && Hangs(st, p);
    if q != [] {
      assert Indexed(st, Parent(q), e.parentId) && Indexed(st, p, e.parentId);
      assert Parent(q) + [Last(q)] == q;
    }
  }

  /** Every key has its ancestors in the index. */
  lemma PrefixIndexed(st: State, q: Path, k: nat)
    requires Agrees(st) && q in st.ref.entries && k <= |q|
    ensures q[..k] in st.ref.entries && (k < |q| ==> IsDirAt(st, q[..k]))
  {
    forall p | p in st.ref.entries && p != [] ensures Parent(p) in st.ref.entries && IsDirAt(st, Parent(p)) {
      assert Hangs(st, p);
    }
    AncestorsStand(p => p in st.ref.entries, p => IsDirAt(st, p), q, k);
  }

  // ---------- One directory ----------

  predicate EntryAt(st: State, p: Path, e: Entry) {
    p in st.ref.entries && st.ref.entries[p] in st.table && st.table[st.ref.entries[p]] == e
  }

  /** What lies below a directory is reached through its children. */
  lemma ReachedStep(st: State, name: Path, depth: int, fn: Path -> Answer, q: Path)
    requires Agrees(st) && name in st.ref.entries && fn(name).Go?
    ensures name < q ==> (Reached(st, name, depth, fn, q) <==> depth != 0 && Reached(st, name + [q[|name|]], Deeper(depth), fn, q))
    ensures Reached(st, name, depth, fn, name)
    ensures name < q && q in st.ref.entries ==> name + [q[|name|]] in st.ref.entries && IsDirAt(st, name)
  {
    if name < q {
      var child := name + [q[|name|]];
      assert q[..|name|] == name && q[..|name| + 1] == child;
      if q in st.ref.entries {
        PrefixIndexed(st, q, |name| + 1);
        PrefixIndexed(st, q, |name|);
      }
      if Reached(st, child, Deeper(depth), fn, q) && depth != 0 {
        forall k: nat | |name| <= k < |q| ensures fn(q[..k]).Go? {
        }
      }
    }
  }

  /** What is reached through the first children. */
  ghost predicate Through(st: State, name: Path, depth: int, fn: Path -> Answer, names: seq<Component>, q: Path) {
    q == name || (name < q && q[|name|] in names && Reached(st, name + [q[|name|]], Deeper(depth), fn, q))
  }

  ghost predicate Partly(st: State, name: Path, depth: int, fn: Path -> Answer, names: seq<Component>, visited: seq<Path>) {
    && (forall q | q in visited :: Through(st, name, depth, fn, names, q))
    && NoneTwice(visited) && TopDown(visited)
  }

  /** After the first children: the directory, and all that is reached through those and not
      stopped. */
  ghost predicate Progress(st: State, name: Path, depth: int, fn: Path -> Answer, names: seq<Component>, visited: seq<Path>) {
    && Partly(st, name, depth, fn, names, visited)
    && (forall q | Through(st, name, depth, fn, names, q) :: q in visited || Stopped(st, fn, visited, q))
    && NoneStopped(st, fn, visited)
  }

  /** Nothing visited so far ends the loop over the children. */
  ghost predicate GoesOn(st: State, name: Path, fn: Path -> Answer, visited: seq<Path>) {
    forall p | p in visited :: !fn(p).Fail? && (EndsDir(st, fn, p) ==> p != name && (p != [] ==> Parent(p) != name))
  }

  lemma ProgressBegins(st: State, name: Path, depth: int, fn: Path -> Answer)
    requires fn(name).Go?
    ensures Progress(st, name, depth, fn, [], [name]) && GoesOn(st, name, fn, [name])
  {
  }

  lemma PartlyStep(st: State, name: Path, depth: int, fn: Path -> Answer, names: seq<Component>, c: Component, visited: seq<Path>, more: seq<Path>)
    requires Partly(st, name, depth, fn, names, visited) && c !in names
    requires forall q | q in more :: Reached(st, name + [c], Deeper(depth), fn, q)
    requires NoneTwice(more) && TopDown(more)
    ensures Partly(st, name, depth, fn, names + [c], visited + more)
  {
    var all, child := visited + more, name + [c];
    forall q | q in all ensures Through(st, name, depth, fn, names + [c], q) {
      assert q in visited || q in more;
      assert child <= q ==> name < q && q[|name|] == c;
    }
    forall i, j | 0 <= i < j < |all| ensures all[i] != all[j] && !(all[j] < all[i]) {
      if j < |visited| {
        assert all[i] == visited[i] && all[j] == visited[j];
      } else if i >= |visited| {
        assert all[i] == more[i - |visited|] && all[j] == more[j - |visited|];
      } else {
        var p, q := all[i], all[j];
        assert p in visited && q in more && child <= q;
        assert q[|name|] == c;
        assert p == name || p[|name|] != c;
      }
    }
  }

  /** What has been visited before a child does not stop what is in it. */
  lemma EarlierStopsNothing(st: State, name: Path, depth: int, fn: Path -> Answer, names: seq<Component>, c: Component, visited: seq<Path>, p: Path, q: Path)
    requires Partly(st, name, depth, fn, names, visited) && c !in names && fn(name).Go? && GoesOn(st, name, fn, visited)
    requires p in visited && name + [c] <= q
    ensures !Stops(st, fn, p, q)
  {
    assert Through(st, name, depth, fn, names, p);
    if p != name {
      var child := name + [p[|name|]];
      assert child <= p && q[|name|] == c;
      if Parent(p) != name {
        assert child <= Parent(p);
      }
    }
  }

  /** The next child has been walked. */
  lemma ProgressStep(st: State, name: Path, depth: int, fn: Path -> Answer, names: seq<Component>, c: Component, visited: seq<Path>, more: seq<Path>)
    requires Progress(st, name, depth, fn, names, visited) && c !in names && fn(name).Go? && GoesOn(st, name, fn, visited)
    requires FullVisit(st, name + [c], Deeper(depth), fn, more)
    ensures Progress(st, name, depth, fn, names + [c], visited + more)
  {
    var all := visited + more;
    PartlyStep(st, name, depth, fn, names, c, visited, more);
    forall q | Through(st, name, depth, fn, names + [c], q) ensures q in all || Stopped(st, fn, all, q) {
      assert name < q && q[|name|] == c ==> name + [q[|name|]] == name + [c];
      if Through(st, name, depth, fn, names, q) {
        StoppedMore(st, fn, visited, all, q);
      } else {
        StoppedMore(st, fn, more, all, q);
      }
    }
    forall i, j | 0 <= i < j < |all| ensures !Stops(st, fn, all[i], all[j]) {
      if i >= |visited| {
        assert all[i] == more[i - |visited|] && all[j] == more[j - |visited|];
      } else if j < |visited| {
        assert all[i] == visited[i] && all[j] == visited[j];
      } else {
        assert all[i] in visited && all[j] in more;
        EarlierStopsNothing(st, name, depth, fn, names, c, visited, all[i], all[j]);
      }
    }
  }

  lemma StoppedMore(st: State, fn: Path -> Answer, visited: seq<Path>, all: seq<Path>, q: Path)
    requires forall p | p in visited :: p in all
    ensures Stopped(st, fn, visited, q) ==> Stopped(st, fn, all, q)
  {
  }

  /** The loop is over when all children are walked, or when something visited stops the others. */
  lemma ProgressDone(st: State, name: Path, depth: int, fn: Path -> Answer, names: seq<Component>, done: seq<Component>, visited: seq<Path>)
    requires Agrees(st) && name in st.ref.entries && fn(name).Go? && depth != 0 && visited != []
    requires Lists(st, name, names) && Progress(st, name, depth, fn, done, visited) && forall c | c in done :: c in names
    requires done == names || Halted(st, name, fn, visited)
    ensures FullVisit(st, name, depth, fn, visited)
  {
    forall q | q in visited ensures Reached(st, name, depth, fn, q) {
      ReachedStep(st, name, depth, fn, q);
    }
    forall q | Reached(st, name, depth, fn, q) ensures q in visited || Stopped(st, fn, visited, q) {
      ReachedStep(st, name, depth, fn, q);
      if q == name || q[|name|] in done {
        assert Through(st, name, depth, fn, done, q);
      } else {
        var p := visited[|visited| - 1];
        assert Stops(st, fn, p, q);
      }
    }
  }

  /** The last visit ends the loop over the children. */
  predicate Halted(st: State, name: Path, fn: Path -> Answer, visited: seq<Path>)
    requires visited != []
  {
    var p := visited[|visited| - 1];
    fn(p).Fail? || (EndsDir(st, fn, p) && p != [] && Parent(p) == name)
  }

  /** A single visit: at depth 0, at a file, or at a directory that is skipped. */
  lemma OnlyThis(st: State, name: Path, depth: int, fn: Path -> Answer)
    requires Agrees(st) && name in st.ref.entries
    requires depth == 0 || !IsDirAt(st, name) || !fn(name).Go?
    ensures FullVisit(st, name, depth, fn, [name])
  {
    forall q ensures q in [name] <==> Reached(st, name, depth, fn, q) {
      if name <= q {
        assert q[..|name|] == name && (|q| == |name| ==> q == name);
        if q in st.ref.entries {
          PrefixIndexed(st, q, |name|);
        }
      }
    }
  }

  // ---------- The walk ----------

  ghost predicate Bounded(st: State, bound: nat) {
    forall q | q in st.ref.entries :: |q| <= bound
  }

  /** path.Join of a directory and a name in it. */
  function JoinName(p: Path, c: string): Path {
    SlashClean(Render(p) + "/" + c)
  }

  lemma JoinNameIsChild(p: Path, c: string)
    requires ValidComponent(c)
    ensures JoinName(p, c) == p + [c]
  {
    var t: Component := c;
    if p == [] {
      assert Render(p) + "/" + c == "/" + ("/" + (c + ""));
      CleanSlash([], "/" + (c + ""));
      CleanSlash([], c + "");
      CleanComponent([], t, "");
    } else {
      JoinSnoc(p, t);
      CleanJoin([], p + [t]);
      assert [] + (p + [t]) == p + [t];
    }
  }

  /** walkFS at `name`, whose entry has been read. The walk function's answer is taken to depend
      on the path alone; where index and tree agree, the file system gives no error to report. */
  method WalkFS(s: V.Server, depth: int, name: Path, info: Entry, fn: Path -> Answer, ghost bound: nat)
      returns (visited: seq<Path>, err: Answer)
    requires Agrees(s.store.Now()) && Bounded(s.store.Now(), bound)
    requires EntryAt(s.store.Now(), name, info)
    ensures visited != [] && FullVisit(s.store.Now(), name, depth, fn, visited) && err == Reported(s.store.Now(), name, fn, visited)
    decreases bound - |name|, 2
  {
    ghost var st := s.store.Now();
    assert Hangs(st, name);
    visited := [name];
    err := fn(name);
    if err != Go || info.kind != Dir || depth == 0 {
      OnlyThis(st, name, depth, fn);
      if info.kind == Dir && err == SkipDir {
        err := Go;
      }
      return;
    }
    var names := Children(s, name, info);
    visited, err := WalkChildren(s, depth, name, names, fn, bound);
  }

  /** The loop over the names in a directory that has been visited. */
  method WalkChildren(s: V.Server, depth: int, name: Path, names: seq<Component>, fn: Path -> Answer, ghost bound: nat)
      returns (visited: seq<Path>, err: Answer)
    requires Agrees(s.store.Now()) && Bounded(s.store.Now(), bound) && name in s.store.Now().ref.entries
    requires Lists(s.store.Now(), name, names) && fn(name).Go? && depth != 0
    ensures visited != [] && FullVisit(s.store.Now(), name, depth, fn, visited) && err == Reported(s.store.Now(), name, fn, visited)
    decreases bound - |name|, 1
  {
    hide Reached, Progress, FullVisit;
    ghost var st := s.store.Now();
    visited, err := [name], Go;
    var i := 0;
    ProgressBegins(st, name, depth, fn);
    while i < |names|
      invariant i <= |names| && visited != [] && err == Go
      invariant Progress(st, name, depth, fn, names[..i], visited) && GoesOn(st, name, fn, visited)
    {
      assert names[i] in names && names[..i + 1] == names[..i] + [names[i]];
      var more;
      more, err := WalkChild(s, depth, name, names[i], fn, bound);
      ProgressStep(st, name, depth, fn, names[..i], names[i], visited, more);
      i := i + 1;
      if err != Go {
        LastOfBoth(visited, more);
        visited := visited + more;
        ProgressDone(st, name, depth, fn, names, names[..i], visited);
        return;
      }
      visited := visited + more;
    }
    assert names[..i] == names;
    ProgressDone(st, name, depth, fn, names, names, visited);
    assert visited[|visited| - 1] in visited;
  }

  lemma LastOfBoth(a: seq<Path>, b: seq<Path>)
    requires b != []
    ensures (a + b)[|a + b| - 1] == b[|b| - 1]
  {
  }

  /** What is reported is the answer at the last path that was visited, if it is a failure, or
      SkipDir at the name itself or at a file directly below it. */
  predicate IsReported(st: State, name: Path, fn: Path -> Answer, p: Path) {
    fn(p).Fail? || (EndsDir(st, fn, p) && (p == name || (p != [] && Parent(p) == name)))
  }

  function Reported(st: State, name: Path, fn: Path -> Answer, visited: seq<Path>): Answer
    requires visited != []
  {
    var p := visited[|visited| - 1];
    if IsReported(st, name, fn, p) then fn(p) else Go
  }

  /** The body of the loop: SkipDir at a directory ends there, at a file it ends the loop. */
  method WalkChild(s: V.Server, depth: int, name: Path, c: Component, fn: Path -> Answer, ghost bound: nat)
      returns (visited: seq<Path>, err: Answer)
    requires Agrees(s.store.Now()) && Bounded(s.store.Now(), bound) && name + [c] in s.store.Now().ref.entries
    ensures visited != [] && FullVisit(s.store.Now(), name + [c], Deeper(depth), fn, visited)
    ensures err == Go ==> GoesOn(s.store.Now(), name, fn, visited)
    ensures err != Go ==> Halted(s.store.Now(), name, fn, visited) && err == fn(visited[|visited| - 1])
    decreases bound - |name|, 0
  {
    hide FullVisit;
    ghost var st := s.store.Now();
    var filename := JoinName(name, c);
    JoinNameIsChild(name, c);
    assert Hangs(st, filename);
    CleanIsCanonical(filename);
    var child := s.Stat(Render(filename));
    visited, err := WalkFS(s, Deeper(depth), filename, child.value, fn, bound);
    ChildEnds(st, name, c, depth, fn, visited);
    if err == SkipDir && child.value.kind == Dir {
      err := Go;
    }
  }

  /** What the walk of a child means for the loop over the children. */
  lemma ChildEnds(st: State, name: Path, c: Component, depth: int, fn: Path -> Answer, visited: seq<Path>)
    requires Agrees(st) && FullVisit(st, name + [c], Deeper(depth), fn, visited)
    ensures var p, child := visited[|visited| - 1], name + [c];
            && (fn(p).Fail? || EndsDir(st, fn, child) ==> Halted(st, name, fn, visited))
            && (EndsDir(st, fn, child) ==> p == child)
            && (!fn(p).Fail? && !EndsDir(st, fn, child) ==> GoesOn(st, name, fn, visited))
            && (EndsDir(st, fn, p) && p != child && p != [] && Parent(p) == child ==> IsDirAt(st, child))
  {
    var child := name + [c];
    forall q | q in visited ensures q == child || (child < q && Parent(q) != name && IsDirAt(st, child)) {
      assert Reached(st, child, Deeper(depth), fn, q);
      if q != child {
        assert q[..|child|] == child;
        PrefixIndexed(st, q, |child|);
        assert child <= Parent(q);
      }
    }
    forall q | q in visited && fn(q).Fail? ensures q == visited[|visited| - 1] {
      var i :| 0 <= i < |visited| && visited[i] == q;
      assert i < |visited| - 1 ==> Stops(st, fn, visited[i], visited[|visited| - 1]);
    }
    if EndsDir(st, fn, child) {
      assert visited[|visited| - 1] in visited;
    }
  }

  /** Opening the directory and reading the names in it. */
  method Children(s: V.Server, name: Path, info: Entry) returns (names: seq<Component>)
    requires Agrees(s.store.Now()) && info.kind.Dir?
    requires EntryAt(s.store.Now(), name, info)
    ensures Lists(s.store.Now(), name, names)
  {
    ghost var st := s.store.Now();
    assert Hangs(st, name);
    CleanIsCanonical(name);
    var f := s.OpenFile(Render(name));
    KeysAreIds(st);
    var infos, entries := s.Readdir(f.value.entry);
    var listed := seq(|infos|, i requires 0 <= i < |infos| => infos[i].name);
    ListingIsExact(st, name, listed, entries);
    names := listed;
  }

  lemma KeysAreIds(st: State)
    requires Agrees(st)
    ensures forall k | k in st.table :: st.table[k].id == k
  {
    forall k | k in st.table ensures st.table[k].id == k {
      var p :| Indexed(st, p, k);
      assert Hangs(st, p);
    }
  }

  /** What walkFS answers: a failure exactly if the walk function has failed somewhere, and then that
      one; and SkipDir exactly if the walk has ended with that answer at a file that is the name
      itself or directly below it. */
  lemma AnswerExactly(st: State, name: Path, depth: int, fn: Path -> Answer, visited: seq<Path>)
    requires FullVisit(st, name, depth, fn, visited)
    ensures var r, last := Reported(st, name, fn, visited), visited[|visited| - 1];
            && (r == Fail <==> exists p :: p in visited && fn(p) == Fail)
            && (r == SkipDir <==> fn(last) == SkipDir && !IsDirAt(st, last) && (last == name || (last != [] && Parent(last) == name)))
  {
    forall i | 0 <= i < |visited| - 1 ensures !fn(visited[i]).Fail? {
      assert !Stops(st, fn, visited[i], visited[|visited| - 1]);
    }
    assert visited[|visited| - 1] in visited;
  }

  /** With a walk function that always goes on: everything at or below the name, once each. */
  lemma WalksEverything(st: State, name: Path, fn: Path -> Answer, visited: seq<Path>, depth: int)
    requires ExactVisit(st, name, depth, fn, visited) && forall q :: fn(q).Go?
    ensures NoneTwice(visited)
    ensures depth != 0 && depth != 1 ==> forall q :: q in visited <==> q in st.ref.entries && Within(q, name)
    ensures depth == 1 ==> forall q :: q in visited <==> q in st.ref.entries && (q == name || (q != [] && Parent(q) == name))
    ensures depth == 0 ==> forall q :: q in visited <==> q in st.ref.entries && q == name
  {
    forall q ensures Reached(st, name, depth, fn, q) <==>
      q in st.ref.entries && name <= q && (depth == 0 ==> q == name) && (depth == 1 ==> |q| <= |name| + 1) {
    }
    forall q ensures name <= q && |q| <= |name| + 1 <==> q == name || (q != [] && Parent(q) == name) {
      if q != [] {
        assert Parent(q) + [Last(q)] == q;
        WithinStep(q);
        assert Within(q, name) <==> Within(Parent(q), name) || q == name;
      }
    }
  }
}
