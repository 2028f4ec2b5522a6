/** The in-memory file system: a tree of nodes, each with a map of its children, changed in
    place under the names of its paths. */
module MemFS {
  import opened Paths
  import opened Utf8
  import M = MemFile

  type Node = M.Node

  datatype Error = NotExist | Exist | Invalid | Permission | NotADirectory | DirectoryNotEmpty

  datatype Result<T> = Ok(value: T) | Err(error: Error)

  /** What find tells: the root, or the parent and the last component. */
  datatype Found = Root | At(dir: Node, frag: Component)

  /** The nodes by their paths. */
  type Tree = map<Path, Node>

  function Kids(n: Node): map<Component, Node>
    reads n`children
  {
    match n.children case Nil => map[] case Dir(entries) => entries
  }

  // ---------- What the operations do to the tree ----------

  /** The walk from depth k on: every proper ancestor must be there and be a directory. */
  ghost function FindFrom(t: Tree, p: Path, k: nat): Result<Found>
    requires k < |p| && p[..k] in t
    decreases |p| - k
  {
    if k == |p| - 1 then Ok(At(t[p[..k]], Last(p)))
    else if p[..k + 1] !in t then Err(NotExist)
    else if !t[p[..k + 1]].isDir then Err(Invalid)
    else FindFrom(t, p, k + 1)
  }

  ghost function Find(t: Tree, p: Path): Result<Found>
    requires [] in t
  {
    if p == [] then Ok(Root) else assert p[..0] == []; FindFrom(t, p, 0)
  }

  /** The lookup at q after what was at or below `from` has been moved to `to`. */
  ghost predicate MovedAt(t: Tree, t': Tree, from: Path, to: Path, q: Path) {
    if to <= q then
      var o := Rebase(q, to, from);
      (q in t' <==> o in t) && (q in t' ==> t'[q] == t[o])
    else
      (q in t' <==> q in t && !(from <= q)) && (q in t' ==> t'[q] == t[q])
  }

  ghost predicate IsMove(t: Tree, t': Tree, from: Path, to: Path) {
    forall q {:trigger MovedAt(t, t', from, to, q)} :: MovedAt(t, t', from, to, q)
  }

  ghost function Removed(t: Tree, p: Path): Tree {
    map q | q in t && !(p <= q) :: t[q]
  }

  ghost function Moved(t: Tree, from: Path, to: Path): Tree {
    var landed := set q | q in t && from <= q :: Rebase(q, from, to);
    Removed(Removed(t, from), to) + map q | q in landed && to <= q && Rebase(q, to, from) in t :: t[Rebase(q, to, from)]
  }

  lemma MovedIsMove(t: Tree, from: Path, to: Path)
    ensures IsMove(t, Moved(t, from, to), from, to)
  {
    forall q ensures MovedAt(t, Moved(t, from, to), from, to, q) {
      if to <= q {
        var o := Rebase(q, to, from);
        RebaseBack(q, to, from);
        if o in t {
          assert Rebase(o, from, to) == q;
        }
      }
    }
  }

  // ---------- The tree invariant ----------

  ghost predicate EntryOk(t: Tree, nodes: set<Node>, p: Path)
    reads nodes`children
  {
    p in t ==> t[p] in nodes && (t[p].children.Dir? <==> t[p].isDir) && (p != [] ==> Parent(p) in t)
  }

  ghost predicate ChildOk(t: Tree, nodes: set<Node>, p: Path, c: Component)
    reads nodes`children
  {
    p in t && t[p] in nodes ==> (c in Kids(t[p]) <==> p + [c] in t) && (c in Kids(t[p]) ==> Kids(t[p])[c] == t[p + [c]])
  }

  predicate Once(t: Tree, p: Path, q: Path) {
    p in t && q in t && t[p] == t[q] ==> p == q
  }

  /** t is the finite tree that the children maps spell out, with every node on one path, and
      children maps in the directories alone. */
  ghost predicate IsTree(t: Tree, nodes: set<Node>)
    reads nodes`children
  {
    && (forall p {:trigger EntryOk(t, nodes, p)} :: EntryOk(t, nodes, p))
    && (forall p, c {:trigger ChildOk(t, nodes, p, c)} :: ChildOk(t, nodes, p, c))
    && (forall p, q {:trigger Once(t, p, q)} :: Once(t, p, q))
  }

  lemma Ancestors(t: Tree, nodes: set<Node>, p: Path, k: nat)
    requires IsTree(t, nodes) && p in t && k <= |p|
    ensures p[..k] in t && (k < |p| ==> t[p[..k]].isDir)
  {
    forall q | q in t && q != [] ensures Parent(q) in t && t[Parent(q)].isDir {
      assert Parent(q) + [Last(q)] == q;
      assert EntryOk(t, nodes, q) && EntryOk(t, nodes, Parent(q)) && ChildOk(t, nodes, Parent(q), Last(q));
    }
    AncestorsStand(q => q in t, q => q in t && t[q].isDir, p, k);
  }

  /** One step of the walk. */
  lemma KidIsNext(t: Tree, nodes: set<Node>, p: Path, k: nat)
    requires IsTree(t, nodes) && k < |p| && p[..k] in t
    ensures p[k] in Kids(t[p[..k]]) <==> p[..k + 1] in t
    ensures p[k] in Kids(t[p[..k]]) ==> Kids(t[p[..k]])[p[k]] == t[p[..k + 1]] && t[p[..k + 1]] in nodes
    ensures p[..k + 1] in t ==> (t[p[..k + 1]].children.Dir? <==> t[p[..k + 1]].isDir)
  {
    assert p[..k + 1] == p[..k] + [p[k]];
    assert ChildOk(t, nodes, p[..k], p[k]) && EntryOk(t, nodes, p[..k]) && EntryOk(t, nodes, p[..k + 1]);
  }

  lemma FirstFragment(s: string, p: Path, k: nat)
    requires k < |p| && s == p[k] + Join(p[k + 1..])
    ensures var i := FirstSlash(s);
            && s[..i] == p[k] && (i == |s| <==> k == |p| - 1)
            && (i < |s| ==> s[i + 1..] == p[k + 1] + Join(p[k + 2..]))
  {
    var c, t := p[k], Join(p[k + 1..]);
    if k + 1 < |p| {
      JoinTail(p[k + 1..]);
      assert p[k + 1..][1..] == p[k + 2..];
    }
    hide Join;
    FirstSlashOf(c, t);
    CutAfter(s, c, t);
  }

  lemma JoinTail(p: Path)
    requires p != []
    ensures Join(p) != "" && Join(p)[0] == '/' && Join(p)[1..] == p[0] + Join(p[1..])
  {
  }

  lemma CutAfter(s: string, c: string, t: string)
    requires s == c + t
    ensures s[..|c|] == c && (t != "" ==> s[|c| + 1..] == t[1..])
  {
  }

  lemma RenderStarts(p: Path)
    ensures Render(p) != "" && Render(p)[1..] == if p == [] then "" else p[0] + Join(p[1..])
  {
    if p != [] {
      JoinTail(p);
    }
  }

  /** find succeeds exactly when the parent is a directory of the tree. */
  lemma FindIsParent(t: Tree, nodes: set<Node>, p: Path)
    requires IsTree(t, nodes) && [] in t && t[[]].isDir
    ensures Find(t, p).Ok? <==> p == [] || (Parent(p) in t && t[Parent(p)].isDir)
    ensures Find(t, p).Ok? ==> Find(t, p).value == if p == [] then Root else At(t[Parent(p)], Last(p))
  {
    if p != [] {
      assert p[..0] == [];
      FindFromIsParent(t, nodes, p, 0);
    }
  }

  lemma {:induction false} FindFromIsParent(t: Tree, nodes: set<Node>, p: Path, k: nat)
    requires IsTree(t, nodes) && k < |p| && p[..k] in t && t[p[..k]].isDir
    ensures FindFrom(t, p, k).Ok? <==> Parent(p) in t && t[Parent(p)].isDir
    ensures FindFrom(t, p, k).Ok? ==> FindFrom(t, p, k).value == At(t[Parent(p)], Last(p))
    decreases |p| - k
  {
    if k < |p| - 1 {
      if p[..k + 1] in t && t[p[..k + 1]].isDir {
        FindFromIsParent(t, nodes, p, k + 1);
      } else if Parent(p) in t {
        Ancestors(t, nodes, Parent(p), k + 1);
        assert Parent(p)[..k + 1] == p[..k + 1];
      }
    }
  }

  // ---------- Moving ----------

  predicate Childless(t: Tree, p: Path) {
    forall q | q in t :: !(p < q)
  }

  lemma ChildlessHasNoKids(t: Tree, nodes: set<Node>, p: Path)
    requires IsTree(t, nodes) && p in t
    ensures Childless(t, p) <==> Kids(t[p]) == map[]
  {
    assert EntryOk(t, nodes, p);
    forall q | q in t && p < q ensures q[|p|] in Kids(t[p]) {
      Ancestors(t, nodes, q, |p| + 1);
      assert q[..|p| + 1] == p + [q[|p|]];
      assert ChildOk(t, nodes, p, q[|p|]);
    }
    forall c | c in Kids(t[p]) ensures p < p + [c] && p + [c] in t {
      assert ChildOk(t, nodes, p, c);
    }
  }

  /** Rename's answer, in the order of its checks. */
  ghost function RenameResult(t: Tree, from: Path, to: Path): Result<()>
    requires [] in t
  {
    if from == to then Ok(())
    else if from != [] && from <= to then Err(Invalid)
    else if Find(t, from).Err? then Err(Find(t, from).error)
    else if from == [] then Err(Invalid)
    else if Find(t, to).Err? then Err(Find(t, to).error)
    else if to == [] then Err(Invalid)
    else if from !in t then Err(NotExist)
    else if t[from].isDir && to in t && !t[to].isDir then Err(NotADirectory)
    else if t[from].isDir && to in t && !Childless(t, to) then Err(DirectoryNotEmpty)
    else Ok(())
  }

  /** The test on strings that keeps a directory from being moved into itself. */
  lemma InsideItself(from: Path, to: Path)
    ensures from != to ==> (Render(from) + "/" <= Render(to) <==> from != [] && from <= to)
  {
    PrefixTestIsBelow(to, from);
    if from == [] && to != [] {
      assert Render(to) == "/" + (to[0] + Join(to[1..]));
      assert to[0][0] in to[0];
      assert Render(to)[1] == to[0][0];
    }
  }

  lemma MoveToItself(t: Tree, p: Path)
    ensures IsMove(t, t, p, p)
  {
    forall q ensures MovedAt(t, t, p, p, q) {
      if p <= q {
        assert p + q[|p|..] == q;
      }
    }
  }

  /** Where the node at q was before the move. */
  function Source(from: Path, to: Path, q: Path): Path {
    if to <= q then Rebase(q, to, from) else q
  }

  /** What Rename does to the children maps. */
  function Relinked(kids: map<Component, Node>, p: Path, from: Path, to: Path, n: Node): map<Component, Node>
    requires from != [] && to != []
  {
    var k := if p == Parent(from) then kids - {Last(from)} else kids;
    if p == Parent(to) then k[Last(to) := n] else k
  }

  lemma SourceStep(from: Path, to: Path, q: Path, c: Component)
    requires from != [] && to != [] && !(from <= to)
    ensures to <= q ==> Source(from, to, q + [c]) == Source(from, to, q) + [c] && from <= Source(from, to, q)
    ensures !(to <= q) && q + [c] != to ==> Source(from, to, q + [c]) == q + [c] && !(to <= q + [c])
    ensures from <= q ==> q != Parent(from) && q != Parent(to)
    ensures from <= q + [c] <==> from <= q || q + [c] == from
    ensures q + [c] == to <==> q == Parent(to) && c == Last(to)
    ensures q + [c] == from <==> q == Parent(from) && c == Last(from)
  {
    assert Parent(q + [c]) == q && Last(q + [c]) == c;
    assert Parent(to) + [Last(to)] == to && Parent(from) + [Last(from)] == from;
    WithinStep(q + [c]);
    WithinStep(to);
    assert Within(q + [c], to) <==> Within(q, to) || to == q + [c];
    assert Within(q + [c], from) <==> Within(q, from) || from == q + [c];
    assert Within(to, from) <==> Within(Parent(to), from) || from == to;
    if to <= q {
      assert (q + [c])[|to|..] == q[|to|..] + [c];
    }
  }

  lemma MovedChild(t: Tree, t': Tree, nodes: set<Node>, from: Path, to: Path, q: Path, c: Component, was: map<Component, Node>)
    requires from != [] && to != [] && !(from <= to) && from in t
    requires MovedAt(t, t', from, to, q) && MovedAt(t, t', from, to, q + [c])
    requires var o := Source(from, to, q);
             o in t ==>
               && (c in was <==> o + [c] in t) && (c in was ==> was[c] == t[o + [c]])
               && Kids(t[o]) == Relinked(was, o, from, to, t[from])
    ensures ChildOk(t', nodes, q, c)
  {
    var o := Source(from, to, q);
    SourceStep(from, to, q, c);
    if to <= q {
      SourceStep(from, to, o, c);
    } else if q + [c] == to {
      assert Rebase(to, to, from) == from;
    }
  }

  lemma MovedEntry(t: Tree, t': Tree, nodes: set<Node>, from: Path, to: Path, q: Path)
    requires from != [] && to != [] && !(from <= to) && MovedAt(t, t', from, to, q)
    requires q != [] ==> MovedAt(t, t', from, to, Parent(q))
    requires Parent(to) in t
    requires var o := Source(from, to, q);
             o in t ==> t[o] in nodes && (t[o].children.Dir? <==> t[o].isDir) && (o != [] ==> Parent(o) in t)
    ensures EntryOk(t', nodes, q)
  {
    if q != [] {
      SourceStep(from, to, Parent(q), Last(q));
      assert Parent(q) + [Last(q)] == q;
    }
  }

  lemma MovedOnce(t: Tree, t': Tree, from: Path, to: Path, q: Path, r: Path)
    requires MovedAt(t, t', from, to, q) && MovedAt(t, t', from, to, r)
    requires Once(t, Source(from, to, q), Source(from, to, r))
    ensures Once(t', q, r)
  {
    if to <= q {
      RebaseBack(q, to, from);
    }
    if to <= r {
      RebaseBack(r, to, from);
    }
  }

  /** A child of a directory, by the children maps recorded for the paths. */
  ghost predicate WasChild(t: Tree, kids: map<Path, map<Component, Node>>, p: Path, c: Component) {
    p in t && p in kids ==> (c in kids[p] <==> p + [c] in t) && (c in kids[p] ==> kids[p][c] == t[p + [c]])
  }

  ghost function KidsMap(t: Tree, nodes: set<Node>): (kids: map<Path, map<Component, Node>>)
    requires IsTree(t, nodes)
    reads nodes`children
    ensures kids.Keys == t.Keys && forall p | p in t :: t[p] in nodes && kids[p] == Kids(t[p])
    ensures forall p, c {:trigger WasChild(t, kids, p, c)} :: WasChild(t, kids, p, c)
  {
    assert forall p | p in t :: EntryOk(t, nodes, p);
    var kids := map p | p in t && t[p] in nodes :: Kids(t[p]);
    assert forall p, c :: ChildOk(t, nodes, p, c) ==> WasChild(t, kids, p, c);
    kids
  }

  /** With the children maps relinked, the moved tree is a tree. */
  lemma MovedKeepsTree(t: Tree, t': Tree, nodes: set<Node>, kids: map<Path, map<Component, Node>>, from: Path, to: Path)
    requires from != [] && to != [] && !(from <= to) && from in t && Parent(to) in t && IsMove(t, t', from, to)
    requires kids.Keys == t.Keys && forall p, c {:trigger WasChild(t, kids, p, c)} :: WasChild(t, kids, p, c)
    requires forall p {:trigger EntryOk(t, nodes, p)} :: EntryOk(t, nodes, p)
    requires forall p, q {:trigger Once(t, p, q)} :: Once(t, p, q)
    requires forall p | p in t :: Kids(t[p]) == Relinked(kids[p], p, from, to, t[from])
    ensures IsTree(t', nodes)
  {
    forall q ensures EntryOk(t', nodes, q) {
      assert MovedAt(t, t', from, to, q) && (q != [] ==> MovedAt(t, t', from, to, Parent(q)));
      assert EntryOk(t, nodes, Source(from, to, q));
      MovedEntry(t, t', nodes, from, to, q);
    }
    forall q, c ensures ChildOk(t', nodes, q, c) {
      var o := Source(from, to, q);
      assert MovedAt(t, t', from, to, q) && MovedAt(t, t', from, to, q + [c]);
      assert WasChild(t, kids, o, c);
      MovedChild(t, t', nodes, from, to, q, c, if o in t then kids[o] else map[]);
    }
    forall q, r ensures Once(t', q, r) {
      assert MovedAt(t, t', from, to, q) && MovedAt(t, t', from, to, r);
      assert Once(t, Source(from, to, q), Source(from, to, r));
      MovedOnce(t, t', from, to, q, r);
    }
  }

  class FileSystem {
    const root: Node
    ghost var tree: Tree
    ghost var nodes: set<Node>

    ghost predicate Valid()
      reads this, nodes`children
    {
      [] in tree && tree[[]] == root && root.isDir && IsTree(tree, nodes)
    }

    constructor ()
      ensures Valid() && tree == map[[] := root] && fresh(nodes)
    {
      root := new M.Node(true);
      new;
      tree, nodes := map[[] := root], {root};
      forall p, c ensures ChildOk(tree, nodes, p, c) {
        assert p + [c] != [];
      }
    }

    /** find, with the loop of walk over the cleaned name. */
    method FindNode(name: string) returns (r: Result<Found>)
      requires Valid()
      ensures r == Find(tree, SlashClean(name))
    {
      hide Join, FirstSlash;
      ghost var p := SlashClean(name);
      var fullname := Render(SlashClean(name));
      RenderStarts(p);
      fullname := fullname[1..];
      var dir := root;
      ghost var k := 0;
      assert p[..0] == [] && p[0..] == p;
      while true
        invariant k <= |p| && p[..k] in tree && dir == tree[p[..k]] && dir.isDir
        invariant if p == [] then fullname == "" && k == 0 else k < |p| && fullname == p[k] + Join(p[k + 1..])
        invariant p != [] ==> FindFrom(tree, p, k) == Find(tree, p)
        decreases |p| - k
      {
        var i := FirstSlash(fullname);
        var frag := fullname[..i];
        if p != [] {
          FirstFragment(fullname, p, k);
        }
        if i == |fullname| {
          return if frag == "" then Ok(Root) else Ok(At(dir, frag));
        }
        var c: Component := frag;
        KidIsNext(tree, nodes, p, k);
        if c !in Kids(dir) {
          return Err(NotExist);
        }
        var child := Kids(dir)[c];
        if !child.isDir {
          return Err(Invalid);
        }
        dir, fullname := child, fullname[i + 1..];
        k := k + 1;
      }
    }

    /** Put a new node without children at p. */
    method Attach(dir: Node, frag: Component, n: Node, ghost p: Path)
      requires Valid() && p != [] && Parent(p) in tree && tree[Parent(p)] == dir && dir.isDir && frag == Last(p)
      requires p !in tree && n !in nodes && Kids(n) == map[] && (n.children.Dir? <==> n.isDir)
      modifies this`tree, this`nodes, dir`children
      ensures Valid() && tree == old(tree)[p := n] && nodes == old(nodes) + {n}
    {
      ghost var t, parent := tree, Parent(p);
      assert parent + [frag] == p;
      assert EntryOk(t, nodes, parent);
      dir.children := M.Dir(dir.children.entries[frag := n]);
      tree, nodes := tree[p := n], nodes + {n};
      forall q ensures EntryOk(tree, nodes, q) {
        assert old(EntryOk(t, nodes, q)) && old(EntryOk(t, nodes, parent));
      }
      forall q, r ensures Once(tree, q, r) {
        assert Once(t, q, r) && old(EntryOk(t, nodes, q)) && old(EntryOk(t, nodes, r));
      }
      forall q, c ensures ChildOk(tree, nodes, q, c) {
        assert old(ChildOk(t, nodes, q, c));
        assert old(EntryOk(t, nodes, q)) && Once(t, q, parent) && old(EntryOk(t, nodes, q + [c]));
        assert q + [c] == p ==> q == parent && c == frag by {
          assert Parent(q + [c]) == q && Last(q + [c]) == c;
        }
        assert Parent(q + [c]) == q;
      }
    }

    /** Mkdir. */
    method Mkdir(name: string) returns (r: Result<()>)
      requires Valid()
      modifies this`tree, this`nodes, nodes`children
      ensures Valid() && fresh(nodes - old(nodes))
      ensures var p := SlashClean(name);
              var f := Find(old(tree), p);
              && (r == if f.Err? then Err(f.error) else if p == [] then Err(Invalid) else if p in old(tree) then Err(Exist) else Ok(()))
              && (r.Err? ==> tree == old(tree))
              && (r.Ok? ==> p in tree && tree == old(tree)[p := tree[p]] && fresh(tree[p]) && tree[p].isDir)
    {
      ghost var p := SlashClean(name);
      FindIsParent(tree, nodes, p);
      var f := FindNode(name);
      if f.Err? {
        return Err(f.error);
      }
      if f.value.Root? {
        return Err(Invalid);
      }
      var dir, frag := f.value.dir, f.value.frag;
      assert Parent(p) + [frag] == p;
      assert ChildOk(tree, nodes, Parent(p), frag) && EntryOk(tree, nodes, Parent(p));
      if frag in Kids(dir) {
        return Err(Exist);
      }
      var n := new M.Node(true);
      Attach(dir, frag, n, p);
      r := Ok(());
    }

    /** Take away what is at or below p. */
    method Detach(dir: Node, frag: Component, ghost p: Path)
      requires Valid() && p != [] && Parent(p) in tree && tree[Parent(p)] == dir && dir.isDir && frag == Last(p)
      modifies this`tree, dir`children
      ensures Valid() && tree == Removed(old(tree), p)
    {
      ghost var t, parent := tree, Parent(p);
      assert parent + [frag] == p;
      assert EntryOk(t, nodes, parent);
      dir.children := M.Dir(dir.children.entries - {frag});
      tree := Removed(tree, p);
      forall q ensures EntryOk(tree, nodes, q) {
        assert old(EntryOk(t, nodes, q));
      }
      forall q, r ensures Once(tree, q, r) {
        assert Once(t, q, r);
      }
      forall q, c ensures ChildOk(tree, nodes, q, c) {
        assert old(ChildOk(t, nodes, q, c));
        assert Once(t, q, parent);
        assert p <= q + [c] <==> p <= q || (q == parent && c == frag) by {
          assert Parent(q + [c]) == q && Last(q + [c]) == c;
          WithinStep(q + [c]);
          assert Within(q + [c], p) <==> Within(q, p) || p == q + [c];
        }
      }
    }

    method RemoveAll(name: string) returns (r: Result<()>)
      requires Valid()
      modifies this`tree, nodes`children
      ensures Valid()
      ensures var p := SlashClean(name);
              var f := Find(old(tree), p);
              && (r == if f.Err? then Err(f.error) else if p == [] then Err(Invalid) else Ok(()))
              && tree == if r.Ok? then Removed(old(tree), p) else old(tree)
    {
      ghost var p := SlashClean(name);
      FindIsParent(tree, nodes, p);
      var f := FindNode(name);
      if f.Err? {
        return Err(f.error);
      }
      if f.value.Root? {
        return Err(Invalid);
      }
      assert EntryOk(tree, nodes, Parent(p));
      Detach(f.value.dir, f.value.frag, p);
      r := Ok(());
    }

    /** Hang the node of `from` under `to` instead. */
    method Relink(oDir: Node, oFrag: Component, nDir: Node, nFrag: Component, ghost from: Path, ghost to: Path)
      requires Valid() && from != [] && to != [] && from in tree && !(from <= to)
      requires Parent(from) in tree && tree[Parent(from)] == oDir && oDir.isDir && oFrag == Last(from)
      requires Parent(to) in tree && tree[Parent(to)] == nDir && nDir.isDir && nFrag == Last(to)
      modifies this`tree, oDir`children, nDir`children
      ensures Valid() && IsMove(old(tree), tree, from, to)
    {
      hide Rebase;
      ghost var t, t' := tree, Moved(tree, from, to);
      ghost var oParent, nParent := Parent(from), Parent(to);
      assert oParent + [oFrag] == from && nParent + [nFrag] == to;
      assert EntryOk(t, nodes, oParent) && EntryOk(t, nodes, nParent);
      assert ChildOk(t, nodes, oParent, oFrag);
      var oNode := oDir.children.entries[oFrag];
      ghost var kids := KidsMap(t, nodes);
      RelinkNodes(oDir, oFrag, nDir, nFrag, oNode, from, to, kids);
      tree := t';
      MovedIsMove(t, from, to);
      MovedKeepsTree(t, t', nodes, kids, from, to);
      assert MovedAt(t, t', from, to, []);
    }

    method RelinkNodes(oDir: Node, oFrag: Component, nDir: Node, nFrag: Component, oNode: Node,
        ghost from: Path, ghost to: Path, ghost kids: map<Path, map<Component, Node>>)
      requires IsTree(tree, nodes) && kids == KidsMap(tree, nodes) && from != [] && to != []
      requires Parent(from) in tree && tree[Parent(from)] == oDir && oDir.isDir && oFrag == Last(from)
      requires Parent(to) in tree && tree[Parent(to)] == nDir && nDir.isDir && nFrag == Last(to)
      modifies oDir`children, nDir`children
      ensures forall p | p in tree :: Kids(tree[p]) == Relinked(kids[p], p, from, to, oNode)
      ensures forall p {:trigger EntryOk(tree, nodes, p)} :: EntryOk(tree, nodes, p)
    {
      ghost var t, oParent, nParent := tree, Parent(from), Parent(to);
      assert EntryOk(t, nodes, oParent) && EntryOk(t, nodes, nParent);
      oDir.children := M.Dir(oDir.children.entries - {oFrag});
      nDir.children := M.Dir(nDir.children.entries[nFrag := oNode]);
      forall p | p in t ensures Kids(t[p]) == Relinked(kids[p], p, from, to, oNode) {
        assert Once(t, p, oParent) && Once(t, p, nParent) && old(EntryOk(t, nodes, p));
      }
      forall p ensures EntryOk(t, nodes, p) {
        assert old(EntryOk(t, nodes, p)) && Once(t, p, oParent) && Once(t, p, nParent);
      }
    }

    method Rename(oldName: string, newName: string) returns (r: Result<()>)
      requires Valid()
      modifies this`tree, nodes`children
      ensures Valid()
      ensures var from, to := SlashClean(oldName), SlashClean(newName);
              && r == RenameResult(old(tree), from, to)
              && (r.Ok? ==> IsMove(old(tree), tree, from, to))
              && (r.Err? || from == to ==> tree == old(tree))
    {
      ghost var from, to := SlashClean(oldName), SlashClean(newName);
      var o, n := Render(SlashClean(oldName)), Render(SlashClean(newName));
      RenderInjective(from, to);
      MoveToItself(tree, from);
      InsideItself(from, to);
      if o == n {
        return Ok(());
      }
      if o + "/" <= n {
        return Err(Invalid);
      }
      FindIsParent(tree, nodes, from);
      FindIsParent(tree, nodes, to);
      CleanIsCanonical(from);
      CleanIsCanonical(to);
      var oFound := FindNode(o);
      if oFound.Err? {
        return Err(oFound.error);
      }
      if oFound.value.Root? {
        return Err(Invalid);
      }
      var nFound := FindNode(n);
      if nFound.Err? {
        return Err(nFound.error);
      }
      if nFound.value.Root? {
        return Err(Invalid);
      }
      r := RenameIn(oFound.value.dir, oFound.value.frag, nFound.value.dir, nFound.value.frag, from, to);
    }

    method RenameIn(oDir: Node, oFrag: Component, nDir: Node, nFrag: Component, ghost from: Path, ghost to: Path) returns (r: Result<()>)
      requires Valid() && from != [] && to != [] && !(from <= to)
      requires Parent(from) in tree && tree[Parent(from)] == oDir && oDir.isDir && oFrag == Last(from)
      requires Parent(to) in tree && tree[Parent(to)] == nDir && nDir.isDir && nFrag == Last(to)
      requires Find(tree, from).Ok? && Find(tree, to).Ok?
      modifies this`tree, nodes`children
      ensures Valid() && r == RenameResult(old(tree), from, to)
      ensures r.Ok? ==> IsMove(old(tree), tree, from, to)
      ensures r.Err? ==> tree == old(tree)
    {
      assert Parent(from) + [oFrag] == from && Parent(to) + [nFrag] == to;
      assert EntryOk(tree, nodes, Parent(from)) && EntryOk(tree, nodes, Parent(to));
      assert EntryOk(tree, nodes, from) && EntryOk(tree, nodes, to);
      assert ChildOk(tree, nodes, Parent(from), oFrag) && ChildOk(tree, nodes, Parent(to), nFrag);
      if oFrag !in Kids(oDir) {
        return Err(NotExist);
      }
      var oNode := Kids(oDir)[oFrag];
      if oNode.children.Dir? && nFrag in Kids(nDir) {
        var nNode := Kids(nDir)[nFrag];
        ChildlessHasNoKids(tree, nodes, to);
        if nNode.children.Nil? {
          return Err(NotADirectory);
        }
        if Kids(nNode) != map[] {
          return Err(DirectoryNotEmpty);
        }
      }
      Relink(oDir, oFrag, nDir, nFrag, from, to);
      r := Ok(());
    }

    /** Stat, as the node it describes. */
    method Stat(name: string) returns (r: Result<Node>)
      requires Valid()
      ensures var p := SlashClean(name);
              r == if Find(tree, p).Err? then Err(Find(tree, p).error) else if p in tree then Ok(tree[p]) else Err(NotExist)
    {
      ghost var p := SlashClean(name);
      FindIsParent(tree, nodes, p);
      var f := FindNode(name);
      if f.Err? {
        return Err(f.error);
      }
      if f.value.Root? {
        return Ok(root);
      }
      assert Parent(p) + [f.value.frag] == p;
      assert ChildOk(tree, nodes, Parent(p), f.value.frag) && EntryOk(tree, nodes, Parent(p));
      var kids := Kids(f.value.dir);
      r := if f.value.frag in kids then Ok(kids[f.value.frag]) else Err(NotExist);
    }

    /** OpenFile; `names` is the snapshot of the children that comes with the file. */
    method OpenFile(name: string, flags: Flags) returns (r: Result<M.File>, names: set<Component>)
      requires Valid()
      modifies this`tree, this`nodes, nodes`children, nodes`data, nodes`len
      ensures Valid() && fresh(nodes - old(nodes))
      ensures var p := SlashClean(name);
              && r.Ok? == OpenResult(old(tree), p, flags).Ok? && (r.Err? ==> r.error == OpenResult(old(tree), p, flags).error && tree == old(tree))
              && (r.Ok? ==>
                   && p in tree && r.value.n == tree[p] && fresh(r.value) && r.value.pos == 0
                   && tree == (if p in old(tree) then old(tree) else old(tree)[p := tree[p]])
                   && (p !in old(tree) ==> fresh(tree[p]) && !tree[p].isDir && tree[p].len == 0)
                   && (p != [] && flags.write && flags.trunc ==> tree[p].len == 0)
                   && forall c: Component :: c in names <==> p + [c] in tree)
      ensures forall n | n in old(nodes) && (r.Err? || n != r.value.n || !flags.write || !flags.trunc) ::
        n.data == old(n.data) && n.len == old(n.len)
    {
      ghost var p := SlashClean(name);
      names := {};
      FindIsParent(tree, nodes, p);
      var f := FindNode(name);
      if f.Err? {
        r := Err(f.error);
        return;
      }
      var n := root;
      if f.value.Root? {
        if flags.write {
          r := Err(Permission);
          return;
        }
      } else {
        assert EntryOk(tree, nodes, Parent(p));
        var inDir := OpenIn(f.value.dir, f.value.frag, flags, p);
        if inDir.Err? {
          r := Err(inDir.error);
          return;
        }
        n := inDir.value;
        if flags.write && flags.trunc {
          Truncate(n);
        }
      }
      names := Names(n, p);
      var file := new M.File(n);
      r := Ok(file);
    }

    method Truncate(n: Node)
      modifies n`data, n`len
      ensures n.len == 0 && fresh(n.data)
    {
      n.data, n.len := new Byte[0], 0;
    }

    method OpenIn(dir: Node, frag: Component, flags: Flags, ghost p: Path) returns (r: Result<Node>)
      requires Valid() && p != [] && Parent(p) in tree && tree[Parent(p)] == dir && dir.isDir && frag == Last(p)
      requires Find(tree, p).Ok?
      modifies this`tree, this`nodes, dir`children
      ensures Valid() && fresh(nodes - old(nodes))
      ensures r.Ok? == OpenResult(old(tree), p, flags).Ok? && (r.Err? ==> r.error == OpenResult(old(tree), p, flags).error && tree == old(tree))
      ensures r.Ok? ==> p in tree && r.value == tree[p] && tree == if p in old(tree) then old(tree) else old(tree)[p := tree[p]]
      ensures r.Ok? && p in old(tree) ==> tree[p] in old(nodes)
      ensures r.Ok? && p !in old(tree) ==> fresh(tree[p]) && !tree[p].isDir && tree[p].len == 0
    {
      assert Parent(p) + [frag] == p;
      assert ChildOk(tree, nodes, Parent(p), frag) && EntryOk(tree, nodes, Parent(p)) && EntryOk(tree, nodes, p);
      if flags.other {
        return Err(Invalid);
      }
      if frag in Kids(dir) {
        if flags.create && flags.excl {
          return Err(Exist);
        }
        return Ok(Kids(dir)[frag]);
      }
      if !flags.create {
        return Err(NotExist);
      }
      var n := new M.Node(false);
      Attach(dir, frag, n, p);
      r := Ok(n);
    }

    /** The names of the children of a node. */
    method Names(n: Node, ghost p: Path) returns (names: set<Component>)
      requires Valid() && p in tree && n == tree[p]
      ensures forall c: Component :: c in names <==> p + [c] in tree
    {
      names := Kids(n).Keys;
      assert EntryOk(tree, nodes, p);
      forall c: Component ensures c in names <==> p + [c] in tree {
        assert ChildOk(tree, nodes, p, c);
      }
    }
  }

  /** The flags that matter: O_WRONLY or O_RDWR, O_CREATE, O_EXCL, O_TRUNC, and O_SYNC or O_APPEND. */
  datatype Flags = Flags(write: bool, create: bool, excl: bool, trunc: bool, other: bool)

  ghost function OpenResult(t: Tree, p: Path, flags: Flags): Result<()>
    requires [] in t
  {
    if Find(t, p).Err? then Err(Find(t, p).error)
    else if p == [] then (if flags.write then Err(Permission) else Ok(()))
    else if flags.other then Err(Invalid)
    else if flags.create && flags.excl && p in t then Err(Exist)
    else if !flags.create && p !in t then Err(NotExist)
    else Ok(())
  }

  // ---------- When they succeed, and how they fail ----------

  ghost predicate DirAt(t: Tree, p: Path) {
    p in t && t[p].isDir
  }

  /** Something above the path is a file. */
  ghost predicate BehindFile(t: Tree, p: Path) {
    exists k | 0 < k < |p| :: p[..k] in t && !t[p[..k]].isDir
  }

  /** The walk to a path that cannot be reached says whether a file or nothing is in the way. */
  lemma FindErrorsExactly(t: Tree, nodes: set<Node>, p: Path)
    requires IsTree(t, nodes) && DirAt(t, [])
    ensures Find(t, p) == Err(Invalid) <==> BehindFile(t, p)
    ensures Find(t, p) == Err(NotExist) <==> p != [] && !DirAt(t, Parent(p)) && !BehindFile(t, p)
    ensures Find(t, p).Ok? <==> p == [] || DirAt(t, Parent(p))
  {
    FindIsParent(t, nodes, p);
    if p != [] {
      assert p[..0] == [];
      FindFromErrors(t, nodes, p, 0);
    }
  }

  lemma {:induction false} FindFromErrors(t: Tree, nodes: set<Node>, p: Path, k: nat)
    requires IsTree(t, nodes) && k < |p| && DirAt(t, p[..k])
    ensures FindFrom(t, p, k) == Err(Invalid) <==> BehindFile(t, p)
    ensures FindFrom(t, p, k).Err? ==> FindFrom(t, p, k).error == Invalid || FindFrom(t, p, k).error == NotExist
    decreases |p| - k
  {
    forall j | 0 < j < k && p[..j] in t ensures t[p[..j]].isDir {
      Ancestors(t, nodes, p[..k], j);
      assert p[..k][..j] == p[..j];
    }
    if k < |p| - 1 {
      if DirAt(t, p[..k + 1]) {
        FindFromErrors(t, nodes, p, k + 1);
      } else {
        forall j | k + 1 < j < |p| ensures p[..j] !in t {
          assert p[..j][..k + 1] == p[..k + 1];
          if p[..j] in t {
            Ancestors(t, nodes, p[..j], k + 1);
          }
        }
      }
    }
  }

  /** OpenFile: the root for reading alone; what is there, unless it is to be new; what is not there,
      if it is to be created in a directory; and nothing with the flags that are not supported. */
  lemma OpenExactly(t: Tree, nodes: set<Node>, p: Path, flags: Flags)
    requires IsTree(t, nodes) && DirAt(t, [])
    ensures var r := OpenResult(t, p, flags);
            && (r.Ok? <==>
                  if p == [] then !flags.write
                  else DirAt(t, Parent(p)) && !flags.other && if p in t then !(flags.create && flags.excl) else flags.create)
            && (r == Err(Permission) <==> p == [] && flags.write)
            && (r == Err(Exist) <==> p != [] && p in t && !flags.other && flags.create && flags.excl)
            && (r == Err(Invalid) <==> BehindFile(t, p) || (p != [] && DirAt(t, Parent(p)) && flags.other))
  {
    FindErrorsExactly(t, nodes, p);
    if p != [] && p in t {
      Ancestors(t, nodes, p, |p| - 1);
    }
  }

  /** Rename: onto the same name, always; else something that is not the root and not above the
      target, to a place in a directory, and a directory not over anything but an empty one. */
  lemma RenameExactly(t: Tree, nodes: set<Node>, from: Path, to: Path)
    requires IsTree(t, nodes) && DirAt(t, [])
    ensures var r := RenameResult(t, from, to);
            && (r.Ok? <==> from == to || (CanMove(t, from, to) && from in t && (t[from].isDir && to in t ==> t[to].isDir && Childless(t, to))))
            && (r == Err(NotADirectory) <==> from != to && CanMove(t, from, to) && DirAt(t, from) && to in t && !t[to].isDir)
            && (r == Err(DirectoryNotEmpty) <==> from != to && CanMove(t, from, to) && DirAt(t, from) && DirAt(t, to) && !Childless(t, to))
            && (from != to && CanMove(t, from, to) && from !in t ==> r == Err(NotExist))
            && (from != to && from <= to ==> r == Err(Invalid))
            && (from == [] && from != to ==> r == Err(Invalid))
            && (from != [] && to == [] && DirAt(t, Parent(from)) ==> r == Err(Invalid))
  {
    FindErrorsExactly(t, nodes, from);
    FindErrorsExactly(t, nodes, to);
    if from != [] && from in t {
      Ancestors(t, nodes, from, |from| - 1);
    }
  }

  /** The places of both are in directories, and the target is not the source or below it. */
  ghost predicate CanMove(t: Tree, from: Path, to: Path) {
    from != [] && to != [] && DirAt(t, Parent(from)) && DirAt(t, Parent(to)) && !(from <= to)
  }

  // ---------- moveFiles ----------

  const CREATED := 201
  const NO_CONTENT := 204
  const FORBIDDEN := 403
  const PRECONDITION_FAILED := 412

  predicate Success(status: int) {
    status == CREATED || status == NO_CONTENT
  }

  /** There is something to move, a place to move it to, and neither is inside the other. */
  ghost predicate Movable(t: Tree, from: Path, to: Path) {
    from in t && from != [] && to != [] && Parent(to) in t && t[Parent(to)].isDir && !(from <= to) && !(to <= from)
  }

  /** Where nothing is in the way, Rename succeeds exactly on what can be moved. */
  lemma MovableIsRenamable(t: Tree, nodes: set<Node>, from: Path, to: Path)
    requires IsTree(t, nodes) && [] in t && t[[]].isDir && from != to && to !in t
    ensures RenameResult(t, from, to).Ok? <==> Movable(t, from, to)
  {
    FindIsParent(t, nodes, from);
    FindIsParent(t, nodes, to);
    assert to <= from ==> from[..|to|] == to;
    if from in t {
      if from != [] {
        Ancestors(t, nodes, from, |from| - 1);
      }
      if to <= from {
        Ancestors(t, nodes, from, |to|);
      }
    }
  }

  lemma MoveAfterRemoval(t: Tree, t': Tree, from: Path, to: Path)
    requires IsMove(Removed(t, to), t', from, to) && !(from <= to) && !(to <= from)
    ensures IsMove(t, t', from, to)
  {
    forall q ensures MovedAt(t, t', from, to, q) {
      assert MovedAt(Removed(t, to), t', from, to, q);
      if to <= q {
        var o := Rebase(q, to, from);
        assert from <= o;
      }
    }
  }

  /** A move that fails leaves everything as it was exactly when there was nothing to remove. */
  lemma FailedMoveKeepsExactly(t: Tree, to: Path, overwrite: bool)
    ensures var t' := if overwrite && to in t && to != [] then Removed(t, to) else t;
            t' == t <==> !overwrite || to !in t || to == []
  {
    assert to in t ==> to !in Removed(t, to);
  }

  /** A move to above its own source fails, and destroys the source exactly when it may overwrite. */
  method MoveAboveItself(fs: FileSystem, src: string, dst: string, overwrite: bool) returns (status: int)
    requires fs.Valid() && SlashClean(src) in fs.tree && SlashClean(dst) < SlashClean(src) && SlashClean(dst) != []
    modifies fs`tree, fs.nodes`children
    ensures fs.Valid() && !Success(status)
    ensures SlashClean(src) !in fs.tree <==> overwrite
  {
    ghost var from, to := SlashClean(src), SlashClean(dst);
    assert from[..|to|] == to;
    Ancestors(fs.tree, fs.nodes, from, |to|);
    status := MoveFiles(fs, src, dst, overwrite);
  }

  /** A rename over something else makes a path below the target lead nowhere exactly when a
      file is renamed over a directory that is not empty. */
  lemma RenameDiscardsExactly(t: Tree, t': Tree, nodes: set<Node>, from: Path, to: Path)
    requires IsTree(t, nodes) && [] in t && from != to && to in t
    requires RenameResult(t, from, to).Ok? && IsMove(t, t', from, to)
    ensures (exists q :: q in t && to < q && q !in t') <==> !t[from].isDir && !Childless(t, to)
  {
    if !t[from].isDir && !Childless(t, to) {
      var q :| q in t && to < q;
      FileHasNothingBelow(t, nodes, from, Rebase(q, to, from));
      assert MovedAt(t, t', from, to, q);
    }
  }

  lemma FileHasNothingBelow(t: Tree, nodes: set<Node>, p: Path, q: Path)
    requires IsTree(t, nodes) && p in t && !t[p].isDir && p < q
    ensures q !in t
  {
    assert q[..|p|] == p;
    if q in t {
      Ancestors(t, nodes, q, |p|);
    }
  }

  const D: Path := ["d"]
  const X: Path := ["d", "x"]
  const F: Path := ["f"]

  lemma OnlyDirectoryLeft(t: Tree, t': Tree)
    requires t.Keys == {[], D, X, F} && IsMove(t, t', F, D)
    ensures t'.Keys == {[], D} && t'[D] == t[F]
  {
    assert Rebase(D, D, F) == F;
    forall q ensures q in t' <==> q == [] || q == D {
      assert MovedAt(t, t', F, D, q);
      if D <= q {
        var o := Rebase(q, D, F);
        assert o[0] == "f" && o[1..] == q[1..];
        assert q == [q[0]] + q[1..];
        assert o in t <==> o == F;
      }
    }
    assert MovedAt(t, t', F, D, D);
  }

  /** It happens: /f is renamed over /d, and /d/x is gone. */
  method FileOverDirectory() returns (fs: FileSystem, renamed: Result<()>)
    ensures fs.Valid() && renamed.Ok? && fs.tree.Keys == {[], D} && !fs.tree[D].isDir
  {
    fs := DirectoryAndFile();
    ghost var t := fs.tree;
    assert D[..1] == D && Parent(D) == [] && Parent(F) == [];
    FindIsParent(t, fs.nodes, F);
    FindIsParent(t, fs.nodes, D);
    CleanIsCanonical(D);
    CleanIsCanonical(F);
    renamed := fs.Rename(Render(F), Render(D));
    OnlyDirectoryLeft(t, fs.tree);
  }

  method MakeDirectory(fs: FileSystem, p: Path)
    requires fs.Valid() && p != [] && p !in fs.tree && Parent(p) in fs.tree && fs.tree[Parent(p)].isDir
    modifies fs`tree, fs`nodes, fs.nodes`children
    ensures fs.Valid() && fresh(fs.nodes - old(fs.nodes)) && p in fs.tree
    ensures fs.tree == old(fs.tree)[p := fs.tree[p]] && fs.tree[p].isDir
  {
    FindIsParent(fs.tree, fs.nodes, p);
    CleanIsCanonical(p);
    var made := fs.Mkdir(Render(p));
  }

  method MakeFile(fs: FileSystem, p: Path)
    requires fs.Valid() && p != [] && p !in fs.tree && Parent(p) in fs.tree && fs.tree[Parent(p)].isDir
    modifies fs`tree, fs`nodes, fs.nodes`children, fs.nodes`data, fs.nodes`len
    ensures fs.Valid() && fresh(fs.nodes - old(fs.nodes)) && p in fs.tree
    ensures fs.tree == old(fs.tree)[p := fs.tree[p]] && !fs.tree[p].isDir
  {
    FindIsParent(fs.tree, fs.nodes, p);
    CleanIsCanonical(p);
    var file, _ := fs.OpenFile(Render(p), Flags(true, true, false, false, false));
  }

  method DirectoryAndFile() returns (fs: FileSystem)
    ensures fs.Valid() && fs.tree.Keys == {[], D, X, F} && !fs.tree[F].isDir && fresh(fs) && fresh(fs.nodes)
  {
    fs := new FileSystem();
    assert Parent(D) == [] && Parent(F) == [] && Parent(X) == D;
    MakeDirectory(fs, D);
    MakeDirectory(fs, X);
    MakeFile(fs, F);
  }

  method MoveFiles(fs: FileSystem, src: string, dst: string, overwrite: bool) returns (status: int)
    requires fs.Valid()
    modifies fs`tree, fs.nodes`children
    ensures fs.Valid()
    ensures var from, to := SlashClean(src), SlashClean(dst);
            var t := old(fs.tree);
            && (from != to ==> (Success(status) <==> Movable(t, from, to) && (to !in t || overwrite)))
            && (from != to && Success(status) ==> IsMove(t, fs.tree, from, to) && (status == CREATED <==> to !in t))
            && (from == to || !Success(status) ==> fs.tree == if overwrite && to in t && to != [] then Removed(t, to) else t)
            && (from == to ==> (Success(status) <==> if to in t then overwrite && to != [] else Find(t, to).Ok? || Find(t, to).error == NotExist))
            && (to in t && !overwrite ==> status == PRECONDITION_FAILED)
  {
    ghost var from, to, t := SlashClean(src), SlashClean(dst), fs.tree;
    FindIsParent(t, fs.nodes, to);
    if to in t && to != [] {
      Ancestors(t, fs.nodes, to, |to| - 1);
    }
    var s := fs.Stat(dst);
    if s.Err? {
      if s.error != NotExist {
        return FORBIDDEN;
      }
    } else if overwrite {
      var removed := fs.RemoveAll(dst);
      if removed.Err? {
        return FORBIDDEN;
      }
    } else {
      return PRECONDITION_FAILED;
    }
    ghost var t1 := fs.tree;
    if from != to {
      MovableIsRenamable(t1, fs.nodes, from, to);
    }
    var renamed := fs.Rename(src, dst);
    if renamed.Err? {
      return FORBIDDEN;
    }
    if from != to && s.Ok? {
      MoveAfterRemoval(t, fs.tree, from, to);
    }
    status := if s.Err? then CREATED else NO_CONTENT;
  }
}
