/** copyFiles over any file system that keeps the contract of the FileSystem interface. */
module Copy {
  import opened Paths
  import opened Utf8

  datatype Item = Dir | File(content: seq<Byte>)

  type Tree = map<Path, Item>

  datatype Error = NotExist | Exist | Other

  datatype Result<T> = Ok(value: T) | Err(error: Error)

  ghost predicate HangsAt(t: Tree, p: Path) {
    p in t && p != [] ==> Parent(p) in t && t[Parent(p)].Dir?
  }

  ghost predicate IsTree(t: Tree) {
    [] in t && t[[]].Dir? && forall p {:trigger HangsAt(t, p)} :: HangsAt(t, p)
  }

  predicate DirAt(t: Tree, p: Path) {
    p in t && t[p].Dir?
  }

  function Without(t: Tree, p: Path): Tree {
    map q | q in t && !(p <= q) :: t[q]
  }

  // ---------- The contract ----------

  /** A file system. Any operation may fail for reasons of its own, and then changes nothing; it
      succeeds on what can be done whenever it does not. */
  class Disk {
    var tree: Tree

    /** How often an operation has failed for reasons of its own. */
    ghost var failures: nat

    /** Open for reading: what is there. */
    method OpenFile(p: Path) returns (r: Result<Item>)
      modifies this`failures
      ensures failures >= old(failures) && (failures == old(failures) ==> (r.Err? <==> r == Err(NotExist)))
      ensures r.Ok? ==> p in tree && r.value == tree[p]
      ensures r.Err? && r.error == NotExist ==> p !in tree
    {
      if * {
        failures := failures + 1;
        return Err(Other);
      }
      r := if p in tree then Ok(tree[p]) else Err(NotExist);
    }

    method Stat(p: Path) returns (r: Result<()>)
      modifies this`failures
      ensures failures >= old(failures) && (failures == old(failures) ==> (r.Err? <==> r == Err(NotExist)))
      ensures r.Ok? ==> p in tree
      ensures r.Err? && r.error == NotExist ==> p !in tree
    {
      if * {
        failures := failures + 1;
        return Err(Other);
      }
      r := if p in tree then Ok(()) else Err(NotExist);
    }

    /** The names of the children, once each, in some order. */
    method Readdir(p: Path) returns (r: Result<seq<Component>>)
      modifies this`failures
      ensures failures >= old(failures) && (failures == old(failures) ==> r.Ok?)
      ensures r.Ok? ==> (forall c: Component :: c in r.value <==> p + [c] in tree)
      ensures r.Ok? ==> forall i, j | 0 <= i < j < |r.value| :: r.value[i] != r.value[j]
    {
      if * {
        failures := failures + 1;
        return Err(Other);
      }
      var names: seq<Component> := [];
      var rest := tree.Keys;
      while rest != {}
        invariant rest <= tree.Keys
        invariant forall c: Component :: c in names <==> p + [c] in tree && p + [c] !in rest
        invariant forall i, j | 0 <= i < j < |names| :: names[i] != names[j]
        decreases rest
      {
        var q :| q in rest;
        rest := rest - {q};
        if q != [] && Parent(q) == p {
          assert q == p + [Last(q)];
          names := names + [Last(q)];
        }
        assert forall c: Component :: p + [c] == q ==> Parent(q) == p && Last(q) == c;
      }
      r := Ok(names);
    }

    method Mkdir(p: Path) returns (r: Result<()>)
      requires IsTree(tree)
      modifies this
      ensures IsTree(tree)
      ensures r.Ok? ==> p !in old(tree) && p != [] && tree == old(tree)[p := Dir]
      ensures r.Err? ==> tree == old(tree)
      ensures failures >= old(failures)
      ensures failures == old(failures) ==> (r.Ok? <==> p !in old(tree) && DirAt(old(tree), Parent(p)))
    {
      if * {
        failures := failures + 1;
        return Err(Other);
      }
      if p in tree {
        return Err(Exist);
      }
      if Parent(p) !in tree || !tree[Parent(p)].Dir? {
        return Err(NotExist);
      }
      Put(p, Dir);
      r := Ok(());
    }

    /** Create, with what is read from the source. */
    method Create(p: Path, content: seq<Byte>) returns (r: Result<()>)
      requires IsTree(tree)
      modifies this
      ensures IsTree(tree)
      ensures r.Ok? ==> tree == old(tree)[p := File(content)]
      ensures r.Err? ==> tree == old(tree)
      ensures failures >= old(failures)
      ensures failures == old(failures) && p !in old(tree) ==> if DirAt(old(tree), Parent(p)) then r.Ok? else r == Err(NotExist)
    {
      if * {
        failures := failures + 1;
        return Err(Other);
      }
      if p == [] || (p in tree && tree[p].Dir?) {
        return Err(Exist);
      }
      if Parent(p) !in tree || !tree[Parent(p)].Dir? {
        return Err(NotExist);
      }
      Put(p, File(content));
      r := Ok(());
    }

    method Put(p: Path, item: Item)
      requires IsTree(tree) && p != [] && Parent(p) in tree && tree[Parent(p)].Dir?
      requires p in tree ==> tree[p].File?
      modifies this`tree
      ensures IsTree(tree) && tree == old(tree)[p := item]
    {
      ghost var t := tree;
      tree := tree[p := item];
      forall q ensures HangsAt(tree, q) {
        assert HangsAt(t, q);
      }
    }

    method RemoveAll(p: Path) returns (r: Result<()>)
      requires IsTree(tree)
      modifies this
      ensures IsTree(tree)
      ensures r.Ok? ==> tree == Without(old(tree), p)
      ensures r.Err? ==> tree == old(tree)
      ensures failures >= old(failures) && (failures == old(failures) && p != [] ==> r.Ok?)
      ensures r.Err? && r.error == NotExist ==> p !in tree
    {
      if * {
        failures := failures + 1;
        return Err(Other);
      }
      if p == [] {
        return Err(Other);
      }
      ghost var t := tree;
      tree := Without(tree, p);
      forall q ensures HangsAt(tree, q) {
        assert HangsAt(t, q);
        if q in tree && q != [] {
          assert Parent(q) + [Last(q)] == q;
        }
      }
      r := Ok(());
    }
  }

  // ---------- What a copy is ----------

  ghost predicate SameAt(t: Tree, t': Tree, q: Path) {
    (q in t' <==> q in t) && (q in t' ==> t'[q] == t[q])
  }

  /** At or below dst is what was at the same place below src (or src alone, if not deep); elsewhere, nothing new. */
  ghost predicate CopiedAt(t: Tree, t': Tree, src: Path, dst: Path, deep: bool, q: Path) {
    if dst <= q then
      var o := Rebase(q, dst, src);
      (q in t' <==> o in t && (deep || q == dst)) && (q in t' ==> t'[q] == t[o])
    else SameAt(t, t', q)
  }

  ghost predicate IsCopy(t: Tree, t': Tree, src: Path, dst: Path, deep: bool) {
    forall q {:trigger CopiedAt(t, t', src, dst, deep, q)} :: CopiedAt(t, t', src, dst, deep, q)
  }

  ghost predicate OnlyBelow(t: Tree, t': Tree, dst: Path) {
    forall q {:trigger SameAt(t, t', q)} | !(dst <= q) :: SameAt(t, t', q)
  }

  lemma NothingBelowBoth(src: Path, dst: Path, q: Path)
    requires Apart(src, dst) && src <= q
    ensures !(dst <= q)
  {
  }

  /** The children of a directory so far: those in `done`. */
  ghost predicate PartialAt(t: Tree, t': Tree, src: Path, dst: Path, done: seq<Component>, q: Path) {
    if q == dst then q in t' && t'[q].Dir?
    else if dst <= q then
      var o := Rebase(q, dst, src);
      (q in t' <==> o in t && q[|dst|] in done) && (q in t' ==> t'[q] == t[o])
    else SameAt(t, t', q)
  }

  ghost predicate IsPartial(t: Tree, t': Tree, src: Path, dst: Path, done: seq<Component>) {
    forall q {:trigger PartialAt(t, t', src, dst, done, q)} :: PartialAt(t, t', src, dst, done, q)
  }

  lemma ChildrenApart(src: Path, dst: Path, c: Component)
    requires Apart(src, dst)
    ensures Apart(src + [c], dst + [c])
  {
    NothingBelowBoth(src, dst, src + [c]);
    NothingBelowBoth(dst, src, dst + [c]);
  }

  lemma PartialStep(t: Tree, t1: Tree, t2: Tree, src: Path, dst: Path, done: seq<Component>, c: Component)
    requires Apart(src, dst) && IsPartial(t, t1, src, dst, done) && IsCopy(t1, t2, src + [c], dst + [c], true) && c !in done
    ensures IsPartial(t, t2, src, dst, done + [c])
  {
    forall q ensures PartialAt(t, t2, src, dst, done + [c], q) {
      assert PartialAt(t, t1, src, dst, done, q);
      assert CopiedAt(t1, t2, src + [c], dst + [c], true, q);
      if dst + [c] <= q {
        var o := Rebase(q, dst, src);
        assert q[|dst|] == c && Rebase(q, dst + [c], src + [c]) == o;
        NothingBelowBoth(src, dst, o);
        assert PartialAt(t, t1, src, dst, done, o);
      } else if dst < q {
        assert q[|dst|] == c ==> dst + [c] <= q;
      }
    }
  }

  lemma PartialDone(t: Tree, t': Tree, src: Path, dst: Path, names: seq<Component>)
    requires IsTree(t) && src in t && t[src].Dir? && IsPartial(t, t', src, dst, names)
    requires forall c: Component | src + [c] in t :: c in names
    ensures IsCopy(t, t', src, dst, true)
  {
    forall q ensures CopiedAt(t, t', src, dst, true, q) {
      assert PartialAt(t, t', src, dst, names, q);
      if q == dst {
        assert Rebase(q, dst, src) == src;
      } else if dst <= q {
        var o := Rebase(q, dst, src);
        if o in t {
          PrefixIn(t, o, |src| + 1);
          assert o[..|src| + 1] == src + [q[|dst|]];
        }
      }
    }
  }

  lemma PrefixIn(t: Tree, p: Path, k: nat)
    requires IsTree(t) && p in t && k <= |p|
    ensures p[..k] in t && (k < |p| ==> t[p[..k]].Dir?)
  {
    forall q | q in t && q != [] ensures Parent(q) in t && t[Parent(q)].Dir? {
      assert HangsAt(t, q);
    }
    AncestorsStand(q => q in t, q => q in t && t[q].Dir?, p, k);
  }

  /** A new directory where nothing is any more. */
  lemma CopyBegins(t: Tree, t': Tree, src: Path, dst: Path)
    requires IsTree(t) && src in t && t[src].Dir? && Apart(src, dst)
    requires t' == Without(t, dst)[dst := Dir]
    ensures IsPartial(t, t', src, dst, []) && IsCopy(t, t', src, dst, false)
  {
    forall q ensures PartialAt(t, t', src, dst, [], q) && CopiedAt(t, t', src, dst, false, q) {
      if q == dst {
        assert Rebase(q, dst, src) == src;
      }
    }
  }

  lemma FileCopied(t: Tree, t': Tree, src: Path, dst: Path, deep: bool)
    requires IsTree(t) && src in t && t[src].File? && Apart(src, dst)
    requires t' == Without(t, dst)[dst := t[src]]
    ensures IsCopy(t, t', src, dst, deep)
  {
    forall q ensures CopiedAt(t, t', src, dst, deep, q) {
      if q == dst {
        assert Rebase(q, dst, src) == src;
      } else if dst <= q {
        var o := Rebase(q, dst, src);
        assert o[..|src|] == src;
        if o in t {
          PrefixIn(t, o, |src|);
        }
      }
    }
  }

  /** Where nothing is, there is nothing below. */
  lemma WithoutAbsent(t: Tree, p: Path)
    requires IsTree(t) && p !in t
    ensures Without(t, p) == t
  {
    forall q | q in t ensures !(p <= q) {
      assert p <= q ==> q[..|p|] == p;
      if |p| <= |q| {
        PrefixIn(t, q, |p|);
      }
    }
  }

  // ---------- copyFiles ----------

  const CREATED := 201
  const NO_CONTENT := 204
  const FORBIDDEN := 403
  const NOT_FOUND := 404
  const CONFLICT := 409
  const PRECONDITION_FAILED := 412
  const INTERNAL_ERROR := 500

  const INFINITE_DEPTH := -1
  const TOO_DEEP: nat := 1000

  predicate Success(status: int) {
    status == CREATED || status == NO_CONTENT
  }

  /** Nothing at or below the source is too deep for the recursion that is left. */
  ghost predicate Shallow(t: Tree, src: Path, room: int) {
    forall p | p in t && src <= p :: |p| - |src| < room
  }

  /** The status of a copy with no failures, case by case; only the last case is deep in the tree. */
  ghost predicate Answers(t: Tree, src: Path, dst: Path, overwrite: bool, deep: bool, room: int, status: int)
    requires dst != []
  {
    && (status == NOT_FOUND <==> room > 0 && src !in t)
    && (status == PRECONDITION_FAILED <==> room > 0 && src in t && dst in t && !overwrite)
    && (status == CONFLICT <==> room > 0 && src in t && t[src].File? && dst !in t && !DirAt(t, Parent(dst)))
    && (status == FORBIDDEN <==> room > 0 && src in t && t[src].Dir? && dst !in t && !DirAt(t, Parent(dst)))
    && (Success(status) <==>
          room > 0 && src in t && (dst in t ==> overwrite) && DirAt(t, Parent(dst)) && (deep ==> Shallow(t, src, room)))
    && (status == INTERNAL_ERROR <==>
          room <= 0 || (src in t && (dst in t ==> overwrite) && DirAt(t, Parent(dst)) && deep && !Shallow(t, src, room)))
  }

  /** Clearing the destination leaves its parent as it is. */
  lemma ParentStays(t: Tree, dst: Path)
    requires IsTree(t) && dst != []
    ensures DirAt(Without(t, dst), Parent(dst)) <==> DirAt(t, Parent(dst))
    ensures dst in t ==> DirAt(t, Parent(dst))
  {
    assert HangsAt(t, dst);
  }

  lemma FileIsShallow(t: Tree, src: Path, room: int)
    requires IsTree(t) && src in t && t[src].File?
    ensures Shallow(t, src, room) <==> room > 0
  {
    forall p | p in t && src <= p ensures p == src {
      assert p[..|src|] == src;
      PrefixIn(t, p, |src|);
    }
  }

  /** A directory is as deep as its children and one more. */
  lemma ChildrenShallow(t: Tree, src: Path, room: int)
    requires IsTree(t) && src in t && room > 0
    ensures Shallow(t, src, room) <==> forall c: Component | src + [c] in t :: Shallow(t, src + [c], room - 1)
  {
    if Shallow(t, src, room) {
      forall c: Component, p | src + [c] in t && p in t && src + [c] <= p ensures |p| - |src + [c]| < room - 1 {
        assert p[..|src|] == (src + [c])[..|src|] == src;
      }
    }
    if forall c: Component | src + [c] in t :: Shallow(t, src + [c], room - 1) {
      forall p | p in t && src <= p ensures |p| - |src| < room {
        if p != src {
          PrefixIn(t, p, |src| + 1);
          assert p[..|src| + 1] == src + [p[|src|]];
        }
      }
    }
  }

  /** The copy changes nothing in the source, which is as deep as it was. */
  lemma SourceStays(t: Tree, t': Tree, src: Path, dst: Path, c: Component)
    requires OnlyBelow(t, t', dst) && Apart(src, dst)
    ensures forall room :: Shallow(t', src + [c], room) <==> Shallow(t, src + [c], room)
    ensures SameAt(t, t', src + [c])
  {
    forall p | src <= p ensures SameAt(t, t', p) {
      NothingBelowBoth(src, dst, p);
    }
    forall p | src + [c] <= p ensures src <= p && (p in t' <==> p in t) {
      assert p[..|src|] == (src + [c])[..|src|] == src;
      assert SameAt(t, t', p);
    }
  }

  /** The next child is still to be copied, to where nothing is yet. */
  lemma NextChild(t: Tree, t': Tree, src: Path, dst: Path, done: seq<Component>, c: Component)
    requires IsPartial(t, t', src, dst, done) && Apart(src, dst) && src + [c] in t && c !in done
    ensures src + [c] in t' && dst + [c] !in t' && dst + [c] != [] && Parent(dst + [c]) == dst && DirAt(t', dst)
    ensures forall room :: Shallow(t', src + [c], room) <==> Shallow(t, src + [c], room)
    ensures forall room | Shallow(t, src + [c], room) :: room > 0
  {
    PartialOutside(t, t', src, dst, done);
    SourceStays(t, t', src, dst, c);
    assert PartialAt(t, t', src, dst, done, dst) && PartialAt(t, t', src, dst, done, dst + [c]);
  }

  /** On success the destination is a copy of the source, with all it contains if the depth is
      infinite, and everything outside is as it was. Whatever happens, nothing outside the
      destination changes, and without leave to overwrite, nothing that is there does. When the
      file system has no failures of its own, the status is settled by what is there. */
  method CopyFiles(d: Disk, src: Path, dst: Path, overwrite: bool, depth: int, recursion: nat) returns (status: int)
    requires IsTree(d.tree) && Apart(src, dst) && recursion <= TOO_DEEP
    modifies d
    ensures IsTree(d.tree) && OnlyBelow(old(d.tree), d.tree, dst)
    ensures Success(status) ==> src in old(d.tree) && IsCopy(old(d.tree), d.tree, src, dst, depth == INFINITE_DEPTH)
    ensures Success(status) ==> (status == CREATED <==> dst !in old(d.tree))
    ensures dst in old(d.tree) && !overwrite ==> !Success(status) && d.tree == old(d.tree)
    ensures src !in old(d.tree) ==> !Success(status) && d.tree == old(d.tree)
    ensures d.failures >= old(d.failures) && dst != []
    ensures d.failures == old(d.failures) ==>
              Answers(old(d.tree), src, dst, overwrite, depth == INFINITE_DEPTH, TOO_DEEP - recursion, status)
    decreases TOO_DEEP - recursion, 0
  {
    hide Shallow;
    ghost var t := d.tree;
    ParentStays(t, dst);
    if src in t && t[src].File? {
      FileIsShallow(t, src, TOO_DEEP - recursion);
    }
    if recursion == TOO_DEEP {
      return INTERNAL_ERROR;
    }
    var srcFile := d.OpenFile(src);
    if srcFile.Err? {
      return if srcFile.error == NotExist then NOT_FOUND else INTERNAL_ERROR;
    }
    var created := false;
    var there := d.Stat(dst);
    if there.Err? {
      if there.error != NotExist {
        return FORBIDDEN;
      }
      created := true;
      WithoutAbsent(t, dst);
    } else {
      if !overwrite {
        return PRECONDITION_FAILED;
      }
      var removed := d.RemoveAll(dst);
      if removed.Err? && removed.error != NotExist {
        return FORBIDDEN;
      }
    }
    if srcFile.value.Dir? {
      var made := d.Mkdir(dst);
      if made.Err? {
        return FORBIDDEN;
      }
      CopyBegins(t, d.tree, src, dst);
      if depth == INFINITE_DEPTH {
        status := CopyChildren(d, src, dst, overwrite, recursion + 1, t);
        if status != NO_CONTENT {
          return;
        }
      }
    } else {
      var put := d.Create(dst, srcFile.value.content);
      if put.Err? {
        return if put.error == NotExist then CONFLICT else FORBIDDEN;
      }
      FileCopied(t, d.tree, src, dst, depth == INFINITE_DEPTH);
    }
    status := if created then CREATED else NO_CONTENT;
  }

  /** The loop over the children, in the tree that was there when the copy began. */
  method CopyChildren(d: Disk, src: Path, dst: Path, overwrite: bool, recursion: nat, ghost t: Tree) returns (status: int)
    requires IsTree(d.tree) && IsTree(t) && src in t && t[src].Dir? && Apart(src, dst) && recursion <= TOO_DEEP
    requires IsPartial(t, d.tree, src, dst, [])
    modifies d
    ensures d.failures >= old(d.failures)
    ensures d.failures == old(d.failures) ==> status == if Shallow(t, src, TOO_DEEP - recursion + 1) then NO_CONTENT else INTERNAL_ERROR
    ensures IsTree(d.tree) && OnlyBelow(t, d.tree, dst)
    ensures status != NO_CONTENT ==> !Success(status)
    ensures status == NO_CONTENT ==> IsCopy(t, d.tree, src, dst, true)
    decreases TOO_DEEP - recursion, 1
  {
    hide Shallow, IsPartial, OnlyBelow, IsCopy;
    PartialOutside(t, d.tree, src, dst, []);
    ChildrenShallow(t, src, TOO_DEEP - recursion + 1);
    var children := d.Readdir(src);
    if children.Err? {
      return FORBIDDEN;
    }
    var names := children.value;
    ListedBefore(t, d.tree, src, dst);
    for i := 0 to |names|
      invariant IsTree(d.tree) && OnlyBelow(t, d.tree, dst)
      invariant IsPartial(t, d.tree, src, dst, names[..i])
      invariant d.failures >= old(d.failures)
      invariant d.failures == old(d.failures) ==> forall c | c in names[..i] :: Shallow(t, src + [c], TOO_DEEP - recursion)
    {
      var c := names[i];
      ghost var t1 := d.tree;
      ChildrenApart(src, dst, c);
      NextChild(t, t1, src, dst, names[..i], c);
      var cStatus := CopyFiles(d, src + [c], dst + [c], overwrite, INFINITE_DEPTH, recursion);
      OutsideChild(t, t1, d.tree, dst, c);
      if !Success(cStatus) {
        return cStatus;
      }
      PartialStep(t, t1, d.tree, src, dst, names[..i], c);
      assert names[..i + 1] == names[..i] + [c];
    }
    assert names[..|names|] == names;
    PartialDone(t, d.tree, src, dst, names);
    status := NO_CONTENT;
  }

  lemma PartialOutside(t: Tree, t': Tree, src: Path, dst: Path, done: seq<Component>)
    requires IsPartial(t, t', src, dst, done)
    ensures OnlyBelow(t, t', dst)
  {
    forall q | !(dst <= q) ensures SameAt(t, t', q) {
      assert PartialAt(t, t', src, dst, done, q);
    }
  }

  lemma OutsideChild(t: Tree, t1: Tree, t2: Tree, dst: Path, c: Component)
    requires OnlyBelow(t, t1, dst) && OnlyBelow(t1, t2, dst + [c])
    ensures OnlyBelow(t, t2, dst)
  {
    forall q | !(dst <= q) ensures SameAt(t, t2, q) {
      assert SameAt(t, t1, q) && SameAt(t1, t2, q);
    }
  }

  /** The source still lists what it did when the copy began. */
  lemma ListedBefore(t: Tree, t': Tree, src: Path, dst: Path)
    requires OnlyBelow(t, t', dst) && Apart(src, dst)
    ensures forall c: Component :: src + [c] in t' <==> src + [c] in t
  {
    forall c: Component ensures src + [c] in t' <==> src + [c] in t {
      NothingBelowBoth(src, dst, src + [c]);
      assert SameAt(t, t', src + [c]);
    }
  }
}
