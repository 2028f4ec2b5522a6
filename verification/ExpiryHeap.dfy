/** The nodes of the lock system and the heap that orders them by expiry: byExpiry's
    Less, Swap, Push and Pop, and the sifting of container/heap written out over them. */
module ExpiryHeap {
  import opened Paths
  import opened LockTable

  class Node {
    var root: Path
    var zeroDepth: bool
    var duration: int
    var owner: string
    var token: Token
    var refCount: int
    var expiry: int
    var byExpiryIndex: int
    var held: bool

    constructor (name: Path)
      ensures root == name && token == NO_TOKEN && refCount == 0 && byExpiryIndex == -1 && !held
    {
      root := name;
      zeroDepth, duration, owner, expiry := false, 0, "", 0;
      token, refCount, byExpiryIndex, held := NO_TOKEN, 0, -1, false;
    }
  }

  // ---------- Heap order on the keys ----------

  /** j is a child of i. The order below is stated per edge. */
  predicate Edge(i: int, j: int) {
    j == 2 * i + 1 || j == 2 * i + 2
  }

  function Up(j: nat): (i: nat)
    ensures j > 0 ==> Edge(i, j)
  {
    if j == 0 then 0 else (j - 1) / 2
  }

  function Exchange<T>(s: seq<T>, i: nat, j: nat): seq<T>
    requires i < |s| && j < |s|
  {
    s[i := s[j]][j := s[i]]
  }

  /** Among the first n keys, parent and child are in order unless one of them is `hole`;
      the parent of `hole` is in order with its grandchildren there. */
  ghost predicate OrderedBut(s: seq<int>, hole: int, n: nat)
    requires n <= |s|
  {
    && (forall i, j {:trigger Edge(i, j)} | 0 <= i < j < n && Edge(i, j) && i != hole && j != hole :: s[i] <= s[j])
    && (forall i, j {:trigger Edge(i, hole), Edge(hole, j)} | 0 <= i < hole < j < n && Edge(i, hole) && Edge(hole, j) :: s[i] <= s[j])
  }

  ghost predicate BeforeChildren(s: seq<int>, h: nat, n: nat)
    requires h < n <= |s|
  {
    forall j {:trigger Edge(h, j)} | h < j < n && Edge(h, j) :: s[h] <= s[j]
  }

  ghost predicate Ordered(s: seq<int>, n: nat)
    requires n <= |s|
  {
    OrderedBut(s, -1, n)
  }

  lemma SwapUp(s: seq<int>, j: nat, n: nat)
    requires 0 < j < n <= |s|
    requires OrderedBut(s, j, n) && BeforeChildren(s, j, n) && s[j] < s[Up(j)]
    ensures OrderedBut(Exchange(s, Up(j), j), Up(j), n)
    ensures BeforeChildren(Exchange(s, Up(j), j), Up(j), n)
  {
  }

  /** A hole in order with its parent and its children is no hole. */
  lemma Settled(s: seq<int>, i: nat, n: nat)
    requires i < n <= |s| && OrderedBut(s, i, n) && BeforeChildren(s, i, n)
    requires i > 0 ==> s[Up(i)] <= s[i]
    ensures Ordered(s, n)
  {
  }

  /** The smaller child either goes up, or shows that the item precedes both children. */
  lemma SwapDown(s: seq<int>, i: nat, j: nat, n: nat)
    requires i < j < n <= |s| && Edge(i, j) && OrderedBut(s, i, n)
    requires j == 2 * i + 1 && j + 1 < n ==> s[j] <= s[j + 1]
    requires j == 2 * i + 2 ==> s[j] <= s[j - 1]
    ensures Up(j) == i
    ensures s[i] <= s[j] ==> BeforeChildren(s, i, n)
    ensures s[j] < s[i] ==> OrderedBut(Exchange(s, i, j), j, n)
  {
  }

  lemma NoChild(s: seq<int>, i: nat, n: nat)
    requires i < n <= |s| && n <= 2 * i + 1
    ensures BeforeChildren(s, i, n)
  {
  }

  /** The root of a heap is a minimum. */
  lemma {:induction false} RootIsLeast(s: seq<int>, i: nat)
    requires Ordered(s, |s|) && i < |s|
    ensures s[0] <= s[i]
    decreases i
  {
    if i > 0 {
      assert Edge(Up(i), i);
      RootIsLeast(s, Up(i));
    }
  }

  // ---------- The heap ----------

  class Heap {
    var items: seq<Node>
    ghost var keys: seq<int>
    ghost var nodes: set<Node>

    /** Every item knows its index; in particular no node occurs twice. `keys` lists the
        expiries and `nodes` is the set of items. */
    ghost predicate Indexed()
      reads this, nodes`byExpiryIndex, nodes`expiry
    {
      && |keys| == |items|
      && (forall i | 0 <= i < |items| :: items[i] in nodes && items[i].byExpiryIndex == i && items[i].expiry == keys[i])
      && (forall n | n in nodes :: 0 <= n.byExpiryIndex < |items| && items[n.byExpiryIndex] == n)
    }

    ghost predicate Valid()
      reads this, nodes`byExpiryIndex, nodes`expiry
    {
      Indexed() && Ordered(keys, |items|)
    }

    constructor ()
      ensures items == [] && nodes == {} && Valid()
    {
      items, keys, nodes := [], [], {};
    }

    predicate Less(i: nat, j: nat)
      reads this, items
      requires i < |items| && j < |items|
    {
      items[i].expiry < items[j].expiry
    }

    method Swap(i: nat, j: nat)
      requires i < |items| && j < |items| && Indexed()
      modifies this`items, this`keys, nodes`byExpiryIndex
      ensures items == Exchange(old(items), i, j)
      ensures keys == Exchange(old(keys), i, j)
      ensures Indexed()
    {
      items, keys := Exchange(items, i, j), Exchange(keys, i, j);
      items[i].byExpiryIndex := i;
      items[j].byExpiryIndex := j;
    }

    /** byExpiry.Push. */
    method Append(x: Node)
      requires Indexed() && x !in nodes
      modifies this, x`byExpiryIndex
      ensures items == old(items) + [x] && Indexed() && nodes == old(nodes) + {x}
      ensures keys == old(keys) + [x.expiry]
    {
      x.byExpiryIndex := |items|;
      items, keys, nodes := items + [x], keys + [x.expiry], nodes + {x};
    }

    /** byExpiry.Pop. */
    method DropLast() returns (x: Node)
      requires items != [] && Indexed()
      modifies this, nodes`byExpiryIndex
      ensures x == old(items)[|old(items)| - 1] && x.byExpiryIndex == -1
      ensures items == old(items)[..|old(items)| - 1] && Indexed()
      ensures nodes == old(nodes) - {x}
      ensures keys == old(keys)[..|items|]
    {
      x := items[|items| - 1];
      x.byExpiryIndex := -1;
      items, keys, nodes := items[..|items| - 1], keys[..|items| - 1], nodes - {x};
    }

    /** heap.up. */
    method SiftUp(j0: nat, ghost n: nat)
      requires j0 < n <= |items| && Indexed()
      requires OrderedBut(keys, j0, n) && BeforeChildren(keys, j0, n)
      modifies this`items, this`keys, nodes`byExpiryIndex
      ensures Indexed() && |items| == |old(items)|
      ensures Ordered(keys, n)
      ensures n < |items| ==> items[n] == old(items)[n]
    {
      var j := j0;
      while true
        invariant 0 <= j < n <= |items| && Indexed()
        invariant |items| == |old(items)| && (n < |items| ==> items[n] == old(items)[n])
        invariant OrderedBut(keys, j, n) && BeforeChildren(keys, j, n)
        decreases j
      {
        var i := if j == 0 then 0 else (j - 1) / 2;
        if i == j || !Less(j, i) {
          break;
        }
        SwapUp(keys, j, n);
        Swap(i, j);
        j := i;
      }
      Settled(keys, j, n);
    }

    /** Of the child j1 and its sibling, the one that does not come after the other. */
    method SmallerChild(j1: nat, n: nat) returns (j: nat)
      requires j1 < n <= |items| && Indexed()
      ensures (j == j1 && (j1 + 1 < n ==> keys[j1] <= keys[j1 + 1])) || (j == j1 + 1 < n && keys[j] <= keys[j1])
    {
      j := j1;
      if j1 + 1 < n && Less(j1 + 1, j1) {
        j := j1 + 1;
      }
    }

    /** One round of heap.down. */
    method DownOne(i: nat, n: nat) returns (down: bool, j: nat)
      requires i < n <= |items| && Indexed() && OrderedBut(keys, i, n)
      modifies this`items, this`keys, nodes`byExpiryIndex
      ensures Indexed() && |items| == |old(items)| && (n < |items| ==> items[n] == old(items)[n])
      ensures down ==> i < j < n && Up(j) == i && OrderedBut(keys, j, n) && keys[i] <= keys[j]
      ensures !down ==> items == old(items) && keys == old(keys) && BeforeChildren(keys, i, n)
    {
      j := i;
      down := false;
      if 2 * i + 1 >= n {
        NoChild(keys, i, n);
        return;
      }
      j := SmallerChild(2 * i + 1, n);
      SwapDown(keys, i, j, n);
      if Less(j, i) {
        Swap(i, j);
        down := true;
      }
    }

    /** heap.down, among the first n items. Reports whether the item moved. */
    method SiftDown(i0: nat, n: nat) returns (moved: bool)
      requires i0 < n <= |items| && Indexed()
      requires OrderedBut(keys, i0, n)
      modifies this`items, this`keys, nodes`byExpiryIndex
      ensures Indexed() && |items| == |old(items)|
      ensures moved ==> Ordered(keys, n)
      ensures !moved ==> OrderedBut(keys, i0, n) && BeforeChildren(keys, i0, n)
      ensures n < |items| ==> items[n] == old(items)[n]
    {
      var i := i0;
      while true
        invariant i0 <= i < n <= |items| && Indexed()
        invariant |items| == |old(items)| && (n < |items| ==> items[n] == old(items)[n])
        invariant OrderedBut(keys, i, n)
        invariant i > i0 ==> keys[Up(i)] <= keys[i]
        decreases n - i
      {
        var down, j := DownOne(i, n);
        if !down {
          break;
        }
        i := j;
      }
      moved := i > i0;
      if moved {
        Settled(keys, i, n);
      }
    }

    /** heap.Push. */
    method Push(x: Node)
      requires Valid() && x !in nodes
      modifies this, nodes`byExpiryIndex, x`byExpiryIndex
      ensures Valid() && nodes == old(nodes) + {x}
    {
      Append(x);
      SiftUp(|items| - 1, |items|);
    }

    /** The first part of heap.Remove: exchange the item with the last one, which then goes
        down, or else up. */
    method MoveToEnd(i: nat)
      requires Valid() && i < |items| - 1
      modifies this`items, this`keys, nodes`byExpiryIndex
      ensures Indexed() && |items| == |old(items)|
      ensures items[|items| - 1] == old(items)[i] && Ordered(keys, |items| - 1)
    {
      var n := |items| - 1;
      Swap(i, n);
      var moved := SiftDown(i, n);
      if !moved {
        SiftUp(i, n);
      }
    }

    /** heap.Remove. */
    method Remove(i: nat)
      requires Valid() && i < |items|
      modifies this, nodes`byExpiryIndex
      ensures Valid() && nodes == old(nodes) - {old(items)[i]} && |items| == |old(items)| - 1
      ensures old(items)[i].byExpiryIndex == -1
    {
      var n := |items| - 1;
      if n != i {
        MoveToEnd(i);
      }
      var y := DropLast();
    }
  }
}
