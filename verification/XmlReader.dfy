/** The XML decoder as an object: the stack of records is a linked list whose nodes are recycled
    through a free list, and each method does what the decoder's functions say. */
module XmlReader {
  import opened Wrappers
  import opened XmlTypes
  import opened XmlNames
  import R = XmlRaw
  import D = XmlDecoder
  import XmlFence
  import U = XmlUsers

  datatype Kind = KStart | KNs | KEOF

  class Node {
    var next: Node?
    var kind: Kind
    var name: Name
    var ok: bool

    constructor ()
    {
      next, kind, name, ok := null, KEOF, Name([], []), false;
    }

    function Frame(): D.Frame
      reads this`kind, this`name, this`ok
    {
      match kind
      case KStart => D.StkStart(name)
      case KNs => D.StkNs(name.local, name.space, ok)
      case KEOF => D.StkEOF
    }
  }

  function First(nodes: seq<Node>, end: Node?): Node? {
    if nodes == [] then end else nodes[0]
  }

  /** The nodes are linked in this order, from the head on and up to `end`, each once. */
  ghost predicate List(head: Node?, nodes: seq<Node>, end: Node?)
    reads nodes`next
    decreases |nodes|
  {
    if nodes == [] then head == end
    else head == nodes[0] && nodes[0] !in nodes[1..] && List(nodes[0].next, nodes[1..], end)
  }

  ghost predicate Disjoint(a: seq<Node>, b: seq<Node>) {
    forall n | n in a :: n !in b
  }

  lemma {:induction false} ListAppend(head: Node?, a: seq<Node>, b: seq<Node>, end: Node?)
    ensures List(head, a + b, end) <==> List(head, a, First(b, end)) && List(First(b, end), b, end) && Disjoint(a, b)
    decreases |a|
  {
    if a == [] {
      assert a + b == b;
      assert List(head, b, end) ==> head == First(b, end);
    } else {
      assert (a + b)[1..] == a[1..] + b;
      ListAppend(a[0].next, a[1..], b, end);
      assert Disjoint(a, b) <==> a[0] !in b && Disjoint(a[1..], b);
    }
  }

  ghost function Frames(nodes: seq<Node>): (r: seq<D.Frame>)
    reads nodes`kind, nodes`name, nodes`ok
    ensures |r| == |nodes|
  {
    if nodes == [] then [] else [nodes[0].Frame()] + Frames(nodes[1..])
  }

  lemma {:induction false} FramesAppend(a: seq<Node>, b: seq<Node>)
    ensures Frames(a + b) == Frames(a) + Frames(b)
  {
    if a == [] {
      assert a + b == b;
    } else {
      assert (a + b)[1..] == a[1..] + b;
      FramesAppend(a[1..], b);
    }
  }

  /** A list taken apart behind one of its nodes. */
  lemma CutBehind(head: Node?, a: seq<Node>, start: Node, b: seq<Node>)
    requires List(head, a + [start] + b, null)
    ensures List(head, a, start) && start.next == First(b, null) && List(First(b, null), b, null)
    ensures start !in a && start !in b && Disjoint(a, b)
  {
    ListAppend(head, a + [start], b, null);
    ListAppend(head, a, [start], First(b, null));
    assert start in a + [start] && forall n | n in a :: n in a + [start];
  }

  /** And put together with another node in between. */
  lemma LinkUp(head: Node?, a: seq<Node>, start: Node, s: Node, b: seq<Node>)
    requires List(head, a, start) && start.next == s && s.next == First(b, null) && List(First(b, null), b, null)
    requires start !in a && start !in b && Disjoint(a, b) && s !in a && s != start && s !in b
    ensures List(head, a + [start] + [s] + b, null)
  {
    ListAppend(head, a, [start], s);
    assert Disjoint(a + [start], [s]) && Disjoint(a + [start] + [s], b);
    assert List(s, [s], First(b, null)) by {
      assert [s][1..] == [];
    }
    assert List(start, [start], s) by {
      assert [start][1..] == [];
    }
    ListAppend(head, a + [start], [s], First(b, null));
    ListAppend(head, a + [start] + [s], b, null);
  }

  lemma FramesFenced(a: seq<Node>, s: Node, b: seq<Node>, d: D.Decoder)
    requires d.stk == Frames(a + b) && |a| == D.ElementEnd(d.stk) && s.kind == KEOF && D.InOpenElement(d.stk)
    ensures Frames(a + [s] + b) == D.PushEOF(d).stk
  {
    FramesAppend(a, b);
    FramesAppend(a, [s]);
    FramesAppend(a + [s], b);
    assert d.stk[..|a|] == Frames(a) && d.stk[|a|..] == Frames(b);
  }

  /** The nodes in `a` open no element; what is left of the list begins at `start`. */
  ghost predicate Searching(nodes: seq<Node>, a: seq<Node>, rest: seq<Node>, start: Node?)
    reads nodes, a, rest
  {
    && nodes == a + rest && rest != [] && List(start, rest, null) && D.InOpenElement(Frames(rest))
    && D.ElementEnd(Frames(nodes)) == |a| + D.ElementEnd(Frames(rest))
  }

  /** A record that opens no element is passed over. */
  lemma PassOver(nodes: seq<Node>, a: seq<Node>, x: Node, rest: seq<Node>)
    requires Searching(nodes, a, [x] + rest, x) && x.kind != KStart
    ensures Searching(nodes, a + [x], rest, x.next)
  {
    var fs := Frames([x] + rest);
    assert ([x] + rest)[1..] == rest;
    assert fs == [x.Frame()] + Frames(rest);
    var i :| 0 <= i < |fs| && fs[i].StkStart?;
    assert fs[1..] == Frames(rest) && Frames(rest)[i - 1] == fs[i];
  }

  lemma Found(nodes: seq<Node>, a: seq<Node>, x: Node, rest: seq<Node>)
    requires Searching(nodes, a, [x] + rest, x) && x.kind == KStart
    ensures nodes == a + [x] + rest && List(x.next, rest, null)
    ensures D.ElementEnd(Frames(nodes)) == |a| + 1 + D.NsRun(Frames(rest))
  {
    assert ([x] + rest)[1..] == rest;
    assert Frames([x] + rest)[1..] == Frames(rest);
  }

  /** From the head of a list, the first node that opens an element. */
  method InnermostStart(head: Node?, ghost nodes: seq<Node>) returns (start: Node, ghost a: seq<Node>, ghost b: seq<Node>)
    requires List(head, nodes, null) && D.InOpenElement(Frames(nodes))
    ensures nodes == a + [start] + b && List(start.next, b, null)
    ensures D.ElementEnd(Frames(nodes)) == |a| + 1 + D.NsRun(Frames(b))
  {
    start := head;
    a, b := [], nodes[1..];
    assert [start] + b == nodes && a + nodes == nodes;
    while start.kind != KStart
      invariant Searching(nodes, a, [start] + b, start)
      decreases |b|
    {
      PassOver(nodes, a, start, b);
      a := a + [start];
      start := start.next;
      assert [start] + b[1..] == b;
      b := b[1..];
    }
    Found(nodes, a, start, b);
  }

  /** The records of the element up to `start`; those in b come behind. */
  ghost predicate AtRecord(nodes: seq<Node>, a: seq<Node>, start: Node, b: seq<Node>)
    reads nodes, a, start, b
  {
    && nodes == a + [start] + b && List(start.next, b, null)
    && D.ElementEnd(Frames(nodes)) == |a| + 1 + D.NsRun(Frames(b))
  }

  lemma NextRecord(nodes: seq<Node>, a: seq<Node>, start: Node, b: seq<Node>)
    requires AtRecord(nodes, a, start, b) && b != [] && b[0].kind == KNs
    ensures start.next == b[0] && AtRecord(nodes, a + [start], b[0], b[1..])
  {
    assert b == [b[0]] + b[1..];
    assert Frames(b)[1..] == Frames(b[1..]) && Frames(b)[0].StkNs?;
    RegroupNodes(a, start, b);
  }

  lemma RegroupNodes(a: seq<Node>, x: Node, b: seq<Node>)
    requires b != []
    ensures a + [x] + b == a + [x] + [b[0]] + b[1..]
  {
  }

  lemma LastRecord(nodes: seq<Node>, a: seq<Node>, start: Node, b: seq<Node>)
    requires AtRecord(nodes, a, start, b) && (b == [] || b[0].kind != KNs)
    ensures |a| + 1 == D.ElementEnd(Frames(nodes))
  {
    assert b != [] ==> !Frames(b)[0].StkNs?;
  }

  /** The last node of the innermost open element: its start, or the last of its records. */
  method ElementEnd(head: Node?, ghost nodes: seq<Node>) returns (start: Node, ghost a: seq<Node>, ghost b: seq<Node>)
    requires List(head, nodes, null) && D.InOpenElement(Frames(nodes))
    ensures nodes == a + [start] + b && |a| + 1 == D.ElementEnd(Frames(nodes))
  {
    start, a, b := InnermostStart(head, nodes);
    while start.next != null && start.next.kind == KNs
      invariant AtRecord(nodes, a, start, b)
      decreases |b|
    {
      NextRecord(nodes, a, start, b);
      a, start, b := a + [start], start.next, b[1..];
    }
    LastRecord(nodes, a, start, b);
  }

  class Decoder {
    var stk: Node?
    var free: Node?
    var ns: map<Str, Str>
    var needClose: bool
    var toClose: Name
    const tables: Tables
    var input: Str
    var tail: D.Error
    var err: Option<D.Error>
    /** The nodes on the stack, and on the free list. */
    ghost var live: seq<Node>
    ghost var spare: seq<Node>
    ghost var nodes: set<Node>

    /** Stack and free list are two lists without a node in common. */
    ghost predicate Valid()
      reads this`stk, this`free, this`live, this`spare, this`nodes, live`next, spare`next
    {
      && List(stk, live, null) && List(free, spare, null)
      && Disjoint(live, spare)
      && (forall n | n in live :: n in nodes) && (forall n | n in spare :: n in nodes)
    }

    ghost function Value(): D.Decoder
      reads this, live`kind, live`name, live`ok
    {
      D.Decoder(Frames(live), ns, if needClose then [toClose] else [], input, tail, err, tables)
    }

    constructor (input: Str, tail: D.Error, tables: Tables)
      ensures Valid() && fresh(nodes) && Value() == D.Start(input, tail, tables)
    {
      stk, free, ns, needClose, toClose := null, null, map[], false, Name([], []);
      this.input, this.tail, this.tables, err := input, tail, tables, None;
      live, spare, nodes := [], [], {};
    }

    // ---------- The stack ----------

    /** A node from the free list, or a new one. */
    method Alloc() returns (s: Node)
      requires Valid()
      modifies this`free, this`spare, this`nodes
      ensures Valid() && s !in live && s !in spare && s in nodes
      ensures (s in old(nodes) || fresh(s)) && nodes == old(nodes) + {s}
    {
      if free != null {
        s := free;
        free := s.next;
        spare := spare[1..];
      } else {
        s := new Node();
        nodes := nodes + {s};
      }
    }

    method Push(kind: Kind, name: Name, ok: bool)
      requires Valid()
      modifies this`stk, this`live, this`free, this`spare, this`nodes, nodes
      ensures Valid() && fresh(nodes - old(nodes))
      ensures live != [] && live[1..] == old(live)
      ensures live[0].kind == kind && live[0].name == name && live[0].ok == ok
      ensures Frames(live[1..]) == old(Frames(live))
    {
      var s := NewRecord(kind, name, ok);
      s.next := stk;
      stk := s;
      live := [s] + live;
      assert live[1..] == old(live);
    }

    method NewRecord(kind: Kind, name: Name, ok: bool) returns (s: Node)
      requires Valid()
      modifies this`free, this`spare, this`nodes, nodes`kind, nodes`name, nodes`ok
      ensures Valid() && s !in live && s !in spare && s in nodes
      ensures (s in old(nodes) || fresh(s)) && nodes == old(nodes) + {s}
      ensures s.kind == kind && s.name == name && s.ok == ok && Frames(live) == old(Frames(live))
    {
      hide Value;
      s := Alloc();
      s.kind, s.name, s.ok := kind, name, ok;
    }

    method Pop() returns (s: Node?)
      requires Valid()
      modifies this`stk, this`live, this`free, this`spare, nodes`next
      ensures Valid() && (s == null <==> old(live) == [])
      ensures s != null ==> s == old(live)[0] && live == old(live)[1..]
      ensures s != null ==> s.Frame() == old(Frames(live))[0] && Frames(live) == old(Frames(live))[1..]
      ensures s == null ==> live == old(live)
    {
      s := stk;
      if s != null {
        stk := s.next;
        s.next := free;
        free := s;
        live, spare := live[1..], [s] + spare;
      }
    }

    /** Record the end of the innermost open element: behind its start and its records. */
    method PushEOF()
      requires Valid() && D.InOpenElement(Frames(live))
      modifies this`live, this`free, this`spare, this`nodes, nodes
      ensures Valid() && fresh(nodes - old(nodes)) && Value() == D.PushEOF(old(Value()))
    {
      hide D.PushEOF, D.InOpenElement;
      var start, a, b := ElementEnd(stk, live);
      var s := NewFence();
      Insert(start, s, a, b);
    }

    method NewFence() returns (s: Node)
      requires Valid()
      modifies this`free, this`spare, this`nodes, nodes`kind
      ensures Valid() && s !in live && s !in spare && s in nodes && fresh(nodes - old(nodes))
      ensures s.kind == KEOF && Value() == old(Value())
    {
      s := Alloc();
      s.kind := KEOF;
      assert Frames(live) == old(Frames(live));
    }

    method Insert(start: Node, s: Node, ghost a: seq<Node>, ghost b: seq<Node>)
      requires Valid() && live == a + [start] + b && s !in live && s !in spare && s in nodes
      requires s.kind == KEOF && D.InOpenElement(Frames(live)) && |a| + 1 == D.ElementEnd(Frames(live))
      modifies this`live, start`next, s`next
      ensures Valid() && Value() == D.PushEOF(old(Value()))
    {
      ghost var x := a + [start];
      FramesFenced(x, s, b, Value());
      ghost var fs := Frames(x + [s] + b);
      InsertAfter(start, s, a, b);
      assert live == x + [s] + b && Frames(live) == fs;
    }

    method InsertAfter(start: Node, s: Node, ghost a: seq<Node>, ghost b: seq<Node>)
      requires Valid() && live == a + [start] + b && s !in live && s !in spare && s in nodes
      modifies this`live, start`next, s`next
      ensures Valid() && live == a + [start] + [s] + b
    {
      CutBehind(stk, a, start, b);
      assert start in live && forall n | n in a || n in b :: n in live;
      s.next := start.next;
      start.next := s;
      assert unchanged(spare`next) && unchanged(a`next) && unchanged(b`next);
      live := a + [start] + [s] + b;
      LinkUp(stk, a, start, s, b);
    }

    method PopEOF() returns (ok: bool)
      requires Valid()
      modifies this`stk, this`live, this`free, this`spare, nodes`next
      ensures Valid() && (Value(), ok) == D.PopEOF(old(Value()))
    {
      if stk == null || stk.kind != KEOF {
        return false;
      }
      var _ := Pop();
      ok := true;
    }

    method PushElement(name: Name)
      requires Valid()
      modifies this`stk, this`live, this`free, this`spare, this`nodes, nodes
      ensures Valid() && fresh(nodes - old(nodes))
      ensures Value() == old(Value()).(stk := [D.StkStart(name)] + old(Value()).stk)
    {
      Push(KStart, name, false);
    }

    method PushNs(local: Str, url: Str, ok: bool)
      requires Valid()
      modifies this`stk, this`live, this`free, this`spare, this`nodes, nodes
      ensures Valid() && fresh(nodes - old(nodes))
      ensures Value() == old(Value()).(stk := [D.StkNs(local, url, ok)] + old(Value()).stk)
    {
      Push(KNs, Name(url, local), ok);
    }

    /** popElement, for the translated name of an end tag. */
    method PopElement(name: Name) returns (ok: bool)
      requires Valid()
      modifies this`stk, this`live, this`free, this`spare, this`ns, this`err, nodes`next
      ensures Valid()
      ensures var d, d' := old(Value()), Value();
              if d.stk == [] || d.stk[0] != D.StkStart(name) then
                !ok && d' == d.(stk := if d.stk == [] then [] else d.stk[1..], err := Some(D.Mismatch))
              else
                ok && d' == d.(stk := D.UndoNs(d.stk[1..], d.ns).0, ns := D.UndoNs(d.stk[1..], d.ns).1)
    {
      hide D.UndoNs;
      var s := Pop();
      if s == null || s.kind != KStart || s.name != name {
        err := Some(D.Mismatch);
        return false;
      }
      UndoTranslations();
      ok := true;
    }

    method UndoTranslations()
      requires Valid()
      modifies this`stk, this`live, this`free, this`spare, this`ns, nodes`next
      ensures Valid()
      ensures var (stk', ns') := D.UndoNs(old(Value()).stk, old(Value()).ns);
              Value() == old(Value()).(stk := stk', ns := ns')
    {
      while stk != null && stk.kind == KNs
        invariant Valid() && nodes == old(nodes)
        invariant D.UndoNs(Frames(live), ns) == D.UndoNs(old(Value()).stk, old(Value()).ns)
        decreases |live|
      {
        UndoOne();
      }
    }

    method UndoOne()
      requires Valid() && stk != null && stk.kind == KNs
      modifies this`stk, this`live, this`free, this`spare, this`ns, nodes`next
      ensures Valid() && nodes == old(nodes) && live == old(live)[1..]
      ensures D.UndoNs(Frames(live), ns) == D.UndoNs(old(Frames(live)), old(ns))
    {
      var s := Pop();
      if s.ok {
        ns := ns[s.name.local := s.name.space];
      } else {
        ns := ns - {s.name.local};
      }
    }

    // ---------- Tokens ----------

    function Translate(n: Name, isElementName: bool): Name
      reads this`ns
    {
      D.Translate(ns, n, isElementName)
    }

    method RawToken() returns (r: D.Result<Token>)
      requires Valid()
      modifies this`needClose, this`toClose, this`input, this`err
      ensures Valid() && (Value(), r) == D.RawToken(old(Value()))
    {
      hide R.ReadRaw, Frames;
      if err.Some? {
        return D.Err(err.value);
      }
      if needClose {
        needClose := false;
        return D.Ok(End(toClose));
      }
      if input == [] {
        err := Some(tail);
        return D.Err(tail);
      }
      var got := R.ScanRaw(tables, input);
      match got
      case Syntax =>
        err := Some(D.Malformed);
        r := D.Err(D.Malformed);
      case Ended =>
        err := Some(D.Unexpected(tail));
        r := D.Err(D.Unexpected(tail));
      case Got(raw, rest) =>
        input := rest;
        if raw.token.Start? && raw.empty {
          needClose, toClose := true, raw.token.name;
        }
        r := D.Ok(raw.token);
    }

    method Declare(attrs: seq<Attr>)
      requires Valid()
      modifies this`stk, this`live, this`free, this`spare, this`nodes, this`ns, nodes
      ensures Valid() && fresh(nodes - old(nodes))
      ensures var (stk', ns') := D.DeclareAll(old(Value()).stk, old(Value()).ns, attrs);
              Value() == old(Value()).(stk := stk', ns := ns')
    {
      assert attrs[0..] == attrs;
      for i := 0 to |attrs|
        invariant Valid() && fresh(nodes - old(nodes))
        invariant D.DeclareAll(Frames(live), ns, attrs[i..]) == D.DeclareAll(old(Value()).stk, old(Value()).ns, attrs)
      {
        assert attrs[i..][0] == attrs[i] && attrs[i..][1..] == attrs[i + 1..];
        if D.Declares(attrs[i]) {
          DeclareOne(D.DeclaredPrefix(attrs[i]), attrs[i].value);
        }
      }
    }

    method DeclareOne(q: Str, url: Str)
      requires Valid()
      modifies this`stk, this`live, this`free, this`spare, this`nodes, this`ns, nodes
      ensures Valid() && fresh(nodes - old(nodes))
      ensures Frames(live) == D.PushNs(old(Frames(live)), old(ns), q) && ns == old(ns)[q := url]
    {
      PushNs(q, Get(ns, q), q in ns);
      ns := ns[q := url];
    }

    method TranslateAttrs(attrs: seq<Attr>) returns (r: seq<Attr>)
      ensures r == D.TranslateAttrs(ns, attrs)
    {
      r := [];
      assert attrs[0..] == attrs;
      for i := 0 to |attrs|
        invariant D.TranslateAttrs(ns, attrs) == r + D.TranslateAttrs(ns, attrs[i..])
      {
        assert attrs[i..][0] == attrs[i] && attrs[i..][1..] == attrs[i + 1..];
        r := r + [attrs[i].(name := Translate(attrs[i].name, false))];
      }
    }

    method StartElement(name: Name, attrs: seq<Attr>) returns (t: Token)
      requires Valid()
      modifies this`stk, this`live, this`free, this`spare, this`nodes, this`ns, nodes
      ensures Valid() && fresh(nodes - old(nodes)) && (Value(), t) == D.StartElement(old(Value()), name, attrs)
    {
      Declare(attrs);
      var name' := Translate(name, true);
      var attrs' := TranslateAttrs(attrs);
      PushElement(name');
      t := Start(name', attrs');
    }

    /** Token: translations in a start tag are declared before its names are translated. */
    method Token() returns (r: D.Result<Token>)
      requires Valid()
      modifies this, nodes
      ensures Valid() && fresh(nodes - old(nodes)) && (Value(), r) == D.NextToken(old(Value()))
    {
      if stk != null && stk.kind == KEOF {
        return D.Err(D.EOF);
      }
      r := RawToken();
      if r.Err? {
        return;
      }
      match r.value
      case Start(name, attrs) =>
        var t := StartElement(name, attrs);
        r := D.Ok(t);
      case End(name) =>
        var name' := Translate(name, true);
        var ok := PopElement(name');
        r := if ok then D.Ok(End(name')) else D.Err(D.Mismatch);
      case Other(_) =>
    }

    /** Skip, which calls itself for the elements inside. */
    method Skip() returns (e: Option<D.Error>)
      requires Valid()
      modifies this, nodes
      ensures Valid() && fresh(nodes - old(nodes)) && (Value(), e) == D.Skip(old(Value()))
      decreases D.Left(Value())
    {
      hide D.NextToken, D.Left;
      while true
        invariant Valid() && fresh(nodes - old(nodes))
        invariant D.Skip(Value()) == D.Skip(old(Value())) && D.Left(Value()) <= D.Left(old(Value()))
        decreases D.Left(Value())
      {
        ghost var d := Value();
        var t := Token();
        if t.Err? {
          return Some(t.error);
        }
        D.TokenShortens(d);
        match t.value
        case Start(_, _) =>
          e := Skip();
          if e.Some? {
            return;
          }
        case End(_) =>
          return None;
        case Other(_) =>
      }
    }

    /** unmarshalInterface, for a user that reads k tokens, or up to the first error, and then
        reports a failure or not. */
    method UnmarshalInterface(k: nat, fails: bool) returns (r: XmlFence.Unmarshalled)
      requires Valid() && D.InOpenElement(Frames(live))
      modifies this, nodes
      ensures Valid() && fresh(nodes - old(nodes)) && (Value(), r) == XmlFence.UnmarshalInterface(old(Value()), k, fails)
    {
      hide D.NextToken, D.PushEOF;
      PushEOF();
      ReadTokens(k);
      var ok := PopEOF();
      r := if fails then XmlFence.UserError else if ok then XmlFence.Fine else XmlFence.NotConsumed;
    }

    /** unmarshalInterface, for a user that reads, skips and has children unmarshalled until an
        error, each child behind a fence of its own. */
    method Unmarshal(uses: U.Uses, fails: bool) returns (r: XmlFence.Unmarshalled)
      requires Valid() && D.InOpenElement(Frames(live))
      modifies this, nodes
      ensures Valid() && fresh(nodes - old(nodes)) && (Value(), r) == U.Unmarshal(old(Value()), uses, fails)
      decreases uses, 2
    {
      hide D.InOpenElement, D.PushEOF;
      PushEOF();
      var ok := UseAll(uses);
      var popped := PopEOF();
      r := if fails || !ok then XmlFence.UserError else if popped then XmlFence.Fine else XmlFence.NotConsumed;
    }

    method UseAll(uses: U.Uses) returns (ok: bool)
      requires Valid()
      modifies this, nodes
      ensures Valid() && fresh(nodes - old(nodes)) && (Value(), ok) == U.UseAll(old(Value()), uses)
      decreases uses, 1
    {
      match uses
      case NoMore => ok := true;
      case Do(use, more) =>
        ok := UseOne(use);
        if ok {
          ok := UseAll(more);
        }
    }

    method UseOne(use: U.Use) returns (ok: bool)
      requires Valid()
      modifies this, nodes
      ensures Valid() && fresh(nodes - old(nodes)) && (Value(), ok) == U.UseOne(old(Value()), use)
      decreases use, 0
    {
      match use
      case ReadToken =>
        var t := Token();
        ok := t.Ok?;
      case SkipElement =>
        var e := Skip();
        ok := e.None?;
      case Child(uses, fails) =>
        ghost var d := Value();
        var t := Token();
        ok := t.Ok?;
        if t.Ok? && t.value.Start? {
          U.StartIsOpen(d);
          var r := Unmarshal(uses, fails);
          ok := r == XmlFence.Fine;
        }
    }

    method ReadTokens(k: nat)
      requires Valid()
      modifies this, nodes
      ensures Valid() && fresh(nodes - old(nodes)) && Value() == XmlFence.ReadSome(old(Value()), k).0
    {
      hide D.NextToken;
      var n := k;
      while n > 0
        invariant Valid() && fresh(nodes - old(nodes))
        invariant XmlFence.ReadSome(Value(), n).0 == XmlFence.ReadSome(old(Value()), k).0
      {
        var t := Token();
        if t.Err? {
          return;
        }
        n := n - 1;
      }
    }
  }
}
