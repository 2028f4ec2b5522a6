/** The loop of Patch over the dead properties of an entry. */
module DeadProps {
  import opened Wrappers

  datatype PropName = PropName(space: string, local: string)

  /** A property of a PROPPATCH request; `content` stands for what is marshalled with its name. */
  datatype Prop = Prop(name: PropName, content: string)

  datatype Proppatch = Proppatch(remove: bool, props: seq<Prop>)

  type Props = map<string, string>

  /** What the property is marshalled to; None if that fails. */
  type Marshal = Prop -> Option<string>

  /** The key an entry keeps the property under. */
  function Key(n: PropName): string {
    n.space + ":" + n.local
  }

  // ---------- Keys ----------

  /** The space of n goes on where that of m ends, up to a colon in the local name of m. */
  predicate GoesOn(m: PropName, n: PropName, t: string) {
    n.space == m.space + ":" + t && m.local == t + ":" + n.local
  }

  lemma GoingOnMeets(m: PropName, n: PropName, t: string)
    requires GoesOn(m, n, t)
    ensures Key(m) == Key(n) && m != n && ':' in m.local && ':' in n.space
  {
    assert m.local[|t|] == ':' && n.space[|m.space|] == ':';
    assert m.space + ":" + (t + ":" + n.local) == m.space + ":" + t + ":" + n.local;
    assert |n.space| > |m.space|;
  }

  /** Different properties share a key exactly when the space of one goes on with a colon and with
      what the local name of the other has before one of its colons. */
  lemma KeysMeetExactly(m: PropName, n: PropName)
    requires |m.space| <= |n.space|
    ensures Key(m) == Key(n) && m != n <==> exists t :: GoesOn(m, n, t)
  {
    if t :| GoesOn(m, n, t) {
      GoingOnMeets(m, n, t);
    }
    if Key(m) == Key(n) {
      var s, i, j := Key(m), |m.space|, |n.space|;
      assert m.space == s[..i] && n.space == s[..j] && s[i] == ':' && s[j] == ':';
      assert m.local == s[i + 1..] && n.local == s[j + 1..];
      if i < j {
        var t := s[i + 1..j];
        assert n.space == m.space + ":" + t && m.local == t + ":" + n.local;
        assert GoesOn(m, n, t);
      }
    }
  }

  /** Properties whose local names have no colon share a key only if they have the same name. */
  lemma KeyInjective(m: PropName, n: PropName)
    requires ':' !in m.local && ':' !in n.local
    ensures Key(m) == Key(n) <==> m == n
  {
    var a, b := if |m.space| <= |n.space| then m else n, if |m.space| <= |n.space| then n else m;
    KeysMeetExactly(a, b);
    forall t ensures !GoesOn(a, b, t) {
      if GoesOn(a, b, t) {
        GoingOnMeets(a, b, t);
      }
    }
  }

  /** There is another name with the same key exactly when there is a colon in the name; and one
      with a longer space exactly when there is one in its local part. */
  lemma KeyIsSharedExactly(m: PropName)
    ensures (exists n :: n != m && Key(n) == Key(m)) <==> ':' in m.space || ':' in m.local
    ensures (exists n: PropName :: |n.space| > |m.space| && Key(n) == Key(m)) <==> ':' in m.local
  {
    if ':' in m.local {
      var i :| 0 <= i < |m.local| && m.local[i] == ':';
      var n := PropName(m.space + ":" + m.local[..i], m.local[i + 1..]);
      assert GoesOn(m, n, m.local[..i]);
      GoingOnMeets(m, n, m.local[..i]);
    }
    if ':' in m.space {
      var i :| 0 <= i < |m.space| && m.space[i] == ':';
      var n := PropName(m.space[..i], m.space[i + 1..] + ":" + m.local);
      assert GoesOn(n, m, m.space[i + 1..]);
      GoingOnMeets(n, m, m.space[i + 1..]);
    }
    forall n | n != m && Key(n) == Key(m) ensures if |m.space| <= |n.space| then ':' in m.local && |n.space| > |m.space| else ':' in m.space {
      if |m.space| <= |n.space| {
        KeysMeetExactly(m, n);
        var t :| GoesOn(m, n, t);
        GoingOnMeets(m, n, t);
      } else {
        KeysMeetExactly(n, m);
        var t :| GoesOn(n, m, t);
        GoingOnMeets(n, m, t);
      }
    }
  }

  /** A client that uses the name space DAV::a can set the property a:b of DAV: without naming it. */
  lemma KeysCollide(a: string, b: string)
    ensures Key(PropName("DAV:", a + ":" + b)) == Key(PropName("DAV:" + ":" + a, b))
    ensures PropName("DAV:", a + ":" + b) != PropName("DAV:" + ":" + a, b)
  {
    GoingOnMeets(PropName("DAV:", a + ":" + b), PropName("DAV:" + ":" + a, b), a);
  }

  // ---------- The edits ----------

  datatype Edit = Edit(prop: Prop, remove: bool)

  function EditsOfOne(patch: Proppatch): seq<Edit> {
    seq(|patch.props|, i requires 0 <= i < |patch.props| => Edit(patch.props[i], patch.remove))
  }

  /** The edits in the order of the loops. */
  function EditsOf(patches: seq<Proppatch>): seq<Edit> {
    if patches == [] then [] else EditsOfOne(patches[0]) + EditsOf(patches[1..])
  }

  /** The edits of patch number i come after those of the patches before it, one for each of its
      properties in order, and remove or set as the patch says. */
  lemma {:induction false} EditsInOrder(patches: seq<Proppatch>, i: nat, j: nat)
    requires i < |patches| && j < |patches[i].props|
    ensures var k := |EditsOf(patches[..i])| + j;
            k < |EditsOf(patches)| && EditsOf(patches)[k] == Edit(patches[i].props[j], patches[i].remove)
    ensures |EditsOf(patches[..i + 1])| == |EditsOf(patches[..i])| + |patches[i].props|
  {
    var rest := patches[1..];
    assert i > 0 ==> patches[..i][0] == patches[0] && patches[..i][1..] == rest[..i - 1];
    assert patches[..i + 1][0] == patches[0] && patches[..i + 1][1..] == rest[..i];
    if i > 0 {
      EditsInOrder(rest, i - 1, j);
    }
  }

  /** A property that is set must be marshalled. */
  predicate Fails(e: Edit, marshal: Marshal) {
    !e.remove && marshal(e.prop).None?
  }

  /** One round of the inner loop. */
  function Edited(props: Props, e: Edit, marshal: Marshal): Props
    requires !Fails(e, marshal)
  {
    if e.remove then props - {Key(e.prop.name)} else props[Key(e.prop.name) := marshal(e.prop).value]
  }

  /** The map after the edits up to the first that fails, and whether none does. */
  function Patched(props: Props, edits: seq<Edit>, marshal: Marshal): (Props, bool)
    decreases |edits|
  {
    if edits == [] then (props, true)
    else if Fails(edits[0], marshal) then (props, false)
    else Patched(Edited(props, edits[0], marshal), edits[1..], marshal)
  }

  /** What the last edit of the key leaves, if there is one: nothing, or what was set. */
  function LastEdit(edits: seq<Edit>, key: string, marshal: Marshal): Option<Option<string>> {
    if edits == [] then None
    else
      var e := edits[|edits| - 1];
      if Key(e.prop.name) == key then Some(if e.remove then None else marshal(e.prop))
      else LastEdit(edits[..|edits| - 1], key, marshal)
  }

  /** Edits can be made in two goes. */
  lemma {:induction false} PatchedAppend(props: Props, a: seq<Edit>, b: seq<Edit>, marshal: Marshal)
    ensures var (props', ok) := Patched(props, a, marshal);
            Patched(props, a + b, marshal) == if ok then Patched(props', b, marshal) else (props', false)
    decreases |a|
  {
    if a == [] {
      assert a + b == b;
    } else {
      assert (a + b)[0] == a[0] && (a + b)[1..] == a[1..] + b;
      if !Fails(a[0], marshal) {
        PatchedAppend(Edited(props, a[0], marshal), a[1..], b, marshal);
      }
    }
  }

  lemma PatchedSnoc(props: Props, edits: seq<Edit>, marshal: Marshal)
    requires edits != []
    ensures var e, (props', ok) := edits[|edits| - 1], Patched(props, edits[..|edits| - 1], marshal);
            Patched(props, edits, marshal) == if !ok || Fails(e, marshal) then (props', false) else (Edited(props', e, marshal), true)
  {
    var e, before := edits[|edits| - 1], edits[..|edits| - 1];
    assert edits == before + [e] && [e][1..] == [];
    PatchedAppend(props, before, [e], marshal);
  }

  /** How many edits are made. */
  function Made(edits: seq<Edit>, marshal: Marshal): (k: nat)
    ensures k <= |edits| && (forall i | 0 <= i < k :: !Fails(edits[i], marshal))
    ensures k < |edits| ==> Fails(edits[k], marshal)
  {
    if edits == [] || Fails(edits[0], marshal) then 0 else 1 + Made(edits[1..], marshal)
  }

  /** After the loops each property is as the last edit of its key left it that was made, and a
      property that was not edited is as it was read; all edits are made, up to the first that
      sets a property that cannot be marshalled. */
  lemma {:induction false} PatchedExactly(props: Props, edits: seq<Edit>, marshal: Marshal, key: string)
    ensures var (r, ok) := Patched(props, edits, marshal);
            && (ok <==> Made(edits, marshal) == |edits|)
            && match LastEdit(edits[..Made(edits, marshal)], key, marshal)
               case None => (key in r <==> key in props) && (key in props ==> r[key] == props[key])
               case Some(None) => key !in r
               case Some(Some(x)) => key in r && r[key] == x
    decreases |edits|
  {
    if edits != [] {
      var n := |edits| - 1;
      PatchedExactly(props, edits[..n], marshal, key);
      PatchedSnoc(props, edits, marshal);
      MadeSnoc(edits, marshal);
      assert edits[..n + 1] == edits;
      if Made(edits[..n], marshal) == n {
        assert edits[..n][..n] == edits[..n];
      } else {
        var k := Made(edits[..n], marshal);
        assert edits[..n][..k] == edits[..k];
      }
    }
  }

  lemma {:induction false} MadeSnoc(edits: seq<Edit>, marshal: Marshal)
    requires edits != []
    ensures var n := |edits| - 1;
            Made(edits, marshal) == if Made(edits[..n], marshal) < n then Made(edits[..n], marshal) else if Fails(edits[n], marshal) then n else n + 1
  {
    if |edits| > 1 && !Fails(edits[0], marshal) {
      MadeSnoc(edits[1..], marshal);
      assert edits[1..][..|edits| - 2] == edits[..|edits| - 1][1..];
    }
  }

  /** The edits that are made leave what the loops leave. */
  lemma {:induction false} MadeIsPatched(props: Props, edits: seq<Edit>, marshal: Marshal)
    ensures Patched(props, edits[..Made(edits, marshal)], marshal) == (Patched(props, edits, marshal).0, true)
    decreases |edits|
  {
    if edits != [] && !Fails(edits[0], marshal) {
      MadeIsPatched(Edited(props, edits[0], marshal), edits[1..], marshal);
      assert edits[..Made(edits, marshal)][1..] == edits[1..][..Made(edits[1..], marshal)];
    }
  }

  // ---------- The loops ----------

  predicate NamesOf(done: seq<PropName>, edits: seq<Edit>) {
    |done| == |edits| && forall i | 0 <= i < |done| :: done[i] == edits[i].prop.name
  }

  lemma NamesAppend(done: seq<PropName>, more: seq<PropName>, a: seq<Edit>, b: seq<Edit>)
    requires NamesOf(done, a) && NamesOf(more, b)
    ensures NamesOf(done + more, a + b)
  {
  }

  lemma Regroup(a: seq<Edit>, b: seq<Edit>, c: seq<Edit>)
    ensures a + (b + c) == a + b + c
  {
  }

  method EditOne(props0: Props, patch: Proppatch, marshal: Marshal) returns (props: Props, ok: bool, done: seq<PropName>)
    ensures (props, ok) == Patched(props0, EditsOfOne(patch), marshal)
    ensures ok ==> NamesOf(done, EditsOfOne(patch))
  {
    props, done := props0, [];
    ghost var all := EditsOfOne(patch);
    assert all[0..] == all;
    for j := 0 to |patch.props|
      invariant Patched(props0, all, marshal) == Patched(props, all[j..], marshal)
      invariant NamesOf(done, all[..j])
    {
      var p := patch.props[j];
      assert all[j..][0] == all[j] == Edit(p, patch.remove) && all[j..][1..] == all[j + 1..];
      done := done + [p.name];
      if patch.remove {
        props := props - {Key(p.name)};
      } else {
        var x := marshal(p);
        if x.None? {
          ok := false;
          return;
        }
        props := props[Key(p.name) := x.value];
      }
    }
    assert all[..|all|] == all;
    ok := true;
  }

  /** The loops of Patch; the map they edit stays edited when one fails. */
  method EditProps(props0: Props, patches: seq<Proppatch>, marshal: Marshal) returns (props: Props, ok: bool, done: seq<PropName>)
    ensures (props, ok) == Patched(props0, EditsOf(patches), marshal)
    ensures ok ==> NamesOf(done, EditsOf(patches))
  {
    props, done := props0, [];
    ghost var edits: seq<Edit> := [];
    assert patches[0..] == patches && [] + EditsOf(patches) == EditsOf(patches);
    for i := 0 to |patches|
      invariant Patched(props0, EditsOf(patches), marshal) == Patched(props, EditsOf(patches[i..]), marshal)
      invariant EditsOf(patches) == edits + EditsOf(patches[i..]) && NamesOf(done, edits)
    {
      assert patches[i..][0] == patches[i] && patches[i..][1..] == patches[i + 1..];
      PatchedAppend(props, EditsOfOne(patches[i]), EditsOf(patches[i + 1..]), marshal);
      var names;
      props, ok, names := EditOne(props, patches[i], marshal);
      if !ok {
        return;
      }
      Regroup(edits, EditsOfOne(patches[i]), EditsOf(patches[i + 1..]));
      NamesAppend(done, names, edits, EditsOfOne(patches[i]));
      done, edits := done + names, edits + EditsOfOne(patches[i]);
    }
    assert edits + [] == edits;
    ok := true;
  }
}
