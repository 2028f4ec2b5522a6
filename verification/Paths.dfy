/** Slash-separated names as sequences of components.

    The lock system and the path index both keep cleaned names as strings. This
    module shows that what they do with those strings (cut at the last slash,
    test the prefix root + "/", replace the first occurrence of a directory) is
    what the other modules do with component sequences. */
module Paths {

  predicate ValidComponent(c: string) {
    c != "" && c != "." && c != ".." && '/' !in c
  }

  type Component = c: string | ValidComponent(c) witness "a"

  type Path = seq<Component>

  /** "/a" + "/b" for [a, b]; the empty string for the root. */
  function Join(p: Path): string {
    if p == [] then "" else "/" + p[0] + Join(p[1..])
  }

  /** The cleaned string that names the path. */
  function Render(p: Path): string {
    if p == [] then "/" else Join(p)
  }

  function Parent(p: Path): Path
    requires p != []
  {
    p[..|p| - 1]
  }

  function Last(p: Path): Component
    requires p != []
  {
    p[|p| - 1]
  }

  /** q is p or one of its ancestors. */
  predicate Within(p: Path, q: Path) {
    q <= p
  }

  lemma WithinStep(p: Path)
    requires p != []
    ensures forall q :: Within(p, q) <==> Within(Parent(p), q) || q == p
  {
  }

  /** p lies strictly below q. */
  predicate Below(p: Path, q: Path) {
    q < p
  }

  /** Neither is at or below the other. */
  predicate Apart(p: Path, q: Path) {
    !Within(p, q) && !Within(q, p)
  }

  /** Where every path stands with its parent, which is a directory, it stands with all its
      ancestors, and they are directories. */
  lemma {:induction false} AncestorsStand(has: Path -> bool, isDir: Path -> bool, p: Path, k: nat)
    requires has(p) && k <= |p| && forall q | has(q) && q != [] :: has(Parent(q)) && isDir(Parent(q))
    ensures has(p[..k]) && (k < |p| ==> isDir(p[..k]))
    decreases |p|
  {
    if k < |p| {
      AncestorsStand(has, isDir, Parent(p), k);
      assert Parent(p)[..k] == p[..k];
      assert k == |p| - 1 ==> p[..k] == Parent(p);
    } else {
      assert p[..k] == p;
    }
  }

  // ---------- Cutting at the last slash ----------

  /** The index of the last slash, or -1. */
  function LastSlash(s: string): (i: int)
    ensures -1 <= i < |s|
    ensures i >= 0 ==> s[i] == '/' && '/' !in s[i + 1..]
    ensures i < 0 ==> '/' !in s
  {
    if s == "" then -1
    else if s[|s| - 1] == '/' then |s| - 1
    else LastSlash(s[..|s| - 1])
  }

  lemma {:induction false} JoinSnoc(p: Path, c: Component)
    ensures Join(p + [c]) == Join(p) + "/" + c
  {
    if p == [] {
      assert Join([c]) == "/" + c + Join([]);
    } else {
      assert (p + [c])[0] == p[0] && (p + [c])[1..] == p[1..] + [c];
      JoinSnoc(p[1..], c);
    }
  }

  lemma {:induction false} LastSlashUnique(s: string, i: nat)
    requires i < |s| && s[i] == '/' && '/' !in s[i + 1..]
    ensures LastSlash(s) == i
  {
    var j := LastSlash(s);
    assert s[i] in s;
    assert forall k :: j < k < |s| ==> s[k] in s[j + 1..];
    assert forall k :: i < k < |s| ==> s[k] in s[i + 1..];
  }

  /** One step of walkToRoot: name[:LastIndex(name, "/")], or "/" if that is empty. */
  function CutLast(s: string): string
    requires '/' in s
  {
    var cut := s[..LastSlash(s)];
    if cut == "" then "/" else cut
  }

  /** Cutting the string is dropping the last component; what is cut off is that component. */
  lemma {:induction false} CutLastIsParent(p: Path)
    requires p != []
    ensures '/' in Render(p)
    ensures CutLast(Render(p)) == Render(Parent(p))
    ensures Render(p)[LastSlash(Render(p)) + 1..] == Last(p)
  {
    var q, c := Parent(p), Last(p);
    assert p == q + [c];
    JoinSnoc(q, c);
    var s := Render(p);
    assert s == Join(q) + "/" + c;
    assert s[|Join(q)|] == '/' && s[|Join(q)| + 1..] == c;
    LastSlashUnique(s, |Join(q)|);
    assert s[..|Join(q)|] == Join(q);
    if q != [] {
      assert Join(q)[0] == '/';
    }
  }

  /** The strings walkToRoot passes to its callback. */
  function Visits(p: Path): seq<string> {
    [Render(p)] + if p == [] then [] else Visits(Parent(p))
  }

  /** They name the path and each of its ancestors, once each, nearest first. */
  lemma {:induction false} VisitsAreAncestors(p: Path)
    ensures |Visits(p)| == |p| + 1
    ensures forall i :: 0 <= i <= |p| ==> Visits(p)[i] == Render(p[..|p| - i])
  {
    assert p[..|p|] == p;
    if p != [] {
      VisitsAreAncestors(Parent(p));
      var above := Visits(Parent(p));
      forall i | 0 < i <= |p| ensures Visits(p)[i] == Render(p[..|p| - i]) {
        PrefixOfParent(p, |p| - i);
        assert ([Render(p)] + above)[i] == above[i - 1];
      }
    }
  }

  lemma PrefixOfParent(p: Path, k: nat)
    requires k < |p|
    ensures Parent(p)[..k] == p[..k]
  {
  }

  /** The strings that were visited, and what the callback answered: all but the last were
      accepted, and the last is the root and accepted, or it was refused. */
  predicate Visited(visited: seq<string>, all: seq<string>, f: (string, bool) -> bool, ok: bool) {
    && 0 < |visited| <= |all| && visited == all[..|visited|]
    && (forall i | 0 <= i < |visited| - 1 :: f(visited[i], i == 0))
    && f(visited[|visited| - 1], |visited| == 1) == ok
    && (ok ==> visited == all)
  }

  lemma AnswerOfVisits(visited: seq<string>, all: seq<string>, f: (string, bool) -> bool, ok: bool)
    requires Visited(visited, all, f, ok)
    ensures ok <==> forall i | 0 <= i < |all| :: f(all[i], i == 0)
  {
    var i := |visited| - 1;
    assert all[i] == visited[i];
  }

  lemma VisitOne(visited: seq<string>, at: Path, p: Path)
    requires visited + Visits(at) == Visits(p)
    ensures var now := visited + [Render(at)];
            && |now| <= |Visits(p)| && now == Visits(p)[..|now|]
            && (if at == [] then now == Visits(p) else now + Visits(Parent(at)) == Visits(p))
  {
    var rest := if at == [] then [] else Visits(Parent(at));
    assert Visits(at) == [Render(at)] + rest;
    Regroup(visited, Render(at), rest);
  }

  lemma Regroup(a: seq<string>, x: string, b: seq<string>)
    ensures a + ([x] + b) == a + [x] + b && (a + [x] + b)[..|a| + 1] == a + [x]
    ensures b == [] ==> a + ([x] + b) == a + [x]
  {
  }

  /** walkToRoot on the string itself, with what its callback answers; it stops when refused. */
  method WalkToRoot(name0: string, f: (string, bool) -> bool, ghost p: Path) returns (ok: bool, ghost visited: seq<string>)
    requires name0 == Render(p)
    ensures Visited(visited, Visits(p), f, ok)
    ensures ok <==> forall i | 0 <= i < |Visits(p)| :: f(Visits(p)[i], i == 0)
  {
    hide Visits, Render;
    var name, first := name0, true;
    ghost var at := p;
    visited := [];
    while true
      invariant name == Render(at) && first == (visited == [])
      invariant visited + Visits(at) == Visits(p)
      invariant forall i | 0 <= i < |visited| :: f(visited[i], i == 0)
      decreases |at|
    {
      VisitOne(visited, at, p);
      visited := visited + [name];
      if !f(name, first) {
        AnswerOfVisits(visited, Visits(p), f, false);
        return false, visited;
      }
      RenderRootOnly(at);
      if name == "/" {
        break;
      }
      CutLastIsParent(at);
      name, first := CutLast(name), false;
      at := Parent(at);
    }
    ok := true;
    AnswerOfVisits(visited, Visits(p), f, ok);
  }

  lemma RenderRootOnly(p: Path)
    ensures Render(p) == "/" <==> p == []
  {
    if p != [] {
      assert |Join(p)| >= 2;
    }
  }

  // ---------- The prefix test ----------

  lemma NoSlashInside(a: string, s: string)
    requires '/' !in a
    ensures forall i :: 0 <= i < |a| ==> (a + s)[i] != '/'
  {
    forall i | 0 <= i < |a| ensures (a + s)[i] != '/' {
      assert a[i] in a;
    }
  }

  /** A component followed by a slash (or the end) determines where the component stops. */
  lemma ComponentSplit(a: Component, s: string, b: Component, t: string)
    requires a + s <= b + t
    requires s != "" && s[0] == '/'
    requires t == "" || t[0] == '/'
    ensures a == b && s <= t
  {
    var l, r := a + s, b + t;
    assert l[|a|] == '/' && r[|a|] == '/';
    NoSlashInside(a, s);
    NoSlashInside(b, t);
    assert |a| >= |b|;
    assert |b| < |r| ==> r[|b|] == '/';
    assert |a| <= |b|;
    assert a == l[..|a|] == r[..|a|] == b;
    assert s == l[|a|..] && t == r[|a|..];
    assert l == r[..|l|];
    assert s == t[..|s|];
  }

  /** The first component, and the rest with its slash in front. */
  lemma JoinSlash(p: Path)
    requires p != []
    ensures Join(p) == "/" + (p[0] + Join(p[1..])) && Join(p) + "/" == "/" + (p[0] + (Join(p[1..]) + "/"))
  {
  }

  lemma SplitExactly(a: Component, s: string, b: Component, t: string)
    requires s != "" && s[0] == '/' && (t == "" || t[0] == '/')
    ensures "/" + (a + s) <= "/" + (b + t) <==> a == b && s <= t
  {
    var l, r := "/" + (a + s), "/" + (b + t);
    if l <= r {
      assert l[1..] == a + s && r[1..] == b + t;
      ComponentSplit(a, s, b, t);
    }
  }

  lemma HeadTail(p: Path, q: Path)
    requires p != [] && q != []
    ensures p < q <==> p[0] == q[0] && p[1..] < q[1..]
    ensures p == q <==> p[0] == q[0] && p[1..] == q[1..]
  {
    assert p == [p[0]] + p[1..] && q == [q[0]] + q[1..];
  }

  lemma {:induction false} JoinPrefix(p: Path, q: Path)
    ensures Join(p) + "/" <= Join(q) <==> p < q
  {
    if p == [] {
      assert Join(p) + "/" == "/";
      if q != [] {
        assert Join(q)[..1] == "/";
      }
    } else if q != [] {
      JoinSlash(p);
      JoinSlash(q);
      JoinStart(p[1..]);
      JoinStart(q[1..]);
      SplitExactly(p[0], Join(p[1..]) + "/", q[0], Join(q[1..]));
      JoinPrefix(p[1..], q[1..]);
      HeadTail(p, q);
    }
  }

  lemma JoinStart(p: Path)
    ensures Join(p) == "" || Join(p)[0] == '/'
    ensures (Join(p) + "/")[0] == '/'
  {
  }

  /** root == "/" || HasPrefix(name, root + "/"). */
  predicate PrefixTest(name: string, root: string) {
    root == "/" || root + "/" <= name
  }

  /** Taken together with name == root, the string test of lookup means "at or below". */
  lemma PrefixTestIsBelow(p: Path, q: Path)
    ensures Render(p) == Render(q) || PrefixTest(Render(p), Render(q)) <==> q <= p
    ensures q != [] ==> (Render(q) + "/" <= Render(p) <==> Below(p, q))
  {
    RenderInjective(p, q);
    RenderRootOnly(q);
    JoinPrefix(q, p);
    RenderRootOnly(p);
    assert q != [] ==> |Render(q)| >= 2;
  }

  lemma {:induction false} JoinInjective(p: Path, q: Path)
    requires Join(p) == Join(q)
    ensures p == q
  {
    if p != [] && q != [] {
      var s, t := Join(p[1..]) + "/", Join(q[1..]) + "/";
      JoinSlash(p);
      JoinSlash(q);
      JoinStart(p[1..]);
      JoinStart(q[1..]);
      SplitExactly(p[0], s, q[0], t);
      SplitExactly(q[0], t, p[0], s);
      assert Join(p[1..]) == s[..|s| - 1] && Join(q[1..]) == t[..|t| - 1];
      JoinInjective(p[1..], q[1..]);
      HeadTail(p, q);
    }
  }

  lemma RenderInjective(p: Path, q: Path)
    ensures Render(p) == Render(q) <==> p == q
  {
    if Render(p) == Render(q) {
      RenderRootOnly(p);
      RenderRootOnly(q);
      if p != [] {
        JoinInjective(p, q);
      }
    }
  }

  // ---------- Replacing the first occurrence ----------

  /** strings.Replace(s, old, new, 1). */
  function ReplaceFirst(s: string, from: string, to: string): string
    requires from != ""
  {
    if from <= s then to + s[|from|..]
    else if s == "" then s
    else [s[0]] + ReplaceFirst(s[1..], from, to)
  }

  lemma {:induction false} JoinAppend(p: Path, q: Path)
    ensures Join(p + q) == Join(p) + Join(q)
  {
    if p == [] {
      assert p + q == q;
    } else {
      assert (p + q)[0] == p[0] && (p + q)[1..] == p[1..] + q;
      JoinAppend(p[1..], q);
    }
  }

  /** Where a key at or below `from` lands when it is moved to the same place below `to`. */
  function Rebase(k: Path, from: Path, to: Path): Path
    requires from <= k
  {
    to + k[|from|..]
  }

  lemma RebaseBack(p: Path, from: Path, to: Path)
    requires Within(p, from)
    ensures Within(Rebase(p, from, to), to) && Rebase(Rebase(p, from, to), to, from) == p
    ensures Below(p, from) ==> Below(Rebase(p, from, to), to)
  {
    assert p == from + p[|from|..];
  }

  lemma ReplaceIsRebase(k: Path, from: Path, to: Path)
    requires from != [] && to != [] && from <= k
    ensures ReplaceFirst(Render(k), Render(from), Render(to)) == Render(Rebase(k, from, to))
  {
    var rest := k[|from|..];
    assert k == from + rest;
    JoinAppend(from, rest);
    JoinAppend(to, rest);
    assert Render(from) <= Render(k);
    assert Render(k)[|Render(from)|..] == Join(rest);
  }

  // ---------- Cleaning ----------

  /** The index of the first slash, or the length. */
  function FirstSlash(s: string): (i: nat)
    ensures i <= |s|
    ensures '/' !in s[..i]
    ensures i < |s| ==> s[i] == '/'
  {
    if s == "" || s[0] == '/' then 0
    else
      var j := FirstSlash(s[1..]);
      assert s[..j + 1] == [s[0]] + s[1..][..j];
      j + 1
  }

  /** One component of a rooted name: empty and "." are dropped, ".." goes up (and stops at the root). */
  function CleanStep(p: Path, c: string): Path
    requires '/' !in c
  {
    if c == "" || c == "." then p
    else if c == ".." then (if p == [] then p else Parent(p))
    else p + [c]
  }

  function CleanFrom(p: Path, s: string): Path
    decreases |s|
  {
    var i := FirstSlash(s);
    var p' := CleanStep(p, s[..i]);
    if i == |s| then p' else CleanFrom(p', s[i + 1..])
  }

  /** slashClean: path.Clean of the name made absolute. */
  function SlashClean(name: string): Path {
    if name == "" || name[0] != '/' then CleanFrom([], "/" + name) else CleanFrom([], name)
  }

  lemma FirstSlashOf(c: string, t: string)
    requires '/' !in c
    requires t == "" || t[0] == '/'
    ensures FirstSlash(c + t) == |c|
  {
    var s := c + t;
    var i := FirstSlash(s);
    NoSlashInside(c, t);
    assert |c| <= i;
    assert forall j :: 0 <= j < i ==> s[j] in s[..i];
    assert |c| < |s| ==> s[|c|] == t[0];
  }

  /** A leading slash contributes nothing. */
  lemma CleanSlash(acc: Path, s: string)
    ensures CleanFrom(acc, "/" + s) == CleanFrom(acc, s)
  {
    FirstSlashOf("", "/" + s);
    assert "" + ("/" + s) == "/" + s;
    assert ("/" + s)[..0] == "";
    assert ("/" + s)[1..] == s;
  }

  /** A component is pushed on what has been read so far. */
  lemma CleanComponent(acc: Path, c: Component, t: string)
    requires t == "" || t[0] == '/'
    ensures CleanFrom(acc, c + t) == if t == "" then acc + [c] else CleanFrom(acc + [c], t[1..])
  {
    FirstSlashOf(c, t);
    assert (c + t)[..|c|] == c;
    assert t != "" ==> (c + t)[|c| + 1..] == t[1..];
  }

  lemma {:induction false} CleanJoin(acc: Path, p: Path)
    ensures CleanFrom(acc, Join(p)) == acc + p
    decreases |p|
  {
    if p == [] {
      assert acc + p == acc;
    } else {
      var c, t := p[0], Join(p[1..]);
      assert Join(p) == "/" + (c + t);
      CleanSlash(acc, c + t);
      CleanComponent(acc, c, t);
      CleanJoin(acc + [c], p[1..]);
      if t != "" {
        CleanSlash(acc + [c], t[1..]);
        assert "/" + t[1..] == t;
      }
      assert acc + [c] + p[1..] == acc + p;
    }
  }

  /** A cleaned name is a fixed point: cleaning reads back the path its rendering names. */
  lemma CleanIsCanonical(p: Path)
    ensures SlashClean(Render(p)) == p
  {
    if p == [] {
      CleanSlash([], "");
      assert "/" + "" == "/";
    } else {
      CleanJoin([], p);
    }
  }

  lemma CleanIdempotent(name: string)
    ensures SlashClean(Render(SlashClean(name))) == SlashClean(name)
  {
    CleanIsCanonical(SlashClean(name));
  }

  lemma {:induction false} CleanAppend(acc: Path, s: string, c: string)
    requires '/' !in c
    ensures CleanFrom(acc, s + "/" + c) == CleanStep(CleanFrom(acc, s), c)
    decreases |s|
  {
    hide CleanStep;
    var i := FirstSlash(s);
    var u := s + "/" + c;
    if i == |s| {
      assert s[..i] == s;
      FirstSlashOf(s, "/" + c);
      FirstSlashOf(c, "");
      assert u == s + ("/" + c) && c + "" == c;
      assert u[..i] == s && u[i + 1..] == c && c[..|c|] == c;
    } else {
      FirstSlashOf(s[..i], s[i..] + "/" + c);
      assert s[..i] + (s[i..] + "/" + c) == u;
      assert u[..i] == s[..i] && u[i + 1..] == s[i + 1..] + "/" + c;
      CleanAppend(CleanStep(acc, s[..i]), s[i + 1..], c);
    }
  }

  /** What one more component does to any name, cleaned or not: nothing if it is empty or ".", up
      to the parent or not at all at the root if it is "..", and down otherwise. */
  lemma CleanOneMore(name: string, c: string)
    requires '/' !in c
    ensures c == "" || c == "." ==> SlashClean(name + "/" + c) == SlashClean(name)
    ensures c == ".." && SlashClean(name) == [] ==> SlashClean(name + "/" + c) == []
    ensures c == ".." && SlashClean(name) != [] ==> exists last: Component :: SlashClean(name + "/" + c) + [last] == SlashClean(name)
    ensures c != "" && c != "." && c != ".." ==> SlashClean(name + "/" + c) == SlashClean(name) + [c]
  {
    hide SlashClean;
    SlashCleanAppend(name, c);
    var p := SlashClean(name);
    assert p != [] ==> Parent(p) + [Last(p)] == p;
  }

  lemma SlashCleanAppend(name: string, c: string)
    requires '/' !in c
    ensures SlashClean(name + "/" + c) == CleanStep(SlashClean(name), c)
  {
    hide CleanFrom, CleanStep;
    if name == "" {
      AppendToNothing(c);
    } else if name[0] == '/' {
      CleanAppend([], name, c);
      assert (name + "/" + c)[0] == '/';
    } else {
      CleanAppend([], "/" + name, c);
      assert (name + "/" + c)[0] == name[0];
      assert "/" + (name + "/" + c) == "/" + name + "/" + c;
    }
  }

  lemma AppendToNothing(c: string)
    requires '/' !in c
    ensures SlashClean("" + "/" + c) == CleanStep(SlashClean(""), c)
  {
    hide CleanStep;
    CleanSlash([], c);
    CleanSlash([], "");
    FirstSlashOf(c, "");
    FirstSlashOf("", "");
    assert c + "" == c && "/" + "" == "/" && c[..|c|] == c && "" + "/" + c == "/" + c && ""[..0] == "";
    CleanNothing();
  }

  lemma CleanNothing()
    ensures CleanStep([], "") == []
  {
  }

  /** Going down and up again is staying. */
  lemma DownAndUp(p: Path, c: Component)
    ensures SlashClean(Render(p) + "/" + c + "/..") == p
    ensures SlashClean("/..") == []
  {
    CleanIsCanonical(p);
    CleanOneMore(Render(p), c);
    CleanOneMore(Render(p) + "/" + c, "..");
    assert Render(p) + "/" + c + "/" + ".." == Render(p) + "/" + c + "/..";
    var last: Component :| SlashClean(Render(p) + "/" + c + "/..") + [last] == p + [c];
    assert (p + [c])[..|p|] == p;
    CleanOneMore("", "..");
    assert "" + "/" + ".." == "/..";
    CleanSlash([], "");
    assert "/" + "" == "/";
  }
}
