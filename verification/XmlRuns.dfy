/** The printer over runs of tokens, some of which may be refused: a level that is not closed stays
    as it is, so the end of an element restores the name spaces from before its start. */
module XmlRuns {
  import opened Wrappers
  import opened XmlTypes
  import opened XmlPrinter
  import opened XmlNames
  import opened XmlNesting

  /** The state after all the tokens, when the caller goes on after those that are refused. */
  function Fed(p: Printer, ts: seq<Token>, t: Tables, buffered: nat -> bool): Printer
    decreases |ts|
  {
    if ts == [] then p else Fed(EncodeToken(p, ts[0], t, buffered(|ts|)).0, ts[1..], t, buffered)
  }

  /** What is written for those that are accepted. */
  function Accepted(p: Printer, ts: seq<Token>, t: Tables, buffered: nat -> bool): seq<Token>
    decreases |ts|
  {
    if ts == [] then []
    else
      var (p', w) := EncodeToken(p, ts[0], t, buffered(|ts|));
      (if w.Ok? then [w.value] else []) + Accepted(p', ts[1..], t, buffered)
  }

  lemma {:induction false} AllAccepted(p: Printer, ts: seq<Token>, t: Tables, buffered: nat -> bool)
    requires EncodeAll(p, ts, t, buffered).1.Ok?
    ensures EncodeAll(p, ts, t, buffered).0 == Fed(p, ts, t, buffered)
    decreases |ts|
  {
    hide EncodeToken;
    if ts != [] {
      AllAccepted(EncodeToken(p, ts[0], t, buffered(|ts|)).0, ts[1..], t, buffered);
    }
  }

  /** In every state that can be reached, prefixes and URLs are mutually inverse, and every open
      element can be closed. */
  lemma {:induction false} FedIsNested(p: Printer, ts: seq<Token>, t: Tables, buffered: nat -> bool)
    requires Nested(p)
    ensures Nested(Fed(p, ts, t, buffered)) && Bijective(Fed(p, ts, t, buffered).spaces)
    decreases |ts|
  {
    hide EncodeToken;
    if ts != [] {
      TokenKeepsNested(p, ts[0], t, buffered(|ts|));
      FedIsNested(EncodeToken(p, ts[0], t, buffered(|ts|)).0, ts[1..], t, buffered);
    }
  }

  // ---------- Levels ----------

  datatype Level = Level(spaces: Spaces, prefixes: seq<Undo>, tags: seq<Name>)

  lemma ClosedHasLess(p: Printer)
    requires p.tags != []
    ensures Closed(p).tags == p.tags[..|p.tags| - 1]
  {
    PopKeepsTags(p.(tags := p.tags[..|p.tags| - 1]));
  }

  /** The state that closing elements leads to when k are left open. */
  function LevelAt(p: Printer, k: nat): Level
    requires k <= |p.tags|
    decreases |p.tags|
  {
    if |p.tags| == k then Level(p.spaces, p.prefixes, p.tags)
    else
      ClosedHasLess(p);
      LevelAt(Closed(p), k)
  }

  lemma {:induction false} LevelIgnoresCounter(p: Printer, p': Printer, k: nat)
    requires SameSpaces(p, p') && k <= |p.tags|
    ensures LevelAt(p, k) == LevelAt(p', k)
    decreases |p.tags|
  {
    if |p.tags| > k {
      ClosedIgnoresCounter(p, p');
      ClosedHasLess(p);
      LevelIgnoresCounter(Closed(p), Closed(p'), k);
    }
  }

  /** A token that opens no element and closes none changes nothing. */
  lemma TokenMoves(p: Printer, token: Token, t: Tables, buffered: bool)
    requires Nested(p)
    ensures var p' := EncodeToken(p, token, t, buffered).0;
            || (token.Start? && token.name.local != [] && |p'.tags| == |p.tags| + 1 && SameSpaces(Closed(p'), p))
            || (token.End? && p.tags != [] && p' == Closed(p) && |p'.tags| == |p.tags| - 1)
            || p' == p
  {
    if token.Start? && token.name.local != [] {
      StartOpens(p, token.name, token.attrs, t);
    } else if token.End? && p.tags != [] {
      ClosedHasLess(p);
    }
  }

  lemma TokenKeepsLevel(p: Printer, token: Token, t: Tables, buffered: bool, k: nat)
    requires Nested(p) && k <= |p.tags| && k <= |EncodeToken(p, token, t, buffered).0.tags|
    ensures LevelAt(EncodeToken(p, token, t, buffered).0, k) == LevelAt(p, k)
  {
    hide EncodeToken, Nested;
    var p' := EncodeToken(p, token, t, buffered).0;
    TokenMoves(p, token, t, buffered);
    if |p'.tags| == |p.tags| + 1 {
      LevelIgnoresCounter(Closed(p'), p, k);
    }
  }

  /** No more than the elements above the k-th are closed. */
  predicate Stays(p: Printer, ts: seq<Token>, t: Tables, buffered: nat -> bool, k: nat)
    decreases |ts|
  {
    |p.tags| >= k && (ts != [] ==> Stays(EncodeToken(p, ts[0], t, buffered(|ts|)).0, ts[1..], t, buffered, k))
  }

  /** A level that is not closed stays as it is, whatever is written or refused above it. */
  lemma {:induction false} LevelsStay(p: Printer, ts: seq<Token>, t: Tables, buffered: nat -> bool, k: nat)
    requires Nested(p) && Stays(p, ts, t, buffered, k)
    ensures k <= |Fed(p, ts, t, buffered).tags| && LevelAt(Fed(p, ts, t, buffered), k) == LevelAt(p, k)
    decreases |ts|
  {
    hide EncodeToken, Nested;
    if ts != [] {
      TokenKeepsNested(p, ts[0], t, buffered(|ts|));
      TokenKeepsLevel(p, ts[0], t, buffered(|ts|), k);
      LevelsStay(EncodeToken(p, ts[0], t, buffered(|ts|)).0, ts[1..], t, buffered, k);
    }
  }

  /** Back at the elements that were open at first, the name spaces are exactly those of then. */
  lemma ElementsAreUndone(p: Printer, ts: seq<Token>, t: Tables, buffered: nat -> bool)
    requires Nested(p) && Stays(p, ts, t, buffered, |p.tags|) && |Fed(p, ts, t, buffered).tags| == |p.tags|
    ensures SameSpaces(Fed(p, ts, t, buffered), p)
  {
    hide Nested, Stays, Fed;
    LevelsStay(p, ts, t, buffered, |p.tags|);
  }

  // ---------- Elements ----------

  /** How many elements are open after the tokens if n were; None if one too many is closed. */
  function Net(ts: seq<Token>, n: nat): Option<nat> {
    if ts == [] then Some(n)
    else if ts[0].Start? then Net(ts[1..], n + 1)
    else if ts[0].End? then (if n == 0 then None else Net(ts[1..], n - 1))
    else Net(ts[1..], n)
  }

  lemma {:induction false} NetIsTags(p: Printer, ts: seq<Token>, t: Tables, buffered: nat -> bool, n: nat)
    requires Nested(p) && EncodeAll(p, ts, t, buffered).1.Ok? && n <= |p.tags| && Net(ts, n).Some?
    ensures Stays(p, ts, t, buffered, |p.tags| - n)
    ensures |Fed(p, ts, t, buffered).tags| == |p.tags| - n + Net(ts, n).value
    decreases |ts|
  {
    hide Nested, EncodeToken;
    if ts != [] {
      var p' := EncodeToken(p, ts[0], t, buffered(|ts|)).0;
      TokenKeepsNested(p, ts[0], t, buffered(|ts|));
      AcceptedMoves(p, ts[0], t, buffered(|ts|));
      NetIsTags(p', ts[1..], t, buffered, if ts[0].Start? then n + 1 else if ts[0].End? then n - 1 else n);
    }
  }

  lemma AcceptedMoves(p: Printer, token: Token, t: Tables, buffered: bool)
    requires Nested(p) && EncodeToken(p, token, t, buffered).1.Ok?
    ensures var p' := EncodeToken(p, token, t, buffered).0;
            |p'.tags| == |p.tags| + (if token.Start? then 1 else if token.End? then -1 else 0)
  {
    if token.Start? {
      StartOpens(p, token.name, token.attrs, t);
    } else if token.End? {
      ClosedHasLess(p);
    }
  }

  /** Whole elements leave the name spaces exactly as they were. */
  lemma WholeElementsAreUndone(p: Printer, ts: seq<Token>, t: Tables, buffered: nat -> bool)
    requires Nested(p) && EncodeAll(p, ts, t, buffered).1.Ok? && Net(ts, 0) == Some(0)
    ensures SameSpaces(EncodeAll(p, ts, t, buffered).0, p)
  {
    hide Nested, EncodeToken;
    NetIsTags(p, ts, t, buffered, 0);
    ElementsAreUndone(p, ts, t, buffered);
    AllAccepted(p, ts, t, buffered);
  }

  /** The end tag that closes an element restores exactly the name spaces from before its start tag,
      whatever has been written or refused in between, and even if the start tag was refused. */
  lemma EndRestores(p: Printer, name: Name, attrs: seq<Attr>, ts: seq<Token>, t: Tables, buffered: nat -> bool)
    requires Nested(p) && name.local != []
    requires var p1 := WriteStart(p, name, attrs, t).0;
             var p2 := Fed(p1, ts, t, buffered);
             Stays(p1, ts, t, buffered, |p1.tags|) && |p2.tags| == |p1.tags|
    ensures var p2 := Fed(WriteStart(p, name, attrs, t).0, ts, t, buffered);
            WriteEnd(p2, name).1.Ok? && SameSpaces(WriteEnd(p2, name).0, p)
  {
    hide Stays, Fed, WriteStart;
    var p1 := WriteStart(p, name, attrs, t).0;
    var p2 := Fed(p1, ts, t, buffered);
    StartOpens(p, name, attrs, t);
    StartIsNested(p, name, attrs, t);
    ElementsAreUndone(p1, ts, t, buffered);
    ClosedIgnoresCounter(p2, p1);
  }

  lemma StartIsNested(p: Printer, name: Name, attrs: seq<Attr>, t: Tables)
    requires Nested(p)
    ensures Nested(WriteStart(p, name, attrs, t).0)
  {
    hide Nested;
    TokenKeepsNested(p, Start(name, attrs), t, false);
  }

  // ---------- Refused start tags ----------

  /** A start tag that is refused for what its attributes declare, and not for want of a name. */
  predicate Refused(p: Printer, token: Token, t: Tables, buffered: bool) {
    token.Start? && token.name.local != [] && EncodeToken(p, token, t, buffered).1.Err?
  }

  function Refusals(p: Printer, ts: seq<Token>, t: Tables, buffered: nat -> bool): nat
    decreases |ts|
  {
    if ts == [] then 0
    else
      (if Refused(p, ts[0], t, buffered(|ts|)) then 1 else 0)
      + Refusals(EncodeToken(p, ts[0], t, buffered(|ts|)).0, ts[1..], t, buffered)
  }

  /** Start tags less end tags. */
  function Surplus(ws: seq<Token>): int {
    if ws == [] then 0 else (if ws[0].Start? then 1 else if ws[0].End? then -1 else 0) + Surplus(ws[1..])
  }

  lemma {:induction false} SurplusAppend(a: seq<Token>, b: seq<Token>)
    ensures Surplus(a + b) == Surplus(a) + Surplus(b)
  {
    if a == [] {
      assert a + b == b;
    } else {
      assert (a + b)[0] == a[0] && (a + b)[1..] == a[1..] + b;
      SurplusAppend(a[1..], b);
    }
  }

  lemma {:induction false} BalancedSurplus(ws: seq<Token>, open: seq<Name>)
    requires Balanced(ws, open)
    ensures Surplus(ws) + |open| >= 0
    decreases |ws|
  {
    if ws != [] {
      match ws[0]
      case Start(name, _) => BalancedSurplus(ws[1..], [name] + open);
      case End(_) => BalancedSurplus(ws[1..], open[1..]);
      case Other(_) => BalancedSurplus(ws[1..], open);
    }
  }

  /** A refused start tag leaves an element open that is not in the output. */
  lemma {:induction false} RefusalsStayOpen(p: Printer, ts: seq<Token>, t: Tables, buffered: nat -> bool)
    requires Nested(p)
    ensures |Fed(p, ts, t, buffered).tags| == |p.tags| + Surplus(Accepted(p, ts, t, buffered)) + Refusals(p, ts, t, buffered)
    decreases |ts|
  {
    hide Nested, EncodeToken;
    if ts != [] {
      var (p', w) := EncodeToken(p, ts[0], t, buffered(|ts|));
      TokenKeepsNested(p, ts[0], t, buffered(|ts|));
      TokenCounts(p, ts[0], t, buffered(|ts|));
      RefusalsStayOpen(p', ts[1..], t, buffered);
      var more := Accepted(p', ts[1..], t, buffered);
      if w.Ok? {
        assert ([w.value] + more)[1..] == more;
      } else {
        assert [] + more == more;
      }
    }
  }

  lemma TokenCounts(p: Printer, token: Token, t: Tables, buffered: bool)
    requires Nested(p)
    ensures var (p', w) := EncodeToken(p, token, t, buffered);
            && (w.Ok? ==> (w.value.Start? <==> token.Start?) && (w.value.End? <==> token.End?)
                          && |p'.tags| == |p.tags| + (if token.Start? then 1 else if token.End? then -1 else 0))
            && (w.Err? ==> |p'.tags| == |p.tags| + (if Refused(p, token, t, buffered) then 1 else 0))
  {
    if token.Start? && token.name.local != [] {
      StartOpens(p, token.name, token.attrs, t);
    } else if token.End? && p.tags != [] {
      ClosedHasLess(p);
    }
  }

  /** The end tags of all open elements. */
  function Closing(tags: seq<Name>): seq<Token> {
    if tags == [] then [] else [End(tags[|tags| - 1])] + Closing(tags[..|tags| - 1])
  }

  lemma {:induction false} AllCanBeClosed(p: Printer, t: Tables, buffered: nat -> bool)
    requires forall n | n in p.tags :: n.local != []
    ensures var w := EncodeAll(p, Closing(p.tags), t, buffered).1; w.Ok? && Surplus(w.value) == -|p.tags|
    decreases |p.tags|
  {
    if p.tags != [] {
      ClosedHasLess(p);
      var rest := Closing(p.tags[..|p.tags| - 1]);
      assert Closing(p.tags)[1..] == rest;
      AllCanBeClosed(Closed(p), t, buffered);
      var w := EncodeToken(p, Closing(p.tags)[0], t, buffered(|Closing(p.tags)|)).1;
      var ws := EncodeAll(Closed(p), rest, t, buffered).1.value;
      assert ([w.value] + ws)[1..] == ws;
    }
  }

  lemma {:induction false} TagsHaveNames(p: Printer, ts: seq<Token>, t: Tables, buffered: nat -> bool)
    requires Nested(p) && forall n | n in p.tags :: n.local != []
    ensures forall n | n in Fed(p, ts, t, buffered).tags :: n.local != []
    decreases |ts|
  {
    if ts != [] {
      var p' := EncodeToken(p, ts[0], t, buffered(|ts|)).0;
      TokenKeepsNested(p, ts[0], t, buffered(|ts|));
      if ts[0].Start? && ts[0].name.local != [] {
        StartOpens(p, ts[0].name, ts[0].attrs, t);
      } else if ts[0].End? && p.tags != [] {
        ClosedHasLess(p);
      }
      TagsHaveNames(p', ts[1..], t, buffered);
    }
  }

  /** As long as no start tag is refused, the output is balanced. */
  lemma {:induction false} BalancedOnward(p: Printer, ts: seq<Token>, us: seq<Token>, t: Tables, buffered: nat -> bool, b: nat -> bool)
    requires Nested(p) && Refusals(p, ts, t, buffered) == 0 && EncodeAll(Fed(p, ts, t, buffered), us, t, b).1.Ok?
    ensures Balanced(Accepted(p, ts, t, buffered) + EncodeAll(Fed(p, ts, t, buffered), us, t, b).1.value, OpenNames(p))
    decreases |ts|
  {
    hide EncodeToken, Nested, Balanced, OpenNames, EncodeAll;
    if ts == [] {
      OutputIsBalanced(p, us, t, b);
      assert [] + EncodeAll(p, us, t, b).1.value == EncodeAll(p, us, t, b).1.value;
    } else {
      var (p', w) := EncodeToken(p, ts[0], t, buffered(|ts|));
      var more := Accepted(p', ts[1..], t, buffered);
      var ws := EncodeAll(Fed(p, ts, t, buffered), us, t, b).1.value;
      TokenKeepsNested(p, ts[0], t, buffered(|ts|));
      BalancedOnward(p', ts[1..], us, t, buffered, b);
      if w.Ok? {
        assert [w.value] + more + ws == [w.value] + (more + ws) && ([w.value] + (more + ws))[1..] == more + ws;
        OneBalanced(p, p', w.value, more + ws);
      } else {
        RefusedChangesNothing(p, ts[0], t, buffered(|ts|));
        assert [] + more + ws == more + ws;
      }
    }
  }

  lemma OneBalanced(p: Printer, p': Printer, w: Token, ws: seq<Token>)
    requires Nested(p) && Nested(p') && Balanced(ws, OpenNames(p'))
    requires if w.Start? then OpenNames(p') == [w.name] + OpenNames(p) else if w.End? then OpenNames(p) == [w.name] + OpenNames(p') else p' == p
    ensures Balanced([w] + ws, OpenNames(p))
  {
    assert ([w] + ws)[1..] == ws;
    assert w.End? ==> OpenNames(p)[1..] == OpenNames(p');
  }

  lemma RefusedChangesNothing(p: Printer, token: Token, t: Tables, buffered: bool)
    requires EncodeToken(p, token, t, buffered).1.Err? && !Refused(p, token, t, buffered)
    ensures EncodeToken(p, token, t, buffered).0 == p
  {
  }

  /** A caller that goes on after refused tokens writes balanced documents, whatever else the
      encoder accepts, exactly when no start tag was refused for what it declares. */
  lemma BalancedExactly(ts: seq<Token>, t: Tables, buffered: nat -> bool)
    ensures var p := Fed(EMPTY, ts, t, buffered);
            Refusals(EMPTY, ts, t, buffered) == 0 <==>
              forall us, b | EncodeAll(p, us, t, b).1.Ok? :: Balanced(Accepted(EMPTY, ts, t, buffered) + EncodeAll(p, us, t, b).1.value, [])
  {
    hide EncodeToken;
    var p, ws := Fed(EMPTY, ts, t, buffered), Accepted(EMPTY, ts, t, buffered);
    if Refusals(EMPTY, ts, t, buffered) == 0 {
      forall us, b | EncodeAll(p, us, t, b).1.Ok? ensures Balanced(ws + EncodeAll(p, us, t, b).1.value, []) {
        BalancedOnward(EMPTY, ts, us, t, buffered, b);
      }
    } else {
      RefusalsStayOpen(EMPTY, ts, t, buffered);
      TagsHaveNames(EMPTY, ts, t, buffered);
      AllCanBeClosed(p, t, buffered);
      var closed := EncodeAll(p, Closing(p.tags), t, buffered).1.value;
      SurplusAppend(ws, closed);
      if Balanced(ws + closed, []) {
        BalancedSurplus(ws + closed, []);
      }
    }
  }
}
