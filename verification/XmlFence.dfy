/** What Token promises: start and end tags are matched, translations are undone at the end of
    their element, and a fence cuts off exactly the rest of an element. */
module XmlFence {
  import opened Wrappers
  import opened XmlTypes
  import opened Utf8
  import opened XmlNames
  import opened XmlRaw
  import opened XmlSpelling
  import opened XmlDecoder

  // ---------- Nesting ----------

  /** Between two calls of Token without an error, no undo record is on top. */
  predicate Settled(stk: seq<Frame>) {
    stk != [] ==> !stk[0].StkNs?
  }

  /** The open elements down to the fence. */
  function Names(stk: seq<Frame>): seq<Name> {
    if stk == [] || stk[0].StkEOF? then []
    else (if stk[0].StkStart? then [stk[0].name] else []) + Names(stk[1..])
  }

  /** What is open after some tokens; None if an end tag does not match. */
  function Run(ts: seq<Token>, open: seq<Name>): Option<seq<Name>>
    decreases |ts|
  {
    if ts == [] then Some(open)
    else
      match ts[0]
      case Start(name, _) => Run(ts[1..], [name] + open)
      case End(name) => if open != [] && open[0] == name then Run(ts[1..], open[1..]) else None
      case Other(_) => Run(ts[1..], open)
  }

  /** Stack and translations; and the same once the innermost element is closed, and so on. */
  datatype Level = Level(stk: seq<Frame>, ns: map<Str, Str>)

  function Close(l: Level): Level
    requires l.stk != []
  {
    var (stk, ns) := UndoNs(l.stk[1..], l.ns);
    Level(stk, ns)
  }

  lemma {:induction false} UndoShortens(stk: seq<Frame>, ns: map<Str, Str>)
    ensures |UndoNs(stk, ns).0| <= |stk| && Settled(UndoNs(stk, ns).0)
    ensures Names(UndoNs(stk, ns).0) == Names(stk)
    decreases |stk|
  {
    if stk != [] && stk[0].StkNs? {
      UndoShortens(stk[1..], if stk[0].ok then ns[stk[0].prefix := stk[0].url] else ns - {stk[0].prefix});
    }
  }

  function Levels(l: Level): seq<Level>
    decreases |l.stk|
  {
    if l.stk == [] || !l.stk[0].StkStart? then [l]
    else
      UndoShortens(l.stk[1..], l.ns);
      [l] + Levels(Close(l))
  }

  function LevelOf(d: Decoder): Level {
    Level(d.stk, d.ns)
  }

  lemma {:induction false} UndoDeclared(stk: seq<Frame>, ns: map<Str, Str>, attrs: seq<Attr>)
    ensures var (stk', ns') := DeclareAll(stk, ns, attrs);
            UndoNs(stk', ns') == UndoNs(stk, ns) && Names(stk') == Names(stk)
    decreases |attrs|
  {
    if attrs != [] {
      if Declares(attrs[0]) {
        var q, v := DeclaredPrefix(attrs[0]), attrs[0].value;
        UndoDeclared(PushNs(stk, ns, q), ns[q := v], attrs[1..]);
        assert PushNs(stk, ns, q)[1..] == stk;
        assert (if q in ns then ns[q := v][q := ns[q]] else ns[q := v] - {q}) == ns;
      } else {
        UndoDeclared(stk, ns, attrs[1..]);
      }
    }
  }

  /** A start tag opens a level that closes back to this one; an end tag closes one. */
  lemma TokenMoves(d: Decoder)
    requires Settled(d.stk) && NextToken(d).1.Ok?
    ensures var (d', r) := NextToken(d);
            && Settled(d'.stk)
            && match r.value
               case Start(name, _) =>
                 Names(d'.stk) == [name] + Names(d.stk) && Levels(LevelOf(d')) == [LevelOf(d')] + Levels(LevelOf(d))
               case End(name) =>
                 Names(d.stk) == [name] + Names(d'.stk) && Levels(LevelOf(d)) == [LevelOf(d)] + Levels(LevelOf(d'))
               case Other(_) =>
                 LevelOf(d') == LevelOf(d)
  {
    var (d1, raw) := RawToken(d);
    var (d', r) := NextToken(d);
    match raw.value
    case Start(name, attrs) =>
      var (stk, ns) := DeclareAll(d.stk, d.ns, attrs);
      UndoDeclared(d.stk, d.ns, attrs);
      assert d'.stk[1..] == stk;
      assert Close(LevelOf(d')) == LevelOf(d);
    case End(name) =>
      UndoShortens(d.stk[1..], d.ns);
      assert Close(LevelOf(d)) == LevelOf(d');
    case Other(_) =>
  }

  // ---------- Runs ----------

  /** At most k tokens, and the error that ended them early. */
  function ReadSome(d: Decoder, k: nat): (Decoder, seq<Token>, Option<Error>)
    decreases k
  {
    if k == 0 then (d, [], None)
    else
      var (d', r) := NextToken(d);
      if r.Err? then (d', [], Some(r.error))
      else
        var (d'', ts, e) := ReadSome(d', k - 1);
        (d'', [r.value] + ts, e)
  }

  /** Whatever is read, the tags that Token returns are nested and matched, and a level that has
      not been closed is as it was: its stack, and its translations. Here `open` are the
      innermost elements open at the start, as many as one cares to look at. */
  lemma {:induction false} TokensAreNested(d: Decoder, k: nat, open: seq<Name>)
    requires Settled(d.stk) && ReadSome(d, k).2.None? && open <= Names(d.stk)
    requires Run(ReadSome(d, k).1, open).Some?
    ensures var (d', ts, _) := ReadSome(d, k);
            var open' := Run(ts, open).value;
            && Run(ts, Names(d.stk)) == Some(Names(d'.stk)) && Settled(d'.stk)
            && open' <= Names(d'.stk)
            && Beyond(d, |open|) == Beyond(d', |open'|)
    decreases k
  {
    hide NextToken, Left;
    if k > 0 {
      var (d', r) := NextToken(d);
      var (_, ts, _) := ReadSome(d', k - 1);
      assert ([r.value] + ts)[1..] == ts;
      var open' := OneToken(d, open);
      TokensAreNested(d', k - 1, open');
    }
  }

  /** The levels that remain once `n` elements are closed. */
  function Beyond(d: Decoder, n: nat): seq<Level> {
    if n <= |Levels(LevelOf(d))| then Levels(LevelOf(d))[n..] else []
  }

  /** Opening or closing a level moves the others by one. */
  lemma BeyondAfter(d: Decoder, d': Decoder, n: nat)
    ensures Levels(LevelOf(d')) == [LevelOf(d')] + Levels(LevelOf(d)) && n <= |Levels(LevelOf(d))| ==> Beyond(d', n + 1) == Beyond(d, n)
    ensures Levels(LevelOf(d)) == [LevelOf(d)] + Levels(LevelOf(d')) && 0 < n <= |Levels(LevelOf(d))| ==> Beyond(d', n - 1) == Beyond(d, n)
  {
    hide Levels;
    var l, l' := Levels(LevelOf(d)), Levels(LevelOf(d'));
    if l' == [LevelOf(d')] + l && n <= |l| {
      DropOneMore(LevelOf(d'), l, n);
    }
    if l == [LevelOf(d)] + l' && 0 < n <= |l| {
      DropOneMore(LevelOf(d), l', n - 1);
    }
  }

  lemma DropOneMore(x: Level, l: seq<Level>, n: nat)
    requires n <= |l|
    ensures ([x] + l)[n + 1..] == l[n..]
  {
  }

  lemma OneToken(d: Decoder, open: seq<Name>) returns (open': seq<Name>)
    requires Settled(d.stk) && NextToken(d).1.Ok? && open <= Names(d.stk)
    requires NextToken(d).1.value.End? ==> open != []
    ensures var (d', r) := NextToken(d);
            && open' <= Names(d'.stk) && Settled(d'.stk) && Beyond(d, |open|) == Beyond(d', |open'|)
            && Moved(r.value, open, open') && Moved(r.value, Names(d.stk), Names(d'.stk))
  {
    TokenMoves(d);
    var (d', r) := NextToken(d);
    open' := if r.value.Start? then [r.value.name] + open else if r.value.End? then open[1..] else open;
    MovedTogether(r.value, open, open', Names(d.stk), Names(d'.stk));
    NamesOfLevels(LevelOf(d));
    NamesOfLevels(LevelOf(d'));
    BeyondAfter(d, d', |open|);
  }

  /** A tag opens or closes the innermost of the open elements. */
  predicate Moved(t: Token, open: seq<Name>, open': seq<Name>) {
    if t.Start? then open' == [t.name] + open
    else if t.End? then open == [t.name] + open'
    else open' == open
  }

  lemma MovedTogether(t: Token, open: seq<Name>, open': seq<Name>, all: seq<Name>, all': seq<Name>)
    requires open <= all && Moved(t, all, all') && (t.End? ==> open != [])
    requires open' == if t.Start? then [t.name] + open else if t.End? then open[1..] else open
    ensures open' <= all' && Moved(t, open, open')
  {
  }

  lemma {:induction false} NamesOfLevels(l: Level)
    requires Settled(l.stk)
    ensures |Levels(l)| == |Names(l.stk)| + 1
    decreases |l.stk|
  {
    if l.stk != [] && l.stk[0].StkStart? {
      UndoShortens(l.stk[1..], l.ns);
      NamesOfLevels(Close(l));
    }
  }

  // ---------- One element ----------

  datatype Outcome = Done | More | Failed(error: Error, depth: nat)

  /** The rest of an element, `depth` levels deep, as far as k tokens go. */
  function ReadElement(d: Decoder, depth: nat, k: nat): (Decoder, seq<Token>, Outcome)
    decreases k
  {
    if depth == 0 then (d, [], Done)
    else if k == 0 then (d, [], More)
    else
      var (d', r) := NextToken(d);
      if r.Err? then (d', [], Failed(r.error, depth))
      else
        var (d'', ts, o) := ReadElement(d', Depth(depth, r.value), k - 1);
        (d'', [r.value] + ts, o)
  }

  function Depth(depth: nat, t: Token): nat
    requires depth > 0
  {
    match t case Start(_, _) => depth + 1 case End(_) => depth - 1 case Other(_) => depth
  }

  // ---------- The fence ----------

  predicate NoFence(stk: seq<Frame>) {
    forall i | 0 <= i < |stk| :: !stk[i].StkEOF?
  }

  predicate OnlyNs(stk: seq<Frame>) {
    forall i | 0 <= i < |stk| :: stk[i].StkNs?
  }

  lemma {:induction false} DeclareAbove(inner: seq<Frame>, below: seq<Frame>, ns: map<Str, Str>, attrs: seq<Attr>)
    requires NoFence(inner)
    ensures var (stk, ns') := DeclareAll(inner, ns, attrs);
            NoFence(stk) && |stk| >= |inner| && DeclareAll(inner + below, ns, attrs) == (stk + below, ns')
    decreases |attrs|
  {
    if attrs != [] {
      if Declares(attrs[0]) {
        var q := DeclaredPrefix(attrs[0]);
        assert PushNs(inner + below, ns, q) == PushNs(inner, ns, q) + below;
        DeclareAbove(PushNs(inner, ns, q), below, ns[q := attrs[0].value], attrs[1..]);
      } else {
        DeclareAbove(inner, below, ns, attrs[1..]);
      }
    }
  }

  lemma {:induction false} UndoAbove(inner: seq<Frame>, below: seq<Frame>, ns: map<Str, Str>)
    requires NoFence(inner) && Settled(below)
    ensures var (stk, ns') := UndoNs(inner, ns);
            NoFence(stk) && UndoNs(inner + below, ns) == (stk + below, ns')
    decreases |inner|
  {
    if inner == [] {
      assert inner + below == below;
    } else {
      assert (inner + below)[1..] == inner[1..] + below;
      if inner[0].StkNs? {
        UndoAbove(inner[1..], below, if inner[0].ok then ns[inner[0].prefix := inner[0].url] else ns - {inner[0].prefix});
      }
    }
  }

  function Opened(stk: seq<Frame>): nat {
    if stk == [] then 0 else (if stk[0].StkStart? then 1 else 0) + Opened(stk[1..])
  }

  lemma {:induction false} OpenedUndo(stk: seq<Frame>, ns: map<Str, Str>)
    ensures Opened(UndoNs(stk, ns).0) == Opened(stk)
    decreases |stk|
  {
    if stk != [] && stk[0].StkNs? {
      OpenedUndo(stk[1..], if stk[0].ok then ns[stk[0].prefix := stk[0].url] else ns - {stk[0].prefix});
    }
  }

  lemma {:induction false} OpenedDeclare(stk: seq<Frame>, ns: map<Str, Str>, attrs: seq<Attr>)
    ensures Opened(DeclareAll(stk, ns, attrs).0) == Opened(stk)
    decreases |attrs|
  {
    if attrs != [] {
      if Declares(attrs[0]) {
        var q := DeclaredPrefix(attrs[0]);
        assert PushNs(stk, ns, q)[1..] == stk;
        OpenedDeclare(PushNs(stk, ns, q), ns[q := attrs[0].value], attrs[1..]);
      } else {
        OpenedDeclare(stk, ns, attrs[1..]);
      }
    }
  }

  /** The element at the fence: its own records, and below them the rest of the stack. */
  datatype Element = Element(name: Name, nss: seq<Frame>, rest: seq<Frame>)

  predicate IsElement(e: Element) {
    OnlyNs(e.nss) && Settled(e.rest)
  }

  function Records(e: Element): seq<Frame> {
    [StkStart(e.name)] + e.nss
  }

  /** Without and with the fence below the element, with the same elements open above it. */
  ghost predicate Fenced(d: Decoder, f: Decoder, e: Element, upper: seq<Frame>) {
    && NoFence(upper) && Settled(upper)
    && d.stk == upper + (Records(e) + e.rest) && f == d.(stk := upper + (Records(e) + ([StkEOF] + e.rest)))
    && d.err.None? && d.tail != Mismatch
  }

  lemma {:induction false} UndoAllNs(nss: seq<Frame>, rest: seq<Frame>, ns: map<Str, Str>)
    requires OnlyNs(nss) && Settled(rest)
    ensures UndoNs(nss + rest, ns) == (rest, UndoNs(nss, ns).1)
    decreases |nss|
  {
    if nss == [] {
      assert nss + rest == rest;
    } else {
      assert (nss + rest)[1..] == nss[1..] + rest;
      UndoAllNs(nss[1..], rest, if nss[0].ok then ns[nss[0].prefix := nss[0].url] else ns - {nss[0].prefix});
    }
  }

  /** A start tag read through the fence. */
  lemma FencedStart(d: Decoder, f: Decoder, e: Element, upper: seq<Frame>, name: Name, attrs: seq<Attr>) returns (upper': seq<Frame>)
    requires IsElement(e) && Fenced(d, f, e, upper)
    ensures StartElement(f, name, attrs).1 == StartElement(d, name, attrs).1
    ensures Fenced(StartElement(d, name, attrs).0, StartElement(f, name, attrs).0, e, upper')
    ensures Opened(upper') == Opened(upper) + 1
  {
    var below, below' := Records(e) + e.rest, Records(e) + ([StkEOF] + e.rest);
    DeclareAbove(upper, below, d.ns, attrs);
    DeclareAbove(upper, below', d.ns, attrs);
    OpenedDeclare(upper, d.ns, attrs);
    var (stk, ns) := DeclareAll(upper, d.ns, attrs);
    var top := [StkStart(Translate(ns, name, true))];
    upper' := top + stk;
    assert upper'[1..] == stk;
    assert top + (stk + below) == upper' + below && top + (stk + below') == upper' + below';
  }

  /** An end tag inside the element, read through the fence. */
  lemma FencedInnerEnd(d: Decoder, f: Decoder, e: Element, upper: seq<Frame>, name: Name) returns (upper': seq<Frame>)
    requires IsElement(e) && Fenced(d, f, e, upper) && upper != []
    ensures EndElement(f, name).1 == EndElement(d, name).1
    ensures EndElement(d, name).1.Ok? ==> Fenced(EndElement(d, name).0, EndElement(f, name).0, e, upper') && Opened(upper') + 1 == Opened(upper)
    ensures EndElement(d, name).1.Err? ==> EndElement(d, name).1.error == Mismatch && !PopEOF(EndElement(f, name).0).1
  {
    var below, below' := Records(e) + e.rest, Records(e) + ([StkEOF] + e.rest);
    assert (upper + below)[1..] == upper[1..] + below && (upper + below')[1..] == upper[1..] + below';
    UndoAbove(upper[1..], below, d.ns);
    UndoAbove(upper[1..], below', d.ns);
    OpenedUndo(upper[1..], d.ns);
    UndoShortens(upper[1..], d.ns);
    upper' := UndoNs(upper[1..], d.ns).0;
  }

  /** The end tag of the element itself, or one in its place. */
  lemma FencedLastEnd(d: Decoder, f: Decoder, e: Element, name: Name)
    requires IsElement(e) && Fenced(d, f, e, [])
    ensures EndElement(f, name).1 == EndElement(d, name).1
    ensures var (d', r) := EndElement(d, name);
            var (f', ok) := PopEOF(EndElement(f, name).0);
            && (ok <==> r.Ok? || e.nss == []) && (ok ==> f' == d')
            && (r.Ok? ==> d'.stk == e.rest && LevelOf(d') == Close(LevelOf(d)))
            && (r.Err? ==> r.error == Mismatch)
  {
    var below, below' := e.nss + e.rest, e.nss + ([StkEOF] + e.rest);
    assert d.stk == [StkStart(e.name)] + below && f.stk == [StkStart(e.name)] + below';
    assert d.stk[1..] == below && f.stk[1..] == below';
    UndoAllNs(e.nss, e.rest, d.ns);
    UndoAllNs(e.nss, [StkEOF] + e.rest, d.ns);
    assert ([StkEOF] + e.rest)[1..] == e.rest;
  }

  /** One token, read without and with the fence. */
  lemma FencedToken(d: Decoder, f: Decoder, e: Element, upper: seq<Frame>) returns (upper': seq<Frame>)
    requires IsElement(e) && Fenced(d, f, e, upper)
    ensures NextToken(f).1 == NextToken(d).1
    ensures FencedAfter(d, f, e, Opened(upper), upper')
  {
    hide ReadRaw;
    upper' := upper;
    var (d1, raw) := RawToken(d);
    var (f1, _) := RawToken(f);
    assert upper != [] ==> upper[0].StkStart?;
    if raw.Ok? {
      assert Fenced(d1, f1, e, upper);
      match raw.value
      case Start(name, attrs) => upper' := FencedStart(d1, f1, e, upper, name, attrs);
      case End(name) =>
        if upper == [] {
          FencedLastEnd(d1, f1, e, name);
        } else {
          upper' := FencedInnerEnd(d1, f1, e, upper, name);
        }
      case Other(_) =>
    }
  }

  ghost predicate FencedAfter(d: Decoder, f: Decoder, e: Element, inside: nat, upper': seq<Frame>) {
    var (d', r) := NextToken(d);
    var (f', _) := NextToken(f);
    var (f'', ok) := PopEOF(f');
    if r.Err? then
      (ok <==> r.error == Mismatch && inside == 0 && e.nss == []) && (ok ==> f'' == d')
    else if r.value.End? && inside == 0 then
      ok && f'' == d' && d'.stk == e.rest && LevelOf(d') == Close(LevelOf(d))
    else
      Fenced(d', f', e, upper') && 1 + Opened(upper') == Depth(1 + inside, r.value)
  }

  /** Through the fence, Token returns the rest of the element and then the end of the input. */
  lemma {:induction false} ReadFenced(d: Decoder, f: Decoder, e: Element, upper: seq<Frame>, k: nat)
    requires IsElement(e) && Fenced(d, f, e, upper)
    ensures FenceHolds(d, f, e, 1 + Opened(upper), k)
    decreases k
  {
    hide NextToken;
    if k == 0 {
      FencedIsOpen(d, f, e, upper);
    } else {
      var upper' := FencedToken(d, f, e, upper);
      var inside := Opened(upper);
      if StaysInside(d, inside) {
        ReadFenced(NextToken(d).0, NextToken(f).0, e, upper', k - 1);
        HoldsOneEarlier(d, f, e, inside, k);
      } else {
        HoldsAtTheEnd(d, f, e, inside, upper', k);
      }
    }
  }

  /** The next token is read, and it does not close the element. */
  predicate StaysInside(d: Decoder, inside: nat) {
    var r := NextToken(d).1;
    r.Ok? && (!r.value.End? || inside > 0)
  }

  lemma FencedIsOpen(d: Decoder, f: Decoder, e: Element, upper: seq<Frame>)
    requires Fenced(d, f, e, upper)
    ensures !PopEOF(f).1
  {
    assert upper != [] ==> upper[0].StkStart?;
  }

  lemma HoldsAtTheEnd(d: Decoder, f: Decoder, e: Element, inside: nat, upper': seq<Frame>, k: nat)
    requires k > 0 && !StaysInside(d, inside) && NextToken(f).1 == NextToken(d).1
    requires FencedAfter(d, f, e, inside, upper')
    ensures FenceHolds(d, f, e, 1 + inside, k)
  {
    var d' := NextToken(d).0;
    if NextToken(d).1.Ok? {
      FenceStops(NextToken(f).0, k - 1);
      assert ReadElement(d', 0, k - 1) == (d', [], Done);
    }
  }

  lemma HoldsOneEarlier(d: Decoder, f: Decoder, e: Element, inside: nat, k: nat)
    requires k > 0 && NextToken(d).1.Ok? && NextToken(f).1 == NextToken(d).1
    requires FenceHolds(NextToken(d).0, NextToken(f).0, e, Depth(1 + inside, NextToken(d).1.value), k - 1)
    ensures FenceHolds(d, f, e, 1 + inside, k)
  {
  }

  lemma FenceStops(f: Decoder, k: nat)
    requires PopEOF(f).1
    ensures ReadSome(f, k) == (f, [], if k == 0 then None else Some(EOF))
  {
  }

  ghost predicate FenceHolds(d: Decoder, f: Decoder, e: Element, depth: nat, k: nat) {
    var (d', us, o) := ReadElement(d, depth, k);
    var (f', ts, err) := ReadSome(f, k);
    var (f'', ok) := PopEOF(f');
    && ts == us && (ok ==> f'' == d')
    && match o
       case Done => ok && d'.stk == e.rest && (err == None || err == Some(EOF))
       case More => !ok && err == None
       case Failed(er, dep) => err == Some(er) && (ok <==> er == Mismatch && dep == 1 && e.nss == [])
  }

  // ---------- Elements as a whole ----------

  /** The stack after a start tag, taken apart. */
  lemma StartOpensElement(d0: Decoder) returns (e: Element)
    requires Settled(d0.stk) && NextToken(d0).1.Ok? && NextToken(d0).1.value.Start?
    ensures IsElement(e) && e.rest == d0.stk && NextToken(d0).0.stk == Records(e) + e.rest
  {
    var (d1, raw) := RawToken(d0);
    e := ElementOfStart(d1, raw.value.name, raw.value.attrs);
  }

  lemma ElementOfStart(d: Decoder, name: Name, attrs: seq<Attr>) returns (e: Element)
    requires Settled(d.stk)
    ensures IsElement(e) && e.rest == d.stk && StartElement(d, name, attrs).0.stk == Records(e) + e.rest
  {
    var nss := DeclareOnlyNs([], d.stk, d.ns, attrs);
    assert [] + d.stk == d.stk;
    e := Element(StartElement(d, name, attrs).0.stk[0].name, nss, d.stk);
  }

  lemma {:induction false} DeclareOnlyNs(nss: seq<Frame>, stk: seq<Frame>, ns: map<Str, Str>, attrs: seq<Attr>) returns (nss': seq<Frame>)
    requires OnlyNs(nss)
    ensures OnlyNs(nss') && DeclareAll(nss + stk, ns, attrs).0 == nss' + stk
    decreases |attrs|
  {
    if attrs == [] {
      nss' := nss;
    } else if Declares(attrs[0]) {
      var q := DeclaredPrefix(attrs[0]);
      assert PushNs(nss + stk, ns, q) == PushNs(nss, ns, q) + stk;
      nss' := DeclareOnlyNs(PushNs(nss, ns, q), stk, ns[q := attrs[0].value], attrs[1..]);
    } else {
      nss' := DeclareOnlyNs(nss, stk, ns, attrs[1..]);
    }
  }

  lemma {:induction false} NsRunIs(nss: seq<Frame>, rest: seq<Frame>)
    requires OnlyNs(nss) && Settled(rest)
    ensures NsRun(nss + rest) == |nss|
  {
    if nss == [] {
      assert nss + rest == rest;
    } else {
      assert (nss + rest)[1..] == nss[1..] + rest;
      NsRunIs(nss[1..], rest);
    }
  }

  lemma PushEOFFences(d: Decoder, e: Element)
    requires IsElement(e) && d.stk == Records(e) + e.rest && d.err.None? && d.tail != Mismatch
    ensures InOpenElement(d.stk) && Fenced(d, PushEOF(d), e, [])
  {
    FencePlace(d.stk, e);
    assert d.stk[0].StkStart?;
    assert [] + (Records(e) + e.rest) == d.stk;
  }

  lemma FencePlace(stk: seq<Frame>, e: Element)
    requires IsElement(e) && stk == Records(e) + e.rest
    ensures stk != [] && var i := ElementEnd(stk);
            stk[..i] + [StkEOF] + stk[i..] == [] + (Records(e) + ([StkEOF] + e.rest))
  {
    assert stk[0].StkStart? && stk[1..] == e.nss + e.rest;
    NsRunIs(e.nss, e.rest);
    assert stk[..1 + |e.nss|] == Records(e) && stk[1 + |e.nss|..] == e.rest;
  }

  lemma FenceHoldsAfterStart(d0: Decoder, k: nat) returns (e: Element)
    requires Settled(d0.stk) && d0.err.None? && d0.tail != Mismatch
    requires NextToken(d0).1.Ok? && NextToken(d0).1.value.Start?
    ensures var d := NextToken(d0).0;
            InOpenElement(d.stk) && |d.stk| == 1 + |e.nss| + |d0.stk| && FenceHolds(d, PushEOF(d), e, 1, k)
  {
    hide NextToken;
    e := FencedAfterStart(d0);
    ReadFenced(NextToken(d0).0, PushEOF(NextToken(d0).0), e, [], k);
  }

  lemma FencedAfterStart(d0: Decoder) returns (e: Element)
    requires Settled(d0.stk) && d0.err.None? && d0.tail != Mismatch
    requires NextToken(d0).1.Ok? && NextToken(d0).1.value.Start?
    ensures var d := NextToken(d0).0;
            InOpenElement(d.stk) && |d.stk| == 1 + |e.nss| + |d0.stk| && IsElement(e) && Fenced(d, PushEOF(d), e, [])
  {
    e := StartOpensElement(d0);
    PushEOFFences(NextToken(d0).0, e);
  }

  /** Whatever one reads after a start tag and a fence: the tokens are those of the rest of the
      element, as they would be read without the fence; and popEOF succeeds, giving the state one
      would have without the fence and at the level before the element, exactly when the whole
      element has been read. There is one exception, `Failed(Mismatch, 1)`: it succeeds as well
      when an element that declares no name space is closed by a wrong end tag. */
  lemma FenceIsExact(d0: Decoder, k: nat)
    requires Settled(d0.stk) && d0.err.None? && d0.tail != Mismatch
    requires NextToken(d0).1.Ok? && NextToken(d0).1.value.Start?
    ensures var d := NextToken(d0).0;
            && InOpenElement(d.stk)
            && var (d', us, o) := ReadElement(d, 1, k);
               var (f', ts, err) := ReadSome(PushEOF(d), k);
               var (f'', ok) := PopEOF(f');
               && ts == us && (ok ==> f'' == d')
               && (ok <==> o.Done? || (o == Failed(Mismatch, 1) && |d.stk| == |d0.stk| + 1))
               && (o.Done? ==> LevelOf(d') == LevelOf(d0) && Run(us, [NextToken(d0).1.value.name]) == Some([]) && (err == None || err == Some(EOF)))
               && (o.More? ==> err == None)
               && (o.Failed? ==> err == Some(o.error))
  {
    var d := NextToken(d0).0;
    var e := FenceHoldsAfterStart(d0, k);
    if ReadElement(d, 1, k).2.Done? {
      ElementRestores(d0, k);
    }
  }

  /** After a start tag and the rest of its element, everything is as it was. */
  lemma ElementRestores(d0: Decoder, k: nat)
    requires Settled(d0.stk) && NextToken(d0).1.Ok? && NextToken(d0).1.value.Start?
    requires ReadElement(NextToken(d0).0, 1, k).2.Done?
    ensures var (d', us, _) := ReadElement(NextToken(d0).0, 1, k);
            LevelOf(d') == LevelOf(d0) && Run(us, [NextToken(d0).1.value.name]) == Some([])
  {
    var d := NextToken(d0).0;
    var name := NextToken(d0).1.value.name;
    TokenMoves(d0);
    ElementIsClosed(d, [name], k);
    var d' := ReadElement(d, 1, k).0;
    assert Levels(LevelOf(d))[1..] == Levels(LevelOf(d0));
    assert Levels(LevelOf(d'))[0] == LevelOf(d') && Levels(LevelOf(d0))[0] == LevelOf(d0);
  }

  /** Reading the rest of an element to its end closes its level. */
  lemma {:induction false} ElementIsClosed(d: Decoder, open: seq<Name>, k: nat)
    requires Settled(d.stk) && open <= Names(d.stk) && ReadElement(d, |open|, k).2.Done?
    ensures var (d', us, _) := ReadElement(d, |open|, k);
            && Run(us, open) == Some([]) && Settled(d'.stk)
            && Beyond(d, |open|) == Levels(LevelOf(d'))
    decreases k
  {
    hide NextToken;
    if open != [] {
      var (d', r) := NextToken(d);
      var open' := OneToken(d, open);
      var (_, us, _) := ReadElement(d', |open'|, k - 1);
      ElementIsClosed(d', open', k - 1);
      RunOn(r.value, us, open, open');
    }
  }

  lemma RunOn(t: Token, ts: seq<Token>, open: seq<Name>, open': seq<Name>)
    requires Moved(t, open, open')
    ensures Run([t] + ts, open) == Run(ts, open')
  {
    assert ([t] + ts)[1..] == ts;
    assert t.End? ==> open[1..] == open';
  }

  // ---------- Skip ----------

  lemma {:induction false} EnoughTokens(d: Decoder, depth: nat, k: nat, k': nat)
    requires k > Left(d) && k' > Left(d)
    ensures ReadElement(d, depth, k) == ReadElement(d, depth, k')
    decreases k
  {
    hide NextToken, Left;
    var (d', r) := NextToken(d);
    if depth > 0 && r.Ok? {
      TokenShortens(d);
      EnoughTokens(d', Depth(depth, r.value), k - 1, k' - 1);
    }
  }

  /** All the rest of an element. */
  function RestOf(d: Decoder, depth: nat): (Decoder, Outcome) {
    var (d', _, o) := ReadElement(d, depth, Left(d) + 1);
    (d', o)
  }

  lemma RestUnfolds(d: Decoder, depth: nat)
    requires depth > 0
    ensures var (d', r) := NextToken(d);
            RestOf(d, depth) == if r.Err? then (d', Failed(r.error, depth)) else RestOf(d', Depth(depth, r.value))
  {
    var (d', r) := NextToken(d);
    if r.Ok? {
      TokenShortens(d);
      EnoughTokens(d', Depth(depth, r.value), Left(d), Left(d') + 1);
    }
  }

  /** Skipping elements by recursion comes to counting how deep one is. */
  lemma {:induction false} SkipReadsRest(d: Decoder, depth: nat)
    ensures var (d', e) := Skip(d);
            if e.None? then RestOf(d, depth + 1) == RestOf(d', depth)
            else RestOf(d, depth + 1).0 == d' && RestOf(d, depth + 1).1.Failed? && RestOf(d, depth + 1).1.error == e.value
    decreases Left(d)
  {
    hide NextToken, Left;
    RestUnfolds(d, depth + 1);
    var (d', r) := NextToken(d);
    if r.Ok? {
      TokenShortens(d);
      match r.value
      case Start(_, _) =>
        SkipReadsRest(d', depth + 1);
        var (d'', e) := Skip(d');
        if e.None? {
          SkipReadsRest(d'', depth);
        }
      case End(_) =>
      case Other(_) => SkipReadsRest(d', depth);
    }
  }

  /** Skip reads exactly the rest of the element: it succeeds exactly when there is one, and then
      leaves the stack and the translations as they were before the start tag. */
  lemma SkipIsExact(d0: Decoder)
    requires Settled(d0.stk) && NextToken(d0).1.Ok? && NextToken(d0).1.value.Start?
    ensures var d := NextToken(d0).0;
            var (d', _, o) := ReadElement(d, 1, Left(d) + 1);
            var (s, e) := Skip(d);
            s == d' && (e.None? <==> o.Done?) && (e.None? ==> LevelOf(s) == LevelOf(d0))
  {
    hide NextToken, Skip, Left;
    var d := NextToken(d0).0;
    SkipReadsRest(d, 0);
    EnoughIsNotMore(d, 1, Left(d) + 1);
    if Skip(d).1.None? {
      ElementRestores(d0, Left(d) + 1);
    }
  }

  lemma {:induction false} EnoughIsNotMore(d: Decoder, depth: nat, k: nat)
    requires k > Left(d)
    ensures !ReadElement(d, depth, k).2.More?
    decreases k
  {
    hide NextToken, Left;
    var (d', r) := NextToken(d);
    if depth > 0 && r.Ok? {
      TokenShortens(d);
      EnoughIsNotMore(d', Depth(depth, r.value), k - 1);
    }
  }

  // ---------- unmarshalInterface ----------

  datatype Unmarshalled = Fine | UserError | NotConsumed

  /** unmarshalInterface, for a user that reads k tokens, or up to the first error, and then
      reports a failure or not. */
  function UnmarshalInterface(d: Decoder, k: nat, fails: bool): (Decoder, Unmarshalled)
    requires InOpenElement(d.stk)
  {
    var f := ReadSome(PushEOF(d), k).0;
    var (d', ok) := PopEOF(f);
    (d', if fails then UserError else if ok then Fine else NotConsumed)
  }

  /** It succeeds when the user has read the whole element and does not complain, and then the
      decoder is where it would be had it skipped the element. */
  lemma UnmarshalIsExact(d0: Decoder, k: nat, fails: bool)
    requires Settled(d0.stk) && d0.err.None? && d0.tail != Mismatch
    requires NextToken(d0).1.Ok? && NextToken(d0).1.value.Start?
    ensures var d := NextToken(d0).0;
            && InOpenElement(d.stk)
            && var (d', _, o) := ReadElement(d, 1, k);
               var (u, r) := UnmarshalInterface(d, k, fails);
               && (r == Fine <==> !fails && (o.Done? || (o == Failed(Mismatch, 1) && |d.stk| == |d0.stk| + 1)))
               && (o.Done? ==> u == d' && Skip(d) == (u, None) && LevelOf(u) == LevelOf(d0))
  {
    var d := NextToken(d0).0;
    FenceIsExact(d0, k);
    if ReadElement(d, 1, k).2.Done? {
      SkipAgrees(d, k);
    }
  }

  lemma SkipAgrees(d: Decoder, k: nat)
    requires ReadElement(d, 1, k).2.Done?
    ensures Skip(d) == (ReadElement(d, 1, k).0, None)
  {
    DoneEarly(d, 1, k, Left(d) + 1);
    SkipReadsRest(d, 0);
  }

  /** Once the element is read, a larger limit changes nothing. */
  lemma {:induction false} DoneEarly(d: Decoder, depth: nat, k: nat, k': nat)
    requires ReadElement(d, depth, k).2.Done? && k' > Left(d)
    ensures ReadElement(d, depth, k') == ReadElement(d, depth, k)
    decreases k
  {
    hide NextToken, Left;
    if depth > 0 {
      var (d', r) := NextToken(d);
      TokenShortens(d);
      DoneEarly(d', Depth(depth, r.value), k - 1, k' - 1);
    }
  }

  // ---------- A user that goes on ----------

  /** An error is reported again and again, and nothing more is read. */
  lemma ErrorsStay(d: Decoder)
    requires NextToken(d).1.Err?
    ensures NextToken(NextToken(d).0).0 == NextToken(d).0 && NextToken(NextToken(d).0).1.Err?
  {
    hide ReadRaw;
  }

  /** Reading can be done in two goes, even after an error. */
  lemma {:induction false} ReadOn(d: Decoder, j: nat, k: nat)
    ensures ReadSome(ReadSome(d, j).0, k).0 == ReadSome(d, j + k).0
    decreases j, k
  {
    hide NextToken;
    if j > 0 {
      var (d', r) := NextToken(d);
      if r.Ok? {
        ReadOn(d', j - 1, k);
      } else if k > 0 {
        ErrorsStay(d);
      }
    }
  }

  /** The user of an element reads j tokens and does not come to its end, so its fence is left on
      the stack; and whoever has asked for that goes on all the same and reads k more. The next
      popEOF, which was to take off another fence, then succeeds exactly when by now the element
      with the fence that was left has been read whole, with the exception of before; and it takes
      off that fence. */
  lemma LeftFenceIsTaken(d0: Decoder, j: nat, k: nat)
    requires Settled(d0.stk) && d0.err.None? && d0.tail != Mismatch
    requires NextToken(d0).1.Ok? && NextToken(d0).1.value.Start? && InOpenElement(NextToken(d0).0.stk)
    requires !PopEOF(ReadSome(PushEOF(NextToken(d0).0), j).0).1
    ensures var d := NextToken(d0).0;
            var left := PopEOF(ReadSome(PushEOF(d), j).0).0;
            var (g, ok) := PopEOF(ReadSome(left, k).0);
            var o := ReadElement(d, 1, j + k).2;
            && (ok <==> o.Done? || (o == Failed(Mismatch, 1) && |d.stk| == |d0.stk| + 1))
            && (o.Done? ==> LevelOf(g) == LevelOf(d0))
  {
    hide NextToken, ReadSome, ReadElement;
    var d := NextToken(d0).0;
    FenceIsExact(d0, j + k);
    ReadOn(PushEOF(d), j, k);
  }

  /** The exception happens: <a></b> read through a fence passes for a whole element. */
  lemma WrongEndPasses(t: Tables)
    ensures var a, b := Name([], [0x61]), Name([], [0x62]);
            var d0 := XmlDecoder.Start(Spell(Token.Start(a, [])) + Spell(End(b)), EOF, t);
            var d := NextToken(d0).0;
            && InOpenElement(d.stk)
            && UnmarshalInterface(d, 1, false).1 == Fine && Skip(d).1 == Some(Mismatch)
  {
    hide ReadRaw, Spell, Skip, UnmarshalInterface, IsWrittenName;
    var a, b := Name([], [0x61]), Name([], [0x62]);
    var d0 := XmlDecoder.Start(Spell(Token.Start(a, [])) + Spell(End(b)), EOF, t);
    LetterIsName(t, 0x61);
    LetterIsName(t, 0x62);
    JoinNcNames(t, a);
    JoinNcNames(t, b);
    TagReadsExactly(t, Token.Start(a, []), Spell(End(b)));
    TagReadsExactly(t, End(b), []);
    assert Spell(End(b)) + [] == Spell(End(b)) && CleanAttrs([]) == [];
    WrongEndRead(d0, a, b);
  }

  lemma WrongEndRead(d0: Decoder, a: Name, b: Name)
    requires d0.stk == [] && d0.ns == map[] && d0.pending == [] && d0.input != [] && d0.err.None?
    requires ReadRaw(d0.tables, d0.input) == Got(Raw(Token.Start(a, []), false), Spell(End(b)))
    requires ReadRaw(d0.tables, Spell(End(b))) == Got(Raw(End(b), false), [])
    requires a.space == [] && b.space == [] && a != b
    ensures var d := NextToken(d0).0;
            && InOpenElement(d.stk)
            && UnmarshalInterface(d, 1, false).1 == Fine && Skip(d).1 == Some(Mismatch)
  {
    var d := NextToken(d0).0;
    assert d.stk == [StkStart(a)];
    assert d.stk[0].StkStart?;
    assert PushEOF(d).stk == [StkStart(a), StkEOF];
    var f := NextToken(PushEOF(d));
    assert f.0.stk == [StkEOF];
    assert ReadSome(PushEOF(d), 1).0 == f.0;
  }
}
