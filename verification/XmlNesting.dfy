/** The printer alone: prefixes and URLs are mutually inverse, and closing an element undoes what
    its start tag has declared. */
module XmlNesting {
  import opened Utf8
  import opened XmlTypes
  import opened XmlNames
  import opened XmlPrinter
  import X = XmlText

  // ---------- The printer's two maps ----------

  predicate PrefixOk(s: Spaces, q: Str) {
    q in s.attrNS ==> q != [] && q != XMLNS && s.attrNS[q] != [] && s.attrNS[q] in s.attrPrefix && s.attrPrefix[s.attrNS[q]] == q
  }

  predicate UrlOk(s: Spaces, u: Str) {
    u in s.attrPrefix ==> s.attrPrefix[u] in s.attrNS && s.attrNS[s.attrPrefix[u]] == u
  }

  /** Prefixes and URLs are mutually inverse; and xmlns is no prefix. */
  ghost predicate Bijective(s: Spaces) {
    && (forall q {:trigger PrefixOk(s, q)} :: PrefixOk(s, q))
    && (forall u {:trigger UrlOk(s, u)} :: UrlOk(s, u))
  }

  /** What is pushed: a new default, or a prefix for a URL that has none. */
  predicate Pushable(s: Spaces, prefix: Str, url: Str) {
    prefix != [] ==> prefix != XMLNS && url != [] && url !in s.attrPrefix
  }

  lemma PushKeepsBijective(s: Spaces, prefix: Str, url: Str)
    requires Bijective(s) && Pushable(s, prefix, url)
    ensures Bijective(SetAttrPrefix(s, prefix, url))
  {
    var s' := SetAttrPrefix(s, prefix, url);
    forall q ensures PrefixOk(s', q) {
      assert PrefixOk(s, q) && PrefixOk(s, prefix);
    }
    forall u ensures UrlOk(s', u) {
      assert UrlOk(s, u) && PrefixOk(s, prefix);
    }
  }

  /** The record that a push makes undoes it. */
  lemma UndoPush(s: Spaces, prefix: Str, url: Str)
    requires Bijective(s) && Pushable(s, prefix, url)
    ensures SetAttrPrefix(SetAttrPrefix(s, prefix, url), prefix, NsForPrefix(s, prefix)) == s
  {
    assert PrefixOk(s, prefix) && UrlOk(s, url) && UrlOk(s, []);
    NoEmptyUrl(s);
    var s' := SetAttrPrefix(SetAttrPrefix(s, prefix, url), prefix, NsForPrefix(s, prefix));
    assert s'.attrNS == s.attrNS;
    assert s'.attrPrefix == s.attrPrefix;
  }

  lemma NoEmptyUrl(s: Spaces)
    requires Bijective(s)
    ensures [] !in s.attrPrefix
  {
    assert UrlOk(s, []);
    assert [] in s.attrPrefix ==> PrefixOk(s, s.attrPrefix[[]]);
  }

  // ---------- Inside an element ----------

  /** The declarations above the mark of the element that began at p0. */
  function Above(p0: Printer, p: Printer): seq<Undo>
    requires |p0.prefixes| < |p.prefixes|
  {
    p.prefixes[|p0.prefixes| + 1..]
  }

  predicate Touched(us: seq<Undo>, q: Str) {
    exists i :: 0 <= i < |us| && us[i].prefix == q
  }

  lemma TouchedSnoc(us: seq<Undo>, u: Undo, q: Str)
    ensures Touched(us + [u], q) <==> Touched(us, q) || u.prefix == q
  {
    if Touched(us, q) {
      var i :| 0 <= i < |us| && us[i].prefix == q;
      assert (us + [u])[i].prefix == q;
    }
    assert (us + [u])[|us|] == u;
    if Touched(us + [u], q) && u.prefix != q {
      var i :| 0 <= i < |us + [u]| && (us + [u])[i].prefix == q;
      assert us[i].prefix == q;
    }
  }

  /** The prefix maps as before; or it has been declared in this element. */
  predicate SameOrTouched(p0: Printer, p: Printer, us: seq<Undo>, q: Str) {
    if Touched(us, q) then q != [] ==> q in p.spaces.attrNS
    else if q == [] then p.spaces.defaultNS == p0.spaces.defaultNS
    else (q in p.spaces.attrNS <==> q in p0.spaces.attrNS) && (q in p.spaces.attrNS ==> p.spaces.attrNS[q] == p0.spaces.attrNS[q])
  }

  /** p is in the middle of the element that began at p0: popping goes back to p0. */
  ghost predicate InElement(p0: Printer, p: Printer) {
    && |p0.prefixes| < |p.prefixes|
    && p.prefixes[..|p0.prefixes| + 1] == p0.prefixes + [MARK]
    && (forall u | u in Above(p0, p) :: !u.mark)
    && Bijective(p.spaces)
    && PopPrefix(p).spaces == p0.spaces && PopPrefix(p).prefixes == p0.prefixes
    && (forall q {:trigger SameOrTouched(p0, p, Above(p0, p), q)} :: SameOrTouched(p0, p, Above(p0, p), q))
  }

  lemma MarkBegins(p0: Printer, p: Printer)
    requires Bijective(p0.spaces) && p.spaces == p0.spaces && p.prefixes == p0.prefixes
    ensures InElement(p0, MarkPrefix(p))
  {
    var m := MarkPrefix(p);
    assert m.prefixes[..|m.prefixes| - 1] == p0.prefixes;
    forall q ensures SameOrTouched(p0, m, Above(p0, m), q) {
    }
  }

  lemma PushStaysIn(p0: Printer, p: Printer, prefix: Str, url: Str)
    requires InElement(p0, p) && Pushable(p.spaces, prefix, url)
    ensures InElement(p0, PushPrefix(p, prefix, url))
  {
    hide Bijective, PopPrefix;
    var p' := PushPrefix(p, prefix, url);
    PushKeepsBijective(p.spaces, prefix, url);
    PopPushed(p, prefix, url);
    var us, u := Above(p0, p), p'.prefixes[|p'.prefixes| - 1];
    assert Above(p0, p') == us + [u];
    forall q ensures SameOrTouched(p0, p', us + [u], q) {
      assert SameOrTouched(p0, p, us, q);
      TouchedSnoc(us, u, q);
    }
  }

  lemma PopPushed(p: Printer, prefix: Str, url: Str)
    requires Bijective(p.spaces) && Pushable(p.spaces, prefix, url)
    ensures var p' := PopPrefix(PushPrefix(p, prefix, url));
            p'.spaces == PopPrefix(p).spaces && p'.prefixes == PopPrefix(p).prefixes
  {
    var p' := PushPrefix(p, prefix, url);
    UndoPush(p.spaces, prefix, url);
    assert p'.prefixes[..|p'.prefixes| - 1] == p.prefixes;
    PopIgnoresRest(p, p'.(prefixes := p.prefixes, spaces := p.spaces));
  }

  /** Popping looks only at the records and the maps. */
  lemma {:induction false} PopIgnoresRest(p: Printer, p': Printer)
    requires p.prefixes == p'.prefixes && p.spaces == p'.spaces
    ensures PopPrefix(p).spaces == PopPrefix(p').spaces && PopPrefix(p).prefixes == PopPrefix(p').prefixes
    decreases |p.prefixes|
  {
    if p.prefixes != [] {
      var u, rest := p.prefixes[|p.prefixes| - 1], p.prefixes[..|p.prefixes| - 1];
      if !u.mark {
        var s := SetAttrPrefix(p.spaces, u.prefix, u.url);
        PopIgnoresRest(p.(prefixes := rest, spaces := s), p'.(prefixes := rest, spaces := s));
      }
    }
  }

  // ---------- The prefixes of a start tag ----------

  lemma {:induction false} DefineAllStaysIn(p0: Printer, p: Printer, attrs: seq<Attr>, ignore: bool)
    requires InElement(p0, p)
    ensures InElement(p0, DefineAll(p, attrs, ignore).0) && DefineAll(p, attrs, ignore).0.tags == p.tags
    decreases |attrs|
  {
    if attrs != [] {
      var r := DefineNS(p, attrs[0], ignore);
      if r.Ok? {
        if r.value != p {
          var prefix := if attrs[0].name.local == XMLNS then [] else attrs[0].name.local;
          PushStaysIn(p0, p, prefix, attrs[0].value);
        }
        DefineAllStaysIn(p0, r.value, attrs[1..], ignore);
      }
    }
  }

  /** A prefix that means what its declaration says. */
  predicate GoodPrefix(q: Str) {
    q != XML && q != XMLNS && q != XML_URL
  }

  lemma InventedIsGood(p: Printer, url: Str, t: Tables)
    ensures var q := InventPrefix(p, url, t).0;
            q != [] && GoodPrefix(q) && IsNcName(t, q) && Get(p.spaces.attrNS, q) == []
  {
    var base := BasePrefix(url, t);
    var (q, n) := InventPrefix(p, url, t);
    XmlUrl();
    if q != base {
      NumberedIsName(base, n, t);
    }
  }

  lemma NumberedIsName(base: Str, n: nat, t: Tables)
    requires IsNcName(t, base) && !HasPrefix(base, XML)
    ensures IsNcName(t, Numbered(base, n)) && !HasPrefix(Numbered(base, n), XML)
  {
    var q, tail := Numbered(base, n), [UNDERSCORE] + X.DecimalDigits(n);
    DigitsAreLater(t, n);
    LaterOne(t, UNDERSCORE);
    LaterAppend(t, [UNDERSCORE], X.DecimalDigits(n));
    NameAppend(t, base, tail);
    assert q[|base|] == UNDERSCORE && q[..|base|] == base;
    if |base| >= 3 {
      assert q[..3] == base[..3];
    } else {
      assert XML[|base|] != UNDERSCORE;
    }
  }

  lemma {:induction false} DigitsAreLater(t: Tables, n: nat)
    ensures AreLater(t, X.DecimalDigits(n)) && forall b | b in X.DecimalDigits(n) :: 0x30 <= b <= 0x39
  {
    var d: Byte := 0x30 + n % 10;
    LaterOne(t, d);
    if n >= 10 {
      DigitsAreLater(t, n / 10);
      LaterAppend(t, X.DecimalDigits(n / 10), [d]);
    } else {
      assert X.DecimalDigits(n) == [d];
    }
  }

  /** The name space has a way to be written. */
  predicate Encodable(s: Spaces, url: Str, isAttr: bool) {
    url == XML_URL || url in s.attrPrefix || if isAttr then url == [] else url == s.defaultNS
  }

  lemma CreateStaysIn(p0: Printer, p: Printer, url: Str, isAttr: bool, t: Tables)
    requires InElement(p0, p) && (isAttr ==> url != [])
    ensures var p' := CreateNSPrefix(p, url, isAttr, t);
            && InElement(p0, p') && p'.tags == p.tags
            && Encodable(p'.spaces, url, isAttr)
            && forall u | Encodable(p.spaces, u, true) :: Encodable(p'.spaces, u, true)
  {
    NoEmptyUrl(p.spaces);
    if url in p.spaces.attrPrefix || (!isAttr && url == p.spaces.defaultNS) || url == XML_URL {
    } else if url == [] {
      PushStaysIn(p0, p, [], []);
    } else {
      var (q, n) := InventPrefix(p, url, t);
      InventedIsGood(p, url, t);
      var p1 := p.(counter := n);
      PopIgnoresRest(p, p1);
      assert InElement(p0, p1) by {
        forall r ensures SameOrTouched(p0, p1, Above(p0, p1), r) {
          assert SameOrTouched(p0, p, Above(p0, p), r);
        }
      }
      PushStaysIn(p0, p1, q, url);
    }
  }

  lemma {:induction false} CreateAllStaysIn(p0: Printer, p: Printer, attrs: seq<Attr>, t: Tables)
    requires InElement(p0, p)
    ensures var p' := CreateAll(p, attrs, t);
            && InElement(p0, p') && p'.tags == p.tags
            && (forall u | Encodable(p.spaces, u, true) :: Encodable(p'.spaces, u, true))
            && (forall a | a in attrs && !IsNamespace(a.name) :: Encodable(p'.spaces, a.name.space, true))
    decreases |attrs|
  {
    if attrs != [] {
      var n := attrs[0].name;
      if n.space != [] && !IsNamespace(n) {
        CreateStaysIn(p0, p, n.space, true, t);
        CreateAllStaysIn(p0, CreateNSPrefix(p, n.space, true, t), attrs[1..], t);
      } else {
        CreateAllStaysIn(p0, p, attrs[1..], t);
      }
    }
  }

  // ---------- One element ----------

  lemma {:induction false} PopKeepsTags(p: Printer)
    ensures PopPrefix(p).tags == p.tags && PopPrefix(p).counter == p.counter
    decreases |p.prefixes|
  {
    if p.prefixes != [] {
      var u, rest := p.prefixes[|p.prefixes| - 1], p.prefixes[..|p.prefixes| - 1];
      if !u.mark {
        PopKeepsTags(p.(prefixes := rest, spaces := SetAttrPrefix(p.spaces, u.prefix, u.url)));
      }
    }
  }

  /** The printer once the element on top is closed. */
  function Closed(p: Printer): Printer
    requires p.tags != []
  {
    PopPrefix(p.(tags := p.tags[..|p.tags| - 1]))
  }

  /** All that matters of the printer but its counter. */
  predicate SameSpaces(p: Printer, p': Printer) {
    p.spaces == p'.spaces && p.prefixes == p'.prefixes && p.tags == p'.tags
  }

  /** A start tag with a name opens an element, whether it is accepted or refused for what its
      attributes declare; closing it at once undoes it. */
  lemma StartOpens(p: Printer, name: Name, attrs: seq<Attr>, t: Tables)
    requires Bijective(p.spaces) && name.local != []
    ensures var p' := WriteStart(p, name, attrs, t).0;
            InElement(p, p') && p'.tags == p.tags + [name] && SameSpaces(Closed(p'), p)
  {
    hide Bijective, Encodable;
    var p0 := p.(tags := p.tags + [name]);
    MarkBegins(p, p0);
    var p1 := MarkPrefix(p0);
    DefineAllStaysIn(p, p1, attrs, name.space == []);
    var (p2, ok) := DefineAll(p1, attrs, name.space == []);
    var p3 := CreateAll(p2, attrs, t);
    if ok {
      CreateAllStaysIn(p, p2, attrs, t);
      CreateStaysIn(p, p3, name.space, false, t);
    }
    ClosedAtOnce(p, name, WriteStart(p, name, attrs, t).0);
  }

  lemma ClosedAtOnce(p: Printer, name: Name, p': Printer)
    requires InElement(p, p') && p'.tags == p.tags + [name]
    ensures SameSpaces(Closed(p'), p)
  {
    var p1 := p'.(tags := p'.tags[..|p'.tags| - 1]);
    PopIgnoresRest(p', p1);
    PopKeepsTags(p1);
  }

  /** All names of an accepted start tag have a way to be written. */
  lemma StartEncodes(p: Printer, name: Name, attrs: seq<Attr>, t: Tables)
    requires Bijective(p.spaces) && WriteStart(p, name, attrs, t).1.Ok?
    ensures var p' := WriteStart(p, name, attrs, t).0;
            Encodable(p'.spaces, name.space, false) && forall a | a in Plain(attrs) :: Encodable(p'.spaces, a.name.space, true)
  {
    hide Bijective, Encodable;
    var p0 := p.(tags := p.tags + [name]);
    MarkBegins(p, p0);
    var p1 := MarkPrefix(p0);
    DefineAllStaysIn(p, p1, attrs, name.space == []);
    var p2 := DefineAll(p1, attrs, name.space == []).0;
    CreateAllStaysIn(p, p2, attrs, t);
    CreateStaysIn(p, CreateAll(p2, attrs, t), name.space, false, t);
    PlainIn(attrs);
  }

  lemma {:induction false} PlainIn(attrs: seq<Attr>)
    ensures forall a | a in Plain(attrs) :: a in attrs && IsPlain(a)
  {
    if attrs != [] {
      PlainIn(attrs[1..]);
    }
  }

  // ---------- The printer over a run ----------

  /** Every open element can be closed, back to a state like the one before it. */
  ghost predicate Nested(p: Printer)
    decreases |p.tags|
  {
    && Bijective(p.spaces)
    && if p.tags == [] then p.prefixes == []
       else |Closed(p).tags| == |p.tags| - 1 && Nested(Closed(p))
  }

  lemma {:induction false} NestedIgnoresCounter(p: Printer, p': Printer)
    requires Nested(p) && SameSpaces(p, p')
    ensures Nested(p') && OpenNames(p') == OpenNames(p)
    decreases |p.tags|
  {
    if p.tags != [] {
      ClosedIgnoresCounter(p, p');
      NestedIgnoresCounter(Closed(p), Closed(p'));
    }
  }

  lemma ClosedIgnoresCounter(p: Printer, p': Printer)
    requires p.tags != [] && SameSpaces(p, p')
    ensures SameSpaces(Closed(p), Closed(p'))
  {
    var tags := p.tags[..|p.tags| - 1];
    PopIgnoresRest(p.(tags := tags), p'.(tags := tags));
    PopKeepsTags(p.(tags := tags));
    PopKeepsTags(p'.(tags := tags));
  }

  /** The end tags the printer is going to write, innermost first. */
  ghost function OpenNames(p: Printer): seq<Name>
    requires Nested(p)
    decreases |p.tags|
  {
    if p.tags == [] then [] else [WrittenName(p.spaces, p.tags[|p.tags| - 1], false)] + OpenNames(Closed(p))
  }

  /** Every end tag in the raw output carries the name of the start tag it closes. */
  predicate Balanced(ts: seq<Token>, open: seq<Name>)
    decreases |ts|
  {
    ts == [] ||
    match ts[0]
    case Start(name, _) => Balanced(ts[1..], [name] + open)
    case End(name) => open != [] && open[0] == name && Balanced(ts[1..], open[1..])
    case Other(_) => Balanced(ts[1..], open)
  }

  /** Every token, accepted or refused, keeps all open elements closable; an accepted one opens or
      closes what it should. */
  lemma TokenKeepsNested(p: Printer, token: Token, t: Tables, buffered: bool)
    requires Nested(p)
    ensures var (p', w) := EncodeToken(p, token, t, buffered);
            && Nested(p')
            && (w.Ok? ==>
                match w.value
                case Start(name, _) => OpenNames(p') == [name] + OpenNames(p)
                case End(name) => OpenNames(p) == [name] + OpenNames(p')
                case Other(_) => p' == p)
  {
    var (p', w) := EncodeToken(p, token, t, buffered);
    if token.Start? && token.name.local != [] {
      StartOpens(p, token.name, token.attrs, t);
      NestedIgnoresCounter(p, Closed(p'));
      OpenedNested(p, p');
    }
  }

  lemma OpenedNested(p: Printer, p': Printer)
    requires p'.tags != [] && InElement(p, p') && |p'.tags| == |p.tags| + 1 && SameSpaces(Closed(p'), p) && Nested(Closed(p'))
    ensures Nested(p')
  {
  }

  /** Whatever tags the encoder accepts, it writes a balanced document. */
  lemma {:induction false} OutputIsBalanced(p: Printer, ts: seq<Token>, t: Tables, buffered: nat -> bool)
    requires Nested(p) && EncodeAll(p, ts, t, buffered).1.Ok?
    ensures Nested(EncodeAll(p, ts, t, buffered).0)
    ensures Balanced(EncodeAll(p, ts, t, buffered).1.value, OpenNames(p))
    decreases |ts|
  {
    if ts != [] {
      TokenKeepsNested(p, ts[0], t, buffered(|ts|));
      var (p', w) := EncodeToken(p, ts[0], t, buffered(|ts|));
      var ws := EncodeAll(p', ts[1..], t, buffered).1.value;
      OutputIsBalanced(p', ts[1..], t, buffered);
      assert ([w.value] + ws)[1..] == ws;
      if w.value.End? {
        assert OpenNames(p)[1..] == OpenNames(p');
      }
    }
  }
}
