/** Reading back what the encoder has written, from the bytes: the prefixes of the printer and the
    translations of the decoder stay in step, element by element. */
module XmlRoundTrip {
  import opened Wrappers
  import opened Utf8
  import opened XmlTypes
  import opened XmlNames
  import opened XmlRaw
  import opened XmlSpelling
  import opened XmlPrinter
  import opened XmlNesting
  import D = XmlDecoder
  import X = XmlText
  import XmlFence

  // ---------- In step with the decoder ----------

  /** A name as it is read: its URL without what XML has no room for. */
  function CleanName(n: Name): Name {
    Name(X.Cleaned(n.space), n.local)
  }

  predicate NsAt(s: Spaces, ns: map<Str, Str>, q: Str) {
    if q == [] then Get(ns, q) == X.Cleaned(s.defaultNS)
    else (q in ns <==> q in s.attrNS) && (q in ns ==> ns[q] == X.Cleaned(s.attrNS[q]))
  }

  /** The decoder's translations are the printer's prefixes. */
  ghost predicate NsMatch(s: Spaces, ns: map<Str, Str>) {
    forall q {:trigger NsAt(s, ns, q)} :: NsAt(s, ns, q)
  }

  /** The prefixes in use are names without colons, and mean what they say. */
  predicate PrefixesOk(t: Tables, s: Spaces) {
    forall q | q in s.attrNS :: IsNcName(t, q) && GoodPrefix(q)
  }

  /** What the decoder translates from xml is the XML name space. */
  predicate XmlIsFree(s: Spaces) {
    XML !in s.attrNS && XML_URL !in s.attrNS
  }

  lemma CleanedUrl(u: Str)
    ensures X.Cleaned(u) == [] <==> u == []
    ensures u == XML_URL ==> X.Cleaned(u) == u
    ensures X.Cleaned(u) == XMLNS ==> u == XMLNS
  {
    hide X.Cleaned;
    EscapedStarts(u);
    XmlUrlStays();
    if X.Cleaned(u) == XMLNS {
      AsciiIsNotCleaned(u);
    }
  }

  lemma XmlUrlStays()
    ensures X.Cleaned(XML_URL) == XML_URL
  {
    hide X.Cleaned, X.AllInRange;
    XmlUrl();
    AsciiInRange(XML_URL);
    X.CleanedIsIdentity(XML_URL);
  }

  lemma {:induction false} AsciiInRange(s: Str)
    requires forall i | 0 <= i < |s| :: 0x20 <= s[i] < 0x80
    ensures X.AllInRange(s)
    decreases |s|
  {
    if s != [] {
      assert Decode(s) == (s[0] as int, 1);
      AsciiInRange(s[1..]);
    }
  }

  /** What is replaced is not ASCII. */
  lemma {:induction false} AsciiIsNotCleaned(s: Str)
    requires forall i | 0 <= i < |X.Cleaned(s)| :: X.Cleaned(s)[i] < 0x80
    ensures X.Cleaned(s) == s
    decreases |s|
  {
    if s != [] {
      var n := Decode(s).1;
      var c, rest := X.CleanedRune(s), X.Cleaned(s[n..]);
      assert X.Cleaned(s) == c + rest;
      assert forall i | 0 <= i < |rest| :: rest[i] == (c + rest)[|c| + i];
      assert X.Cleaned(s)[0] == c[0] && BAD[0] >= 0x80;
      AsciiIsNotCleaned(s[n..]);
      assert s == s[..n] + s[n..];
    }
  }

  /** The URL that the prefix xml is translated to. */
  function XmlMeans(s: Spaces): Str {
    if XML_URL in s.attrNS then X.Cleaned(s.attrNS[XML_URL]) else XML_URL
  }

  /** Written and translated back, a name is what it was, cleaned, exactly when its prefix is not an
      xml that stands for another URL. */
  lemma NameBack(s: Spaces, ns: map<Str, Str>, n: Name, isAttr: bool)
    requires Bijective(s) && NsMatch(s, ns) && Encodable(s, n.space, isAttr)
    requires n.local != XMLNS && (isAttr ==> n.space != XMLNS)
    ensures var x := WrittenName(s, n, isAttr);
            && x.space != XMLNS
            && (D.Translate(ns, x, !isAttr) == CleanName(n) <==> (x.space == XML ==> X.Cleaned(n.space) == XmlMeans(s)))
  {
    hide X.Cleaned, Bijective;
    CleanedUrl(n.space);
    CleanedUrl([]);
    PrefixMeans(s, ns, n.space, isAttr);
  }

  lemma NameStays(s: Spaces, ns: map<Str, Str>, n: Name, isAttr: bool)
    requires Bijective(s) && XmlIsFree(s) && NsMatch(s, ns) && Encodable(s, n.space, isAttr)
    requires n.local != XMLNS && (isAttr ==> n.space != XMLNS)
    ensures D.Translate(ns, WrittenName(s, n, isAttr), !isAttr) == CleanName(n)
    ensures WrittenName(s, n, isAttr).space != XMLNS
  {
    hide X.Cleaned, Bijective;
    CleanedUrl(n.space);
    PrefixMeans(s, ns, n.space, isAttr);
    NameBack(s, ns, n, isAttr);
  }

  /** The prefix that is written for a URL is none, or xml, or one that is translated to it; it is
      xml for another URL only if that has been declared. */
  lemma PrefixMeans(s: Spaces, ns: map<Str, Str>, u: Str, isAttr: bool)
    requires Bijective(s) && NsMatch(s, ns) && Encodable(s, u, isAttr)
    ensures var q := PrefixForNS(s, u, isAttr);
            && q != XMLNS && (u == XML_URL ==> q == XML) && (q == XML && u != XML_URL ==> XML in s.attrNS)
            && (q == [] ==> if isAttr then u == [] else u == s.defaultNS)
            && (isAttr && u == [] ==> q == [])
            && (q != [] && q != XML ==> q in ns && ns[q] == X.Cleaned(u))
            && Get(ns, []) == X.Cleaned(s.defaultNS)
            && (XML_URL in ns <==> XML_URL in s.attrNS) && (XML_URL in ns ==> ns[XML_URL] == X.Cleaned(s.attrNS[XML_URL]))
  {
    hide X.Cleaned;
    var q := PrefixForNS(s, u, isAttr);
    NoEmptyUrl(s);
    XmlUrl();
    assert NsAt(s, ns, []);
    assert NsAt(s, ns, q) && NsAt(s, ns, XML_URL) && UrlOk(s, u) && PrefixOk(s, q);
    assert u in s.attrPrefix ==> PrefixOk(s, s.attrPrefix[u]);
  }

  function AttrsAsRead(attrs: seq<Attr>): seq<Attr> {
    if attrs == [] then [] else [Attr(CleanName(attrs[0].name), X.Cleaned(attrs[0].value))] + AttrsAsRead(attrs[1..])
  }

  lemma {:induction false} AttrsBack(s: Spaces, ns: map<Str, Str>, attrs: seq<Attr>)
    requires Bijective(s) && XmlIsFree(s) && NsMatch(s, ns)
    requires forall a | a in attrs :: IsPlain(a) && Encodable(s, a.name.space, true)
    ensures D.TranslateAttrs(ns, CleanAttrs(WrittenAttrs(s, attrs))) == AttrsAsRead(attrs)
  {
    if attrs != [] {
      NameStays(s, ns, attrs[0].name, true);
      AttrsBack(s, ns, attrs[1..]);
      CleanStep(WrittenAttrs(s, attrs));
      assert WrittenAttrs(s, attrs)[1..] == WrittenAttrs(s, attrs[1..]);
    }
  }

  // ---------- Declarations read back ----------

  /** Reading tags that declare nothing leaves the translations alone. */
  lemma {:induction false} DeclareNothing(stk: seq<D.Frame>, ns: map<Str, Str>, attrs: seq<Attr>)
    requires forall a | a in attrs :: !D.Declares(a)
    ensures D.DeclareAll(stk, ns, attrs) == (stk, ns)
    decreases |attrs|
  {
    if attrs != [] {
      DeclareNothing(stk, ns, attrs[1..]);
    }
  }

  /** A prefix among the records has the printer's meaning; another keeps the one it had. */
  predicate DeclaredAt(s: Spaces, us: seq<Undo>, ns: map<Str, Str>, ns': map<Str, Str>, q: Str) {
    if Touched(us, q) then q in ns' && ns'[q] == X.Cleaned(NsForPrefix(s, q))
    else (q in ns' <==> q in ns) && (q in ns ==> ns'[q] == ns[q])
  }

  ghost predicate DeclaredAll(s: Spaces, us: seq<Undo>, ns: map<Str, Str>, ns': map<Str, Str>) {
    forall q {:trigger DeclaredAt(s, us, ns, ns', q)} :: DeclaredAt(s, us, ns, ns', q)
  }

  lemma {:induction false} DeclarationsBack(s: Spaces, us: seq<Undo>, stk: seq<D.Frame>, ns: map<Str, Str>, attrs: seq<Attr>, tail: seq<Attr>)
    requires attrs == CleanAttrs(Declarations(s, us)) + tail
    requires forall u | u in us :: !u.mark
    requires forall a | a in tail :: !D.Declares(a)
    ensures DeclaredAll(s, us, ns, D.DeclareAll(stk, ns, attrs).1)
    decreases |us|
  {
    hide X.Cleaned;
    var ns' := D.DeclareAll(stk, ns, attrs).1;
    if us == [] {
      assert attrs == tail;
      DeclareNothing(stk, ns, tail);
      forall q ensures DeclaredAt(s, us, ns, ns', q) {
      }
    } else {
      var n := |us| - 1;
      var u, rest := us[n], us[..n];
      assert !u.mark;
      var a := Attr(Declaration(s, u.prefix).name, X.Cleaned(NsForPrefix(s, u.prefix)));
      CleanStep(Declarations(s, us));
      assert Declarations(s, us)[1..] == Declarations(s, rest);
      assert attrs == [a] + (CleanAttrs(Declarations(s, rest)) + tail);
      assert attrs[0] == a && attrs[1..] == CleanAttrs(Declarations(s, rest)) + tail;
      assert D.Declares(a) && D.DeclaredPrefix(a) == u.prefix;
      var ns1 := ns[u.prefix := a.value];
      DeclarationsBack(s, rest, D.PushNs(stk, ns, u.prefix), ns1, attrs[1..], tail);
      DeclaredSnoc(s, rest, u, ns, ns');
      assert rest + [u] == us;
    }
  }

  lemma DeclaredSnoc(s: Spaces, us: seq<Undo>, u: Undo, ns: map<Str, Str>, ns': map<Str, Str>)
    requires DeclaredAll(s, us, ns[u.prefix := X.Cleaned(NsForPrefix(s, u.prefix))], ns')
    ensures DeclaredAll(s, us + [u], ns, ns')
  {
    var ns1 := ns[u.prefix := X.Cleaned(NsForPrefix(s, u.prefix))];
    forall q ensures DeclaredAt(s, us + [u], ns, ns', q) {
      assert DeclaredAt(s, us, ns1, ns', q);
      TouchedSnoc(us, u, q);
    }
  }

  /** What is above the mark is what the declarations list. */
  lemma {:induction false} DeclarationsOfElement(s: Spaces, below: seq<Undo>, us: seq<Undo>)
    requires forall u | u in us :: !u.mark
    ensures Declarations(s, below + [MARK] + us) == Declarations(s, us)
    decreases |us|
  {
    var all := below + [MARK] + us;
    if us == [] {
      assert all[|all| - 1] == MARK;
    } else {
      var n := |us| - 1;
      assert all[|all| - 1] == us[n] && all[..|all| - 1] == below + [MARK] + us[..n];
      DeclarationsOfElement(s, below, us[..n]);
    }
  }

  /** After its start tag has been read, the decoder translates as the printer writes. */
  lemma StartMatches(p0: Printer, p: Printer, stk: seq<D.Frame>, ns: map<Str, Str>, tail: seq<Attr>)
    requires InElement(p0, p) && NsMatch(p0.spaces, ns)
    requires forall a | a in tail :: !D.Declares(a)
    ensures NsMatch(p.spaces, D.DeclareAll(stk, ns, CleanAttrs(Declarations(p.spaces, p.prefixes)) + tail).1)
  {
    var us := Above(p0, p);
    assert p.prefixes == p0.prefixes + [MARK] + us;
    DeclarationsOfElement(p.spaces, p0.prefixes, us);
    var attrs := CleanAttrs(Declarations(p.spaces, p.prefixes)) + tail;
    DeclarationsBack(p.spaces, us, stk, ns, attrs, tail);
    MatchAfter(p0, p, us, ns, D.DeclareAll(stk, ns, attrs).1);
  }

  lemma MatchAfter(p0: Printer, p: Printer, us: seq<Undo>, ns: map<Str, Str>, ns': map<Str, Str>)
    requires NsMatch(p0.spaces, ns) && DeclaredAll(p.spaces, us, ns, ns') && Bijective(p.spaces)
    requires forall q {:trigger SameOrTouched(p0, p, us, q)} :: SameOrTouched(p0, p, us, q)
    ensures NsMatch(p.spaces, ns')
  {
    forall q ensures NsAt(p.spaces, ns', q) {
      assert DeclaredAt(p.spaces, us, ns, ns', q) && SameOrTouched(p0, p, us, q) && NsAt(p0.spaces, ns, q);
      assert PrefixOk(p.spaces, q);
    }
  }

  // ---------- The simulation ----------

  /** The decoder's stack and translations once the element on top is closed. */
  function ClosedD(stk: seq<D.Frame>, ns: map<Str, Str>): (seq<D.Frame>, map<Str, Str>)
    requires stk != []
  {
    D.UndoNs(stk[1..], ns)
  }

  /** Printer and decoder are in the same elements, with the same translations at every level. */
  ghost predicate InStep(t: Tables, p: Printer, stk: seq<D.Frame>, ns: map<Str, Str>)
    decreases |p.tags|
  {
    && Bijective(p.spaces) && PrefixesOk(t, p.spaces) && NsMatch(p.spaces, ns)
    && if p.tags == [] then p.prefixes == [] && stk == []
       else
         var top := p.tags[|p.tags| - 1];
         && stk != [] && stk[0] == D.StkStart(CleanName(top))
         && top.local != XMLNS && IsNcName(t, top.local) && Encodable(p.spaces, top.space, false)
         && |Closed(p).tags| == |p.tags| - 1
         && InStep(t, Closed(p), ClosedD(stk, ns).0, ClosedD(stk, ns).1)
  }

  lemma {:induction false} InStepIgnoresCounter(t: Tables, p: Printer, p': Printer, stk: seq<D.Frame>, ns: map<Str, Str>)
    requires InStep(t, p, stk, ns) && SameSpaces(p, p')
    ensures InStep(t, p', stk, ns)
    decreases |p.tags|
  {
    if p.tags != [] {
      ClosedIgnoresCounter(p, p');
      InStepIgnoresCounter(t, Closed(p), Closed(p'), ClosedD(stk, ns).0, ClosedD(stk, ns).1);
    }
  }

  // ---------- The names in what is written ----------

  /** Attributes that are written or declare a prefix have names without colons. */
  predicate AttrNamesOk(t: Tables, attrs: seq<Attr>) {
    forall a | a in attrs :: a.name.local == [] || IsNcName(t, a.name.local)
  }

  /** What an attribute declares means what it says. */
  predicate GoodAttr(a: Attr) {
    a.name.space == XMLNS && a.name.local != XMLNS ==> GoodPrefix(a.name.local)
  }

  lemma {:induction false} DefineAllOk(t: Tables, p: Printer, attrs: seq<Attr>, ignore: bool)
    requires PrefixesOk(t, p.spaces) && AttrNamesOk(t, attrs) && forall a | a in attrs :: GoodAttr(a)
    ensures PrefixesOk(t, DefineAll(p, attrs, ignore).0.spaces)
    decreases |attrs|
  {
    hide IsNcName;
    if attrs != [] {
      assert attrs[0] in attrs && GoodAttr(attrs[0]);
      var r := DefineNS(p, attrs[0], ignore);
      if r.Ok? {
        DefineAllOk(t, r.value, attrs[1..], ignore);
      }
    }
  }

  lemma CreateOk(p: Printer, url: Str, isAttr: bool, t: Tables)
    requires PrefixesOk(t, p.spaces)
    ensures PrefixesOk(t, CreateNSPrefix(p, url, isAttr, t).spaces)
  {
    hide IsNcName;
    InventedIsGood(p, url, t);
  }

  lemma {:induction false} CreateAllOk(p: Printer, attrs: seq<Attr>, t: Tables)
    requires PrefixesOk(t, p.spaces)
    ensures PrefixesOk(t, CreateAll(p, attrs, t).spaces)
    decreases |attrs|
  {
    hide PrefixesOk;
    if attrs != [] {
      var n := attrs[0].name;
      if n.space != [] && !IsNamespace(n) {
        CreateOk(p, n.space, true, t);
        CreateAllOk(CreateNSPrefix(p, n.space, true, t), attrs[1..], t);
      } else {
        CreateAllOk(p, attrs[1..], t);
      }
    }
  }

  lemma StartOk(p: Printer, name: Name, attrs: seq<Attr>, t: Tables)
    requires PrefixesOk(t, p.spaces) && AttrNamesOk(t, attrs) && (forall a | a in attrs :: GoodAttr(a)) && WriteStart(p, name, attrs, t).1.Ok?
    ensures PrefixesOk(t, WriteStart(p, name, attrs, t).0.spaces)
  {
    hide IsNcName;
    var p1 := MarkPrefix(p.(tags := p.tags + [name]));
    DefineAllOk(t, p1, attrs, name.space == []);
    var p2 := DefineAll(p1, attrs, name.space == []).0;
    CreateAllOk(p2, attrs, t);
    CreateOk(CreateAll(p2, attrs, t), name.space, false, t);
  }

  lemma WrittenIsName(t: Tables, s: Spaces, n: Name, isAttr: bool)
    requires Bijective(s) && PrefixesOk(t, s) && IsNcName(t, n.local)
    ensures IsWrittenName(t, WrittenName(s, n, isAttr))
  {
    hide IsName;
    assert UrlOk(s, n.space);
    XmlAreNames(t);
    JoinNcNames(t, WrittenName(s, n, isAttr));
  }

  lemma {:induction false} WrittenAttrsAreNames(t: Tables, s: Spaces, attrs: seq<Attr>)
    requires Bijective(s) && PrefixesOk(t, s) && AttrNamesOk(t, attrs) && forall a | a in attrs :: IsPlain(a)
    ensures forall a | a in WrittenAttrs(s, attrs) :: IsWrittenName(t, a.name)
  {
    hide IsWrittenName, IsNcName;
    if attrs != [] {
      assert attrs[0] in attrs;
      WrittenIsName(t, s, attrs[0].name, true);
      WrittenAttrsAreNames(t, s, attrs[1..]);
    }
  }

  /** The prefixes of the declarations are in use. */
  lemma {:induction false} DeclarationsAreNames(t: Tables, s: Spaces, us: seq<Undo>)
    requires PrefixesOk(t, s) && forall u | u in us :: !u.mark && (u.prefix == [] || u.prefix in s.attrNS)
    ensures forall a | a in Declarations(s, us) :: IsWrittenName(t, a.name)
    decreases |us|
  {
    hide IsWrittenName, IsName;
    if us != [] {
      var u := us[|us| - 1];
      assert u in us;
      XmlAreNames(t);
      JoinNcNames(t, Declaration(s, u.prefix).name);
      DeclarationsAreNames(t, s, us[..|us| - 1]);
    }
  }

  lemma ElementDeclarationsAreNames(t: Tables, p0: Printer, p: Printer)
    requires InElement(p0, p) && PrefixesOk(t, p.spaces)
    ensures forall a | a in Declarations(p.spaces, p.prefixes) :: IsWrittenName(t, a.name)
  {
    hide IsWrittenName, IsNcName, PopPrefix;
    var us := Above(p0, p);
    assert p.prefixes == p0.prefixes + [MARK] + us;
    DeclarationsOfElement(p.spaces, p0.prefixes, us);
    forall u | u in us ensures !u.mark && (u.prefix == [] || u.prefix in p.spaces.attrNS) {
      var i :| 0 <= i < |us| && us[i] == u;
      assert SameOrTouched(p0, p, us, u.prefix) && Touched(us, u.prefix);
    }
    DeclarationsAreNames(t, p.spaces, us);
  }

  // ---------- What can be written ----------

  /** A token that is read back: its names are XML names without colons, no element is called
      xmlns, and declared prefixes mean what they say. An instruction does not begin with a space,
      and an XML declaration says what it may; the loop over a directive goes through all of it. */
  predicate Writable(t: Tables, token: Token) {
    match token
    case Start(name, attrs) =>
      name.local != XMLNS && IsNcName(t, name.local) && AttrNamesOk(t, attrs) && forall a | a in attrs :: GoodAttr(a)
    case End(_) => true
    case Other(CharData(_)) => true
    case Other(Comment(_)) => true
    case Other(ProcInst(target, inst)) => (inst != [] ==> !IsSpace(inst[0])) && (target == XML ==> DeclarationOk(inst))
    case Other(Directive(text)) => WholeDirective(text)
  }

  lemma {:induction false} PlainNamesOk(t: Tables, attrs: seq<Attr>)
    requires AttrNamesOk(t, attrs)
    ensures AttrNamesOk(t, Plain(attrs))
  {
    PlainIn(attrs);
  }

  /** All names that are written for a token are read. */
  lemma WrittenNamesAreNames(p: Printer, token: Token, t: Tables, buffered: bool)
    requires Bijective(p.spaces) && PrefixesOk(t, p.spaces) && Writable(t, token) && EncodeToken(p, token, t, buffered).1.Ok?
    requires token.End? ==> IsNcName(t, token.name.local)
    ensures HasWrittenNames(t, EncodeToken(p, token, t, buffered).1.value)
    ensures token.Start? ==> PrefixesOk(t, EncodeToken(p, token, t, buffered).0.spaces)
  {
    hide IsWrittenName, IsNcName, InElement;
    var (p', w) := EncodeToken(p, token, t, buffered);
    if token.Start? {
      StartOpens(p, token.name, token.attrs, t);
      StartOk(p, token.name, token.attrs, t);
      StartBijective(p, p');
      PlainIn(token.attrs);
      PlainNamesOk(t, token.attrs);
      WrittenIsName(t, p'.spaces, token.name, false);
      WrittenAttrsAreNames(t, p'.spaces, Plain(token.attrs));
      ElementDeclarationsAreNames(t, p, p');
    } else if token.End? {
      WrittenIsName(t, p.spaces, token.name, false);
    }
  }

  lemma StartBijective(p: Printer, p': Printer)
    requires InElement(p, p')
    ensures Bijective(p'.spaces)
  {
  }

  // ---------- Start tags ----------

  lemma {:induction false} PlainAppend(a: seq<Attr>, b: seq<Attr>)
    ensures Plain(a + b) == Plain(a) + Plain(b)
  {
    if a == [] {
      assert a + b == b;
    } else {
      var x := if IsPlain(a[0]) then [a[0]] else [];
      assert (a + b)[0] == a[0] && (a + b)[1..] == a[1..] + b;
      PlainAppend(a[1..], b);
      assert x + (Plain(a[1..]) + Plain(b)) == x + Plain(a[1..]) + Plain(b);
    }
  }

  lemma {:induction false} TranslateAppend(ns: map<Str, Str>, a: seq<Attr>, b: seq<Attr>)
    ensures D.TranslateAttrs(ns, a + b) == D.TranslateAttrs(ns, a) + D.TranslateAttrs(ns, b)
  {
    if a == [] {
      assert a + b == b;
    } else {
      assert (a + b)[1..] == a[1..] + b;
      TranslateAppend(ns, a[1..], b);
    }
  }

  lemma {:induction false} DeclarationsAreNotPlain(s: Spaces, us: seq<Undo>, ns: map<Str, Str>)
    ensures Plain(D.TranslateAttrs(ns, CleanAttrs(Declarations(s, us)))) == []
    decreases |us|
  {
    if us != [] && !us[|us| - 1].mark {
      CleanStep(Declarations(s, us));
      assert Declarations(s, us)[1..] == Declarations(s, us[..|us| - 1]);
      DeclarationsAreNotPlain(s, us[..|us| - 1], ns);
    }
  }

  /** Attributes that are written as such are read as such. */
  lemma {:induction false} ReadPlain(attrs: seq<Attr>)
    requires forall a | a in attrs :: IsPlain(a)
    ensures Plain(AttrsAsRead(attrs)) == AttrsAsRead(attrs)
  {
    if attrs != [] {
      assert IsPlain(attrs[0]);
      CleanedUrl(attrs[0].name.space);
      ReadPlain(attrs[1..]);
    }
  }

  lemma {:induction false} WrittenDeclareNothing(s: Spaces, attrs: seq<Attr>)
    requires Bijective(s) && forall a | a in attrs :: IsPlain(a) && Encodable(s, a.name.space, true)
    ensures forall a | a in CleanAttrs(WrittenAttrs(s, attrs)) :: !D.Declares(a)
  {
    if attrs != [] {
      var u := attrs[0].name.space;
      NoEmptyUrl(s);
      assert UrlOk(s, u) && PrefixOk(s, PrefixForNS(s, u, true));
      CleanStep(WrittenAttrs(s, attrs));
      assert WrittenAttrs(s, attrs)[1..] == WrittenAttrs(s, attrs[1..]);
      WrittenDeclareNothing(s, attrs[1..]);
    }
  }

  lemma CleanAppend(a: seq<Attr>, b: seq<Attr>)
    ensures CleanAttrs(a + b) == CleanAttrs(a) + CleanAttrs(b)
  {
  }

  lemma OkIsFree(t: Tables, s: Spaces)
    requires PrefixesOk(t, s)
    ensures XmlIsFree(s)
  {
    hide IsNcName;
  }

  /** An attribute with a name that is not about name spaces. */
  predicate IsOrdinary(a: Attr) {
    a.name.local != [] && a.name.local != XMLNS && a.name.space != XMLNS
  }

  function Ordinary(attrs: seq<Attr>): seq<Attr> {
    if attrs == [] then [] else (if IsOrdinary(attrs[0]) then [attrs[0]] else []) + Ordinary(attrs[1..])
  }

  /** These are the attributes that the printer writes as such. */
  lemma {:induction false} PlainIsOrdinary(attrs: seq<Attr>)
    ensures Plain(attrs) == Ordinary(attrs)
  {
    if attrs != [] {
      PlainIsOrdinary(attrs[1..]);
    }
  }

  /** The decoder reads the start tag back: its name, and in order and one for one the attributes
      that are not about name spaces, all cleaned; and it stays in step. */
  lemma StartStep(p: Printer, d: D.Decoder, name: Name, attrs: seq<Attr>, t: Tables)
    requires InStep(t, p, d.stk, d.ns) && Writable(t, Start(name, attrs))
    requires WriteStart(p, name, attrs, t).1.Ok?
    ensures var (p', w) := WriteStart(p, name, attrs, t);
            var (d', x) := D.StartElement(d, w.value.name, CleanAttrs(w.value.attrs));
            && InStep(t, p', d'.stk, d'.ns)
            && x.name == CleanName(name) && Ordinary(x.attrs) == AttrsAsRead(Ordinary(attrs))
  {
    hide IsNcName, IsName;
    var (p', w) := WriteStart(p, name, attrs, t);
    var s, decls, plain := p'.spaces, Declarations(p'.spaces, p'.prefixes), Plain(attrs);
    var written := WrittenAttrs(s, plain);
    CleanAppend(decls, written);
    var (d', x) := D.StartElement(d, w.value.name, CleanAttrs(decls) + CleanAttrs(written));
    StartOpens(p, name, attrs, t);
    StartEncodes(p, name, attrs, t);
    StartOk(p, name, attrs, t);
    OkIsFree(t, s);
    PlainIn(attrs);
    WrittenDeclareNothing(s, plain);
    StartMatches(p, p', d.stk, d.ns, CleanAttrs(written));
    NameStays(s, d'.ns, name, false);
    StartAttrs(s, d'.ns, p'.prefixes, plain);
    StartStacks(t, p, p', d.stk, d.ns, CleanAttrs(decls) + CleanAttrs(written), name);
    PlainIsOrdinary(attrs);
    PlainIsOrdinary(x.attrs);
  }

  lemma StartAttrs(s: Spaces, ns: map<Str, Str>, prefixes: seq<Undo>, plain: seq<Attr>)
    requires Bijective(s) && XmlIsFree(s) && NsMatch(s, ns) && forall a | a in plain :: IsPlain(a) && Encodable(s, a.name.space, true)
    ensures Plain(D.TranslateAttrs(ns, CleanAttrs(Declarations(s, prefixes)) + CleanAttrs(WrittenAttrs(s, plain)))) == AttrsAsRead(plain)
  {
    var decls, written := CleanAttrs(Declarations(s, prefixes)), CleanAttrs(WrittenAttrs(s, plain));
    AttrsBack(s, ns, plain);
    TranslateAppend(ns, decls, written);
    PlainAppend(D.TranslateAttrs(ns, decls), D.TranslateAttrs(ns, written));
    DeclarationsAreNotPlain(s, prefixes, ns);
    ReadPlain(plain);
  }

  lemma StartStacks(t: Tables, p: Printer, p': Printer, stk: seq<D.Frame>, ns: map<Str, Str>, attrs: seq<Attr>, name: Name)
    requires InStep(t, p, stk, ns) && p'.tags == p.tags + [name] && SameSpaces(Closed(p'), p)
    requires Bijective(p'.spaces) && PrefixesOk(t, p'.spaces) && NsMatch(p'.spaces, D.DeclareAll(stk, ns, attrs).1)
    requires Encodable(p'.spaces, name.space, false) && name.local != XMLNS && IsNcName(t, name.local)
    ensures var (stk', ns') := D.DeclareAll(stk, ns, attrs); InStep(t, p', [D.StkStart(CleanName(name))] + stk', ns')
  {
    var (stk', ns') := D.DeclareAll(stk, ns, attrs);
    XmlFence.UndoDeclared(stk, ns, attrs);
    InStepIgnoresCounter(t, p, Closed(p'), stk, ns);
    assert ([D.StkStart(CleanName(name))] + stk')[1..] == stk';
  }

  /** The decoder reads the end tag back, and stays in step. */
  lemma EndStep(t: Tables, p: Printer, d: D.Decoder, name: Name)
    requires InStep(t, p, d.stk, d.ns) && WriteEnd(p, name).1.Ok?
    ensures var (p', w) := WriteEnd(p, name);
            var (d', r) := D.EndElement(d, w.value.name);
            && InStep(t, p', d'.stk, d'.ns) && d' == d.(stk := d'.stk, ns := d'.ns)
            && r == D.Ok(Token.End(CleanName(name))) && IsNcName(t, name.local)
  {
    hide IsNcName;
    OkIsFree(t, p.spaces);
    NameStays(p.spaces, d.ns, name, false);
  }

  // ---------- The round trip ----------

  /** A token as it is read: what XML has no room for is replaced, and the attributes that declare
      name spaces are left aside. */
  function AsRead(token: Token): Token {
    match token
    case Start(name, attrs) => Start(CleanName(name), AttrsAsRead(Ordinary(attrs)))
    case End(name) => End(CleanName(name))
    case Other(_) => token
  }

  /** The token that is read, but for declarations of name spaces. */
  predicate Means(token: Token, read: Token) {
    match read
    case Start(name, attrs) => token == Start(name, Ordinary(attrs))
    case End(_) => token == read
    case Other(_) => token == read
  }

  predicate AllMean(ts: seq<Token>, read: seq<Token>) {
    |ts| == |read| && forall i | 0 <= i < |ts| :: Means(ts[i], read[i])
  }

  predicate IsText(token: Token) {
    token.Other? && token.data.CharData?
  }

  /** Texts next to each other become one; an empty text is not read at all. */
  function TextAsRead(texts: seq<Str>): seq<Token> {
    if CleanedAll(texts) == [] then [] else [Other(CharData(CleanedAll(texts)))]
  }

  /** What is read of the tokens, when some texts have been written before them. */
  function AllAsRead(texts: seq<Str>, ts: seq<Token>): seq<Token>
    decreases |ts|
  {
    if ts == [] then TextAsRead(texts)
    else if IsText(ts[0]) then AllAsRead(texts + [ts[0].data.text], ts[1..])
    else TextAsRead(texts) + ([AsRead(ts[0])] + AllAsRead([], ts[1..]))
  }

  /** Between tags, the bytes of everything but text are read as they are. */
  lemma DataBack(t: Tables, data: Data, rest: Str)
    requires !data.CharData? && Writable(t, Other(data)) && Encodes(t, data, false)
    ensures ReadRaw(t, Spell(Other(data)) + rest) == Got(Raw(Other(data), false), rest)
    ensures Spell(Other(data))[0] == X.LT
  {
    hide ReadRaw, IsName, ValidFrom, Whole;
    match data
    case Comment(text) => CommentReadsExactly(t, text, rest);
    case ProcInst(target, inst) => ProcInstReadsExactly(t, target, inst, rest);
    case Directive(text) => DirectiveReadsExactly(t, text, rest);
  }

  /** The bytes of one token, read raw. */
  lemma RawBack(t: Tables, p: Printer, d: D.Decoder, token: Token, buffered: bool, rest: Str)
    requires InStep(t, p, d.stk, d.ns) && Writable(t, token) && !IsText(token) && EncodeToken(p, token, t, buffered).1.Ok?
    ensures var w := EncodeToken(p, token, t, buffered).1.value;
            && Spell(w) != [] && Spell(w)[0] == X.LT
            && ReadRaw(t, Spell(w) + rest) == Got(Raw(CleanValues(w), false), rest)
  {
    hide ReadRaw, Spell, IsName, HasWrittenNames;
    if token.Other? {
      DataBack(t, token.data, rest);
    } else {
      if token.End? {
        EndStep(t, p, d, token.name);
      }
      WrittenNamesAreNames(p, token, t, buffered);
      TagReadsExactly(t, EncodeToken(p, token, t, buffered).1.value, rest);
    }
  }

  /** The decoder can go on. */
  predicate Ready(d: D.Decoder, input: Str) {
    d.err == None && d.pending == [] && d.tail == D.EOF && d.input == input
  }

  /** One token that is not text, written, read back by Token. */
  lemma TokenStep(t: Tables, p: Printer, d: D.Decoder, token: Token, buffered: bool, rest: Str)
    requires InStep(t, p, d.stk, d.ns) && Writable(t, token) && !IsText(token) && EncodeToken(p, token, t, buffered).1.Ok?
    requires Ready(d, Spell(EncodeToken(p, token, t, buffered).1.value) + rest) && d.tables == t
    ensures var p' := EncodeToken(p, token, t, buffered).0;
            var (d', r) := D.NextToken(d);
            && InStep(t, p', d'.stk, d'.ns) && d'.tables == t && Ready(d', rest)
            && r.Ok? && Means(AsRead(token), r.value)
  {
    hide ReadRaw, Spell, IsName, Writable;
    var (p', w) := EncodeToken(p, token, t, buffered);
    RawBack(t, p, d, token, buffered, rest);
    var d1 := d.(input := rest);
    RawThen(d, CleanValues(w.value), rest);
    match token
    case Start(name, attrs) => StartStep(p, d1, name, attrs, t);
    case End(name) => EndStep(t, p, d1, name);
    case Other(_) =>
  }

  /** What Token does with a raw token. */
  lemma RawThen(d: D.Decoder, raw: Token, rest: Str)
    requires d.err == None && d.pending == [] && d.input != [] && (d.stk != [] ==> !d.stk[0].StkEOF?)
    requires ReadRaw(d.tables, d.input) == Got(Raw(raw, false), rest)
    ensures var d1 := d.(input := rest);
            D.NextToken(d) ==
              match raw
              case Start(name, attrs) => (D.StartElement(d1, name, attrs).0, D.Ok(D.StartElement(d1, name, attrs).1))
              case End(name) => D.EndElement(d1, name)
              case Other(_) => (d1, D.Ok(raw))
  {
    hide ReadRaw;
  }

  lemma NoFenceOnTop(t: Tables, p: Printer, stk: seq<D.Frame>, ns: map<Str, Str>)
    requires InStep(t, p, stk, ns)
    ensures stk != [] ==> !stk[0].StkEOF?
  {
  }

  /** Texts that have been written are read first. */
  lemma TextStep(t: Tables, p: Printer, d: D.Decoder, texts: seq<Str>, rest: Str) returns (d': D.Decoder)
    requires InStep(t, p, d.stk, d.ns) && Ready(d, EscapedAll(texts) + rest) && d.tables == t
    requires rest == [] || rest[0] == X.LT
    ensures d'.stk == d.stk && d'.ns == d.ns && d'.tables == t && Ready(d', rest)
    ensures D.ReadAll(d) == (TextAsRead(texts) + D.ReadAll(d').0, D.ReadAll(d').1)
  {
    hide ReadRaw, IsName;
    TextsStart(texts);
    NoFenceOnTop(t, p, d.stk, d.ns);
    d' := d.(input := rest);
    if EscapedAll(texts) == [] {
      assert EscapedAll(texts) + rest == rest;
      assert TextAsRead(texts) + D.ReadAll(d).0 == D.ReadAll(d).0;
    } else {
      TextsRead(t, texts, rest);
      RawThen(d, Other(CharData(CleanedAll(texts))), rest);
      D.TokenShortens(d);
    }
  }

  lemma {:induction false} RoundTripFrom(t: Tables, p: Printer, d: D.Decoder, texts: seq<Str>, ts: seq<Token>, buffered: nat -> bool)
    requires InStep(t, p, d.stk, d.ns) && (forall x | x in ts :: Writable(t, x)) && EncodeAll(p, ts, t, buffered).1.Ok?
    requires Ready(d, EscapedAll(texts) + SpellAll(EncodeAll(p, ts, t, buffered).1.value)) && d.tables == t
    ensures AllMean(AllAsRead(texts, ts), D.ReadAll(d).0) && D.ReadAll(d).1 == D.EOF
    decreases |ts|
  {
    hide Writable, EncodeToken, Spell, D.NextToken, AsRead, InStep;
    if ts == [] {
      var d' := TextStep(t, p, d, texts, []);
      AtTheEnd(t, p, d');
    } else {
      var (p', w) := EncodeToken(p, ts[0], t, buffered(|ts|));
      var ws := EncodeAll(p', ts[1..], t, buffered).1.value;
      assert ([w.value] + ws)[1..] == ws;
      if IsText(ts[0]) {
        TextEncoded(p, ts[0], t, buffered(|ts|));
        var x := ts[0].data.text;
        TextsSnoc(texts, x);
        X.Regroup(EscapedAll(texts), X.Escaped(x, false), SpellAll(ws));
        RoundTripFrom(t, p, d, texts + [x], ts[1..], buffered);
      } else {
        RawBack(t, p, d, ts[0], buffered(|ts|), SpellAll(ws));
        var d1 := TextStep(t, p, d, texts, Spell(w.value) + SpellAll(ws));
        TokenStep(t, p, d1, ts[0], buffered(|ts|), SpellAll(ws));
        var (d2, r) := D.NextToken(d1);
        assert EscapedAll([]) + SpellAll(ws) == SpellAll(ws);
        RoundTripFrom(t, p', d2, [], ts[1..], buffered);
        AllMeanStep(TextAsRead(texts), AsRead(ts[0]), AllAsRead([], ts[1..]), r.value, D.ReadAll(d2).0);
        D.TokenShortens(d1);
      }
    }
  }

  lemma AtTheEnd(t: Tables, p: Printer, d: D.Decoder)
    requires InStep(t, p, d.stk, d.ns) && Ready(d, [])
    ensures D.ReadAll(d) == ([], D.EOF)
  {
    NoFenceOnTop(t, p, d.stk, d.ns);
  }

  lemma TextEncoded(p: Printer, token: Token, t: Tables, buffered: bool)
    requires IsText(token)
    ensures EncodeToken(p, token, t, buffered) == (p, Ok(token)) && Spell(token) == X.Escaped(token.data.text, false)
  {
  }

  lemma AllMeanStep(texts: seq<Token>, token: Token, ts: seq<Token>, read: Token, more: seq<Token>)
    requires (forall x | x in texts :: x.Other?) && Means(token, read) && AllMean(ts, more)
    ensures AllMean(texts + ([token] + ts), texts + ([read] + more))
  {
    hide Means;
    forall x | x in texts ensures Means(x, x) {
      OtherMeans(x);
    }
  }

  lemma OtherMeans(x: Token)
    requires x.Other?
    ensures Means(x, x)
  {
  }

  /** Whatever tokens a fresh encoder accepts, a fresh decoder gives back from the bytes, in the
      same order and with the same names and attributes, up to what XML has no room for; texts next
      to each other as one, and empty ones not at all; and then it reports the end of the input. */
  lemma RoundTrip(ts: seq<Token>, t: Tables, buffered: nat -> bool)
    requires (forall x | x in ts :: Writable(t, x)) && EncodeAll(EMPTY, ts, t, buffered).1.Ok?
    ensures var ws := EncodeAll(EMPTY, ts, t, buffered).1.value;
            var (read, e) := D.ReadAll(D.Start(SpellAll(ws), D.EOF, t));
            Balanced(ws, []) && AllMean(AllAsRead([], ts), read) && e == D.EOF
  {
    hide Writable;
    var ws := EncodeAll(EMPTY, ts, t, buffered).1.value;
    OutputIsBalanced(EMPTY, ts, t, buffered);
    assert EscapedAll([]) + SpellAll(ws) == SpellAll(ws);
    RoundTripFrom(t, EMPTY, D.Start(SpellAll(ws), D.EOF, t), [], ts, buffered);
  }

  // ---------- What comes back unchanged ----------

  lemma CleanedExactly(s: Str)
    ensures X.Cleaned(s) == s <==> X.AllInRange(s)
  {
    X.CleanedIsIdentity(s);
  }

  predicate AttrInRange(a: Attr) {
    X.AllInRange(a.name.space) && X.AllInRange(a.value)
  }

  /** URLs, values and texts are text that XML has room for, and no text is empty. */
  predicate TokenInRange(token: Token) {
    match token
    case Start(name, attrs) => X.AllInRange(name.space) && forall a | a in Ordinary(attrs) :: AttrInRange(a)
    case End(name) => X.AllInRange(name.space)
    case Other(CharData(text)) => text != [] && X.AllInRange(text)
    case Other(_) => true
  }

  predicate NoneAdjacent(ts: seq<Token>) {
    forall i | 0 <= i < |ts| - 1 :: !(IsText(ts[i]) && IsText(ts[i + 1]))
  }

  /** The tokens without the attributes that declare name spaces. */
  function Undeclared(ts: seq<Token>): seq<Token> {
    if ts == [] then []
    else [if ts[0].Start? then Start(ts[0].name, Ordinary(ts[0].attrs)) else ts[0]] + Undeclared(ts[1..])
  }

  lemma {:induction false} AttrsStayExactly(attrs: seq<Attr>)
    ensures AttrsAsRead(attrs) == attrs <==> forall a | a in attrs :: AttrInRange(a)
  {
    hide X.Cleaned, X.AllInRange;
    if attrs != [] {
      CleanedExactly(attrs[0].name.space);
      CleanedExactly(attrs[0].value);
      AttrsStayExactly(attrs[1..]);
      assert attrs == [attrs[0]] + attrs[1..];
      var a := Attr(CleanName(attrs[0].name), X.Cleaned(attrs[0].value));
      assert a == attrs[0] <==> AttrInRange(attrs[0]);
      SameTail(a, AttrsAsRead(attrs[1..]), attrs[1..]);
      assert AttrsAsRead(attrs)[0] == a;
    }
  }

  lemma {:induction false} AsReadShortens(texts: seq<Str>, ts: seq<Token>)
    ensures |AllAsRead(texts, ts)| <= |ts| + |TextAsRead(texts)|
    ensures ts != [] && IsText(ts[0]) ==> |AllAsRead(texts, ts)| <= |ts|
    decreases |ts|
  {
    if ts != [] {
      if IsText(ts[0]) {
        AsReadShortens(texts + [ts[0].data.text], ts[1..]);
      } else {
        AsReadShortens([], ts[1..]);
      }
    }
  }

  lemma {:induction false} UndeclaredLength(ts: seq<Token>)
    ensures |Undeclared(ts)| == |ts|
  {
    if ts != [] {
      UndeclaredLength(ts[1..]);
    }
  }

  lemma NoneAdjacentStep(ts: seq<Token>)
    requires ts != []
    ensures NoneAdjacent(ts) <==> NoneAdjacent(ts[1..]) && !(|ts| > 1 && IsText(ts[0]) && IsText(ts[1]))
  {
    if NoneAdjacent(ts) {
      forall i | 0 <= i < |ts[1..]| - 1 ensures !(IsText(ts[1..][i]) && IsText(ts[1..][i + 1])) {
        assert !(IsText(ts[i + 1]) && IsText(ts[i + 1 + 1]));
      }
    } else {
      var i :| 0 <= i < |ts| - 1 && IsText(ts[i]) && IsText(ts[i + 1]);
      if i > 0 {
        assert IsText(ts[1..][i - 1]) && IsText(ts[1..][i - 1 + 1]);
      }
    }
  }

  lemma OneText(x: Str)
    ensures CleanedAll([x]) == X.Cleaned(x)
  {
    var none: seq<Str> := [];
    assert [x] == none + [x];
    TextsSnoc(none, x);
    assert [] + X.Cleaned(x) == X.Cleaned(x);
  }

  /** One text, and then no text. */
  lemma TextAlone(x: Str, ts: seq<Token>)
    requires x != [] && !(ts != [] && IsText(ts[0]))
    ensures AllAsRead([x], ts) == [Other(CharData(X.Cleaned(x)))] + AllAsRead([], ts)
  {
    EscapedStarts(x);
    OneText(x);
    if ts == [] {
      assert AllAsRead([], ts) == [];
    } else {
      assert TextAsRead([]) + ([AsRead(ts[0])] + AllAsRead([], ts[1..])) == [AsRead(ts[0])] + AllAsRead([], ts[1..]);
    }
  }

  lemma OneAsRead(token: Token)
    requires !IsText(token)
    ensures AsRead(token) == (if token.Start? then Start(token.name, Ordinary(token.attrs)) else token) <==> TokenInRange(token)
  {
    hide X.Cleaned, X.AllInRange;
    if !token.Other? {
      CleanedExactly(token.name.space);
    }
    if token.Start? {
      AttrsStayExactly(Ordinary(token.attrs));
    }
  }

  lemma SameCons(a: Token, x: seq<Token>, b: Token, y: seq<Token>)
    ensures [a] + x == [b] + y <==> a == b && x == y
  {
    assert ([a] + x)[0] == a && ([a] + x)[1..] == x && ([b] + y)[0] == b && ([b] + y)[1..] == y;
  }

  /** The tokens come back as they are, but for declarations, exactly when XML has room for all that
      is in them, no text is empty and none follows another. */
  lemma {:induction false} ComeBackExactly(ts: seq<Token>)
    ensures AllAsRead([], ts) == Undeclared(ts) <==> (forall x | x in ts :: TokenInRange(x)) && NoneAdjacent(ts)
    decreases |ts|
  {
    hide X.Cleaned, X.AllInRange, AsRead;
    if ts != [] {
      var rest := ts[1..];
      NoneAdjacentStep(ts);
      ComeBackExactly(rest);
      UndeclaredLength(ts);
      assert ts == [ts[0]] + rest;
      if !IsText(ts[0]) {
        OneAsRead(ts[0]);
        assert TextAsRead([]) + ([AsRead(ts[0])] + AllAsRead([], rest)) == [AsRead(ts[0])] + AllAsRead([], rest);
        SameCons(AsRead(ts[0]), AllAsRead([], rest), Undeclared(ts)[0], Undeclared(rest));
      } else {
        TextFirst(ts);
      }
    }
  }

  lemma TextFirst(ts: seq<Token>)
    requires ts != [] && IsText(ts[0])
    ensures AllAsRead([], ts) == Undeclared(ts) <==>
      TokenInRange(ts[0]) && !(|ts| > 1 && IsText(ts[1])) && AllAsRead([], ts[1..]) == Undeclared(ts[1..])
  {
    hide X.Cleaned, X.AllInRange, AsRead;
    var x, rest := ts[0].data.text, ts[1..];
    var none: seq<Str> := [];
    assert none + [x] == [x] && ts[0] == Other(CharData(x));
    AsReadShortens([x], rest);
    UndeclaredLength(rest);
    EscapedStarts(x);
    OneText(x);
    if x != [] && !(rest != [] && IsText(rest[0])) {
      TextAlone(x, rest);
      CleanedExactly(x);
      SameCons(Other(CharData(X.Cleaned(x))), AllAsRead([], rest), ts[0], Undeclared(rest));
    }
  }

  // ---------- Names that come back ----------

  lemma SplitIsShorter(s: Str)
    requires COLON in s
    ensures |SplitName(s).local| < |s|
  {
    assert s[..|s|] == s;
  }

  /** All of the written name is read as one name. */
  lemma WholeNameReads(t: Tables, x: Str, rest: Str)
    requires Ends(rest)
    ensures var r := ReadNsName(t, x + rest); r.Got? && r.rest == rest <==> IsName(t, x)
    ensures IsName(t, x) ==> ReadNsName(t, x + rest) == Got(SplitName(x), rest)
  {
    NameReads(t, x, rest);
    var r := ReadName(t, x + rest);
    if r.Got? && r.rest == rest {
      assert |r.value| + |rest| == |x + rest|;
    }
  }

  lemma XmlMeansInRange(s: Spaces)
    ensures X.AllInRange(XmlMeans(s))
  {
    hide X.Cleaned, X.AllInRange;
    XmlUrl();
    AsciiInRange(XML_URL);
    if XML_URL in s.attrNS {
      X.CleanedInRange(s.attrNS[XML_URL]);
    }
  }

  /** A prefix with a colon is split too early. */
  lemma SplitIsLonger(n: Name)
    requires COLON in n.space
    ensures |SplitName(JoinName(n)).local| > |n.local|
  {
    var s, i := JoinName(n), FirstColon(JoinName(n));
    var k :| 0 <= k < |n.space| && n.space[k] == COLON;
    assert s[k] == COLON;
    assert forall j | 0 <= j < i :: s[j] in s[..i];
  }

  /** Written, read from its bytes and translated, the name of an element is what it was exactly
      when what is written is a name, XML has room for its URL, the prefix has no colon and is not
      an xml that stands for another URL, and the name has a prefix, or no colon and is not called
      xmlns in a default name space. */
  lemma ElementNameExactly(t: Tables, s: Spaces, ns: map<Str, Str>, n: Name, rest: Str)
    requires Bijective(s) && NsMatch(s, ns) && Encodable(s, n.space, false) && Ends(rest)
    ensures var x := WrittenName(s, n, false);
            var r := ReadNsName(t, JoinName(x) + rest);
            r.Got? && r.rest == rest && D.Translate(ns, r.value, true) == n <==>
              && IsName(t, JoinName(x)) && X.AllInRange(n.space)
              && COLON !in x.space && (x.space == XML ==> n.space == XmlMeans(s))
              && (x.space != [] || (COLON !in n.local && (n.local != XMLNS || n.space == [])))
  {
    hide X.Cleaned, X.AllInRange, IsName, ReadNsName, Bijective, JoinName;
    var x := WrittenName(s, n, false);
    WholeNameReads(t, JoinName(x), rest);
    PrefixMeans(s, ns, n.space, false);
    SplitJoinExactly(x);
    CleanedExactly(n.space);
    CleanedUrl(n.space);
    CleanedUrl([]);
    XmlMeansInRange(s);
    WrongSplit(x);
  }

  lemma WrongSplit(x: Name)
    ensures !Splits(x) ==> SplitName(JoinName(x)).local != x.local
  {
    if COLON in x.space {
      SplitIsLonger(x);
    } else if x.space == [] && COLON in x.local {
      SplitIsShorter(x.local);
    }
  }

  /** So it is for the name of an attribute: one without prefix must have no colon. */
  lemma AttrNameExactly(t: Tables, s: Spaces, ns: map<Str, Str>, n: Name, rest: Str)
    requires Bijective(s) && NsMatch(s, ns) && Encodable(s, n.space, true) && !IsNamespace(n) && Ends(rest)
    ensures var x := WrittenName(s, n, true);
            var r := ReadNsName(t, JoinName(x) + rest);
            r.Got? && r.rest == rest && D.Translate(ns, r.value, false) == n <==>
              && IsName(t, JoinName(x)) && X.AllInRange(n.space)
              && COLON !in x.space && (x.space == XML ==> n.space == XmlMeans(s))
              && (n.space != [] || COLON !in n.local)
  {
    hide X.Cleaned, X.AllInRange, IsName, ReadNsName, Bijective, JoinName;
    var x := WrittenName(s, n, true);
    WholeNameReads(t, JoinName(x), rest);
    PrefixMeans(s, ns, n.space, true);
    SplitJoinExactly(x);
    CleanedExactly(n.space);
    CleanedUrl(n.space);
    CleanedUrl([]);
    XmlMeansInRange(s);
    WrongSplit(x);
  }
}
