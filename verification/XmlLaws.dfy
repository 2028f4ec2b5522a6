/** What the printer does with one attribute, one URL, one tag and one token: what it declares, with
    which prefix, what it accepts and what it writes. Nothing here speaks of how it goes about it. */
module XmlLaws {
  import opened Utf8
  import opened XmlTypes
  import opened XmlNames
  import opened XmlRaw
  import opened XmlSpelling
  import opened XmlPrinter
  import opened XmlNesting
  import opened XmlRoundTrip
  import X = XmlText

  // ---------- Declarations ----------

  /** An xmlns attribute with a space that is neither empty nor that of XML. */
  predicate IsRefused(a: Attr) {
    a.name.local == XMLNS && a.name.space != [] && a.name.space != XML && a.name.space != XML_URL
  }

  predicate SetsDefault(a: Attr) {
    a.name.local == XMLNS && !IsRefused(a)
  }

  /** xmlns:local="value", where neither is empty. */
  predicate SetsPrefix(a: Attr) {
    a.name.local != XMLNS && a.name.space == XMLNS && a.name.local != [] && a.value != []
  }

  /** The prefix stands for the URL and the URL for the prefix; no other prefix and not the default
      name space have changed, and one record undoes it. */
  ghost predicate Binds(p: Printer, p': Printer, prefix: Str, url: Str) {
    && Get(p'.spaces.attrNS, prefix) == url && url in p'.spaces.attrPrefix && p'.spaces.attrPrefix[url] == prefix
    && (forall q | q != prefix :: Get(p'.spaces.attrNS, q) == Get(p.spaces.attrNS, q))
    && (forall u | u != url && u != Get(p.spaces.attrNS, prefix) ::
          (u in p'.spaces.attrPrefix <==> u in p.spaces.attrPrefix) && Get(p'.spaces.attrPrefix, u) == Get(p.spaces.attrPrefix, u))
    && p'.spaces.defaultNS == p.spaces.defaultNS
    && p'.prefixes == p.prefixes + [Undo(prefix, Get(p.spaces.attrNS, prefix), false)] && p'.tags == p.tags
  }

  ghost predicate SetDefault(p: Printer, p': Printer, url: Str) {
    p' == p.(spaces := p.spaces.(defaultNS := url), prefixes := p.prefixes + [Undo([], p.spaces.defaultNS, false)])
  }

  /** A declaration of a prefix is made unless the URL has one already; one of the default name
      space is made unless it is the default, or not empty on an element without a name space;
      and any other attribute changes nothing. */
  lemma DefinedExactly(p: Printer, a: Attr, inNone: bool)
    ensures var r := DefineNS(p, a, inNone);
            && (r.Err? <==> IsRefused(a))
            && (SetsDefault(a) ==>
                  if a.value == p.spaces.defaultNS || (inNone && a.value != []) then r.value == p else SetDefault(p, r.value, a.value))
            && (SetsPrefix(a) ==> if a.value in p.spaces.attrPrefix then r.value == p else Binds(p, r.value, a.name.local, a.value))
            && (r.Ok? && !SetsDefault(a) && !SetsPrefix(a) ==> r.value == p)
  {
  }

  /** Nothing is declared for a URL that can be written already. Otherwise an element goes into the
      empty default name space, or a prefix that stands for nothing is declared. */
  lemma CreatedExactly(p: Printer, url: Str, isAttr: bool, t: Tables)
    requires isAttr ==> url != []
    ensures var p' := CreateNSPrefix(p, url, isAttr, t);
            && (Encodable(p.spaces, url, isAttr) <==> p' == p)
            && (!Encodable(p.spaces, url, isAttr) && url == [] ==> SetDefault(p, p', []))
            && (!Encodable(p.spaces, url, isAttr) && url != [] ==>
                  && p'.prefixes != []
                  && var q := p'.prefixes[|p'.prefixes| - 1].prefix;
                  && Get(p.spaces.attrNS, q) == []
                  && IsFirstFree(p, q, p'.counter, BasePrefix(url, t))
                  && Binds(p, p', q, url))
  {
    InventedExactly(p, url, t);
  }

  /** The prefix is the base itself if that is free; else the base with an underscore and the first
      number after the counter that makes a free one, and this is the new counter. */
  ghost predicate IsFirstFree(p: Printer, q: Str, counter: nat, base: Str) {
    var ns := p.spaces.attrNS;
    if Get(ns, base) == [] then q == base && counter == p.counter
    else
      && counter > p.counter && q == base + ([UNDERSCORE] + X.DecimalDigits(counter)) && Get(ns, q) == []
      && forall k | p.counter < k < counter :: Get(ns, base + ([UNDERSCORE] + X.DecimalDigits(k))) != []
  }

  lemma InventedExactly(p: Printer, url: Str, t: Tables)
    ensures var (q, n) := InventPrefix(p, url, t); IsFirstFree(p, q, n, BasePrefix(url, t)) && Get(p.spaces.attrNS, q) == []
  {
    hide BasePrefix, X.DecimalDigits;
    var base, ns := BasePrefix(url, t), p.spaces.attrNS;
    var (q, n) := InventPrefix(p, url, t);
    forall k | p.counter < k < n && Get(ns, base) != []
      ensures Get(ns, base + ([UNDERSCORE] + X.DecimalDigits(k))) != []
    {
      assert Numbered(base, k) in UsedPrefixes(p.spaces);
    }
  }

  // ---------- The base of a prefix ----------

  predicate Slashes(s: Str) {
    forall b | b in s :: b == SLASH
  }

  lemma {:induction false} TrimmedExactly(s: Str, slashes: Str)
    requires Slashes(slashes) && (s == [] || s[|s| - 1] != SLASH)
    ensures TrimSlashes(s + slashes) == s
  {
    if slashes == [] {
      assert s + slashes == s;
    } else {
      var u, n := s + slashes, |slashes| - 1;
      assert u[|u| - 1] == slashes[n] && slashes[n] in slashes;
      assert forall b | b in slashes[..n] :: b in slashes;
      assert u[..|u| - 1] == s + slashes[..n];
      TrimmedExactly(s, slashes[..n]);
    }
  }

  lemma {:induction false} LastExactly(head: Str, last: Str)
    requires SLASH !in last && (head == [] || head[|head| - 1] == SLASH)
    ensures AfterLastSlash(head + last) == last
  {
    if last == [] {
      assert head + last == head;
    } else {
      var u, n := head + last, |last| - 1;
      assert u[|u| - 1] == last[n] && u[..|u| - 1] == head + last[..n];
      LastExactly(head, last[..n]);
      assert last[..n] + [last[n]] == last;
    }
  }

  /** The base is the last path element of the URL, whatever slashes follow it, if that is a name
      without a colon; it gets an underscore in front if it begins with xml, and is an underscore
      alone if it is not such a name, or the URL has no path element. */
  lemma BaseExactly(t: Tables, head: Str, last: Str, slashes: Str)
    requires SLASH !in last && (head == [] || head[|head| - 1] == SLASH) && Slashes(slashes)
    requires last == [] ==> head == []
    ensures var r := BasePrefix(head + last + slashes, t);
            r == if !IsNcName(t, last) then [UNDERSCORE] else if XML <= last then [UNDERSCORE] + last else last
  {
    hide IsName;
    var s := head + last;
    if last != [] {
      assert s[|s| - 1] == last[|last| - 1] && last[|last| - 1] in last;
    }
    TrimmedExactly(s, slashes);
    LastExactly(head, last);
    UnderscoreName(t);
    EmptyIsNoName(t);
  }

  lemma EmptyIsNoName(t: Tables)
    ensures !IsName(t, [])
  {
  }

  // ---------- What is accepted ----------

  lemma {:induction false} AllDefinedExactly(p: Printer, attrs: seq<Attr>, inNone: bool)
    ensures DefineAll(p, attrs, inNone).1 <==> forall a | a in attrs :: !IsRefused(a)
    decreases |attrs|
  {
    if attrs != [] {
      var r := DefineNS(p, attrs[0], inNone);
      DefinedExactly(p, attrs[0], inNone);
      if r.Ok? {
        AllDefinedExactly(r.value, attrs[1..], inNone);
      }
      assert attrs == [attrs[0]] + attrs[1..];
    }
  }

  predicate AddedUp(s: Str, a: Str, mark: Str, b: Str) {
    s == a + mark + b
  }

  lemma ContainsExactly(s: Str, mark: Str)
    requires mark != []
    ensures Contains(s, mark) <==> exists a, b :: AddedUp(s, a, mark, b)
  {
    var i := Find(s, mark);
    if i < |s| {
      assert AddedUp(s, s[..i], mark, s[i + |mark|..]) by {
        assert s[i..][..|mark|] == mark && s == s[..i] + s[i..];
      }
    }
    forall a, b | AddedUp(s, a, mark, b) ensures i < |s| {
      assert s[|a|..][..|mark|] == mark;
    }
  }

  /** Tokens are accepted exactly for these reasons: a tag has a name, and for a start tag no
      attribute declares in a wrong space, and an end tag is that of the last start tag that is
      open; a comment has no end in it; a processing instruction has a name and no end in it, and is
      no XML declaration behind anything else; and text always. */
  lemma AcceptedExactly(p: Printer, token: Token, t: Tables, buffered: bool)
    ensures var r := EncodeToken(p, token, t, buffered).1;
            && (token.Start? ==> (r.Ok? <==> token.name.local != [] && forall a | a in token.attrs :: !IsRefused(a)))
            && (token.End? ==> (r.Ok? <==> token.name.local != [] && exists open :: p.tags == open + [token.name]))
            && (token.Other? && token.data.CharData? ==> r.Ok?)
            && (token.Other? && token.data.Comment? ==> (r.Ok? <==> !exists a, b :: AddedUp(token.data.text, a, END_COMMENT, b)))
            && (token.Other? && token.data.ProcInst? ==>
                  (r.Ok? <==> IsName(t, token.data.target) && (token.data.target == XML ==> !buffered)
                              && !exists a, b :: AddedUp(token.data.inst, a, END_PROC_INST, b)))
  {
    hide IsName, Contains, ValidFrom, DefineNS, CreateAll, CreateNSPrefix, PopPrefix;
    match token
    case Start(name, attrs) => AllDefinedExactly(MarkPrefix(p.(tags := p.tags + [name])), attrs, name.space == []);
    case End(name) =>
      if p.tags != [] {
        assert p.tags == p.tags[..|p.tags| - 1] + [p.tags[|p.tags| - 1]];
      }
    case Other(Comment(text)) => ContainsExactly(text, END_COMMENT);
    case Other(ProcInst(target, inst)) => ContainsExactly(inst, END_PROC_INST);
    case Other(_) =>
  }

  // ---------- What is written of a tag ----------

  /** The attribute as it is written: only the space of its name is translated. */
  predicate WrittenAs(a: Attr, w: Attr) {
    w.name.local == a.name.local && w.value == a.value
  }

  lemma {:induction false} WrittenInOrder(s: Spaces, attrs: seq<Attr>)
    ensures |WrittenAttrs(s, attrs)| == |attrs|
    ensures forall i | 0 <= i < |attrs| :: WrittenAs(attrs[i], WrittenAttrs(s, attrs)[i])
    ensures forall i | 0 <= i < |attrs| :: WrittenAttrs(s, attrs)[i].name == WrittenName(s, attrs[i].name, true)
  {
    if attrs != [] {
      WrittenInOrder(s, attrs[1..]);
    }
  }

  /** An element in the default name space has no prefix, even if its URL has one; a name in the name
      space of XML has its own, and an attribute in none has none. */
  lemma PrefixExactly(s: Spaces, n: Name, isAttr: bool)
    requires Bijective(s) && Encodable(s, n.space, isAttr)
    ensures var q := WrittenName(s, n, isAttr).space;
            && (q == [] <==> n.space != XML_URL && if isAttr then n.space == [] else n.space == s.defaultNS)
            && (n.space == XML_URL ==> q == XML)
            && (q != [] && n.space != XML_URL ==> Get(s.attrNS, q) == n.space)
  {
    NoEmptyUrl(s);
    assert UrlOk(s, n.space) && PrefixOk(s, []);
  }

  /** How many declarations the element on top has made. */
  function RecordsOnTop(prefixes: seq<Undo>): (n: nat)
    ensures n <= |prefixes|
  {
    if prefixes == [] || prefixes[|prefixes| - 1].mark then 0 else 1 + RecordsOnTop(prefixes[..|prefixes| - 1])
  }

  /** Declaration number i is that of the record i places below the top. */
  lemma {:induction false} DeclarationsInOrder(s: Spaces, prefixes: seq<Undo>)
    ensures var decls := Declarations(s, prefixes);
            && |decls| == RecordsOnTop(prefixes)
            && forall i | 0 <= i < |decls| ::
                 var q := prefixes[|prefixes| - 1 - i].prefix;
                 && decls[i].name == (if q == [] then Name([], XMLNS) else Name(XMLNS, q))
                 && decls[i].value == (if q == [] then s.defaultNS else Get(s.attrNS, q))
  {
    if prefixes != [] && !prefixes[|prefixes| - 1].mark {
      DeclarationsInOrder(s, prefixes[..|prefixes| - 1]);
    }
  }

  /** What is written of an accepted start tag, whatever is in it: its own local name, the
      declarations it makes, latest first, and then in order and one for one the attributes that
      are not about name spaces. */
  lemma StartIsWritten(p: Printer, name: Name, attrs: seq<Attr>, t: Tables)
    requires WriteStart(p, name, attrs, t).1.Ok?
    ensures var (p', w) := WriteStart(p, name, attrs, t);
            var n, plain := RecordsOnTop(p'.prefixes), Ordinary(attrs);
            && w.value.Start? && w.value.name.local == name.local
            && |w.value.attrs| == n + |plain|
            && w.value.attrs[..n] == Declarations(p'.spaces, p'.prefixes)
            && forall i | 0 <= i < |plain| :: WrittenAs(plain[i], w.value.attrs[n + i])
  {
    hide DefineAll, CreateAll, CreateNSPrefix, Ordinary, Plain, Declarations, WrittenAttrs, RecordsOnTop, PrefixForNS;
    var (p', w) := WriteStart(p, name, attrs, t);
    PlainIsOrdinary(attrs);
    DeclarationsInOrder(p'.spaces, p'.prefixes);
    WrittenInOrder(p'.spaces, Ordinary(attrs));
  }

  /** A value is written between quotes on one line, without quotes or brackets in it; and text is
      written as it is exactly when XML has room for all of it and nothing in it must be escaped, line
      ends not among that. */
  lemma SpelledExactly(n: Name, value: Str, text: Str)
    ensures exists x :: SpellAttr(Attr(n, value)) == [SPACE] + (JoinName(n) + ([EQUALS, X.QUOT] + (x + [X.QUOT])))
                        && forall b | b in x :: b != X.NL && b != X.CR && b != X.QUOT && b != X.APOS && b != X.LT && b != X.GT
    ensures SpellData(CharData(text)) == text <==>
              X.AllInRange(text) && forall b | b in text :: b !in [X.QUOT, X.APOS, X.AMP, X.LT, X.GT, X.TAB, X.CR]
  {
    hide X.AllInRange, X.Escaped;
    var x := X.Escaped(value, true);
    X.NoneLeft(value, true);
    assert SpellAttr(Attr(n, value)) == [SPACE] + (JoinName(n) + ([EQUALS, X.QUOT] + (x + [X.QUOT])));
    X.WrittenAsItIs(text, false);
  }
}
