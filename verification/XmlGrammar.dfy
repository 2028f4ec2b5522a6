/** Tags as a document may spell them: spaces where they are allowed, either kind of quotes, and
    values with whatever may stand in them. rawToken reads exactly these, and Token makes of an
    empty-element tag what it makes of a start tag and its end tag. */
module XmlGrammar {
  import opened Wrappers
  import opened Utf8
  import opened XmlTypes
  import opened XmlNames
  import opened XmlRaw
  import X = XmlText
  import S = XmlSpelling
  import D = XmlDecoder

  // ---------- The grammar ----------

  /** An attribute with the spaces before it, before and after the equals sign, and the bytes
      between its quotes. */
  datatype AttrForm = AttrForm(before: Str, name: Str, mid: Str, after: Str, quote: Byte, text: Str)

  datatype TagForm = TagForm(name: Str, attrs: seq<AttrForm>, end: Str, empty: bool)

  /** The bytes of the attribute, and then more. */
  function AttrThen(a: AttrForm, more: Str): Str {
    a.before + (a.name + NameThen(a, more))
  }

  function NameThen(a: AttrForm, more: Str): Str {
    a.mid + ([EQUALS] + (a.after + ([a.quote] + (a.text + ([a.quote] + more)))))
  }

  function AttrsThen(attrs: seq<AttrForm>, more: Str): Str {
    if attrs == [] then more else AttrThen(attrs[0], AttrsThen(attrs[1..], more))
  }

  function Close(empty: bool): Str {
    if empty then [SLASH, X.GT] else [X.GT]
  }

  /** The bytes of the tag, and then the rest of the document. */
  function TagThen(f: TagForm, rest: Str): Str {
    [X.LT] + (f.name + AttrsThen(f.attrs, f.end + (Close(f.empty) + rest)))
  }

  function EndThen(name: Str, spaces: Str, rest: Str): Str {
    [X.LT, SLASH] + (name + (spaces + ([X.GT] + rest)))
  }

  /** Spaces, tabs and line ends. */
  predicate Blank(s: Str) {
    forall b | b in s :: b == 0x20 || b == 0x9 || b == 0xA || b == 0xD
  }

  /** Between these quotes the bytes stand for the value. */
  predicate IsQuoted(quote: Byte, text: Str, value: Str) {
    IsQuote(quote) && X.TextOf(text + [quote], quote, false) == X.Scanned(value, [])
  }

  predicate IsAttr(t: Tables, f: AttrForm, a: Attr) {
    && Blank(f.before) && Blank(f.mid) && Blank(f.after)
    && IsName(t, f.name) && a.name == SplitName(f.name) && IsQuoted(f.quote, f.text, a.value)
  }

  predicate AreAttrs(t: Tables, fs: seq<AttrForm>, attrs: seq<Attr>) {
    |fs| == |attrs| && forall i | 0 <= i < |fs| :: IsAttr(t, fs[i], attrs[i])
  }

  /** The form is one of a tag with this name and these attributes. Only the first attribute
      needs a space before it. */
  predicate IsTag(t: Tables, f: TagForm, name: Name, attrs: seq<Attr>) {
    && IsName(t, f.name) && name == SplitName(f.name)
    && AreAttrs(t, f.attrs, attrs) && (f.attrs != [] ==> f.attrs[0].before != [])
    && Blank(f.end)
  }

  // ---------- Spaces and names ----------

  lemma {:induction false} SkipBlank(sp: Str, rest: Str)
    requires Blank(sp) && (rest != [] ==> !IsSpace(rest[0]))
    ensures SkipSpace(sp + rest) == rest
  {
    if sp == [] {
      assert sp + rest == rest;
    } else {
      assert (sp + rest)[0] == sp[0] && (sp + rest)[1..] == sp[1..] + rest;
      assert sp[0] in sp && forall b | b in sp[1..] :: b in sp;
      SkipBlank(sp[1..], rest);
    }
  }

  lemma {:induction false} SkippedIsBlank(s: Str) returns (sp: Str)
    ensures Blank(sp) && s == sp + SkipSpace(s)
  {
    if s != [] && IsSpace(s[0]) {
      sp := SkippedIsBlank(s[1..]);
      assert s == [s[0]] + s[1..];
      X.Regroup([s[0]], sp, SkipSpace(s[1..]));
      sp := [s[0]] + sp;
    } else {
      sp := [];
      assert s == [] + s;
    }
  }

  lemma {:induction false} RunEnds(s: Str)
    ensures X.NameRun(s) < |s| ==> !X.IsNameByte(s[X.NameRun(s)])
    ensures forall i | 0 <= i < X.NameRun(s) :: X.IsNameByte(s[i])
  {
    if s != [] && X.IsNameByte(s[0]) {
      RunEnds(s[1..]);
    }
  }

  /** What is read as a name is one, and ends where no name goes on. */
  lemma NameIsRead(t: Tables, s: Str)
    requires ReadName(t, s).Got?
    ensures var r := ReadName(t, s); s == r.value + r.rest && IsName(t, r.value) && S.Ends(r.rest)
  {
    hide IsName;
    RunEnds(s);
  }

  lemma NameBegins(t: Tables, x: Str)
    requires IsName(t, x)
    ensures x != [] && X.IsNameByte(x[0]) && !IsSpace(x[0])
  {
    NameIsLater(t, x);
    LaterBytes(t, x);
  }

  // ---------- Values ----------

  /** A character expression is read from its own bytes, the last of which is a semicolon. */
  lemma ReferenceIsLocal(s: Str) returns (x: Str)
    requires X.ReadReference(s).Reference?
    ensures var r := X.ReadReference(s);
            && s == x + r.rest && x != [] && x[|x| - 1] == X.SEMI
            && forall other :: X.ReadReference(x + other) == X.Reference(r.text, other)
  {
    var r := X.ReadReference(s);
    x := s[..|s| - |r.rest|];
    if s[0] == X.HASH {
      NumberIsLocal(s, x);
    } else {
      EntityIsLocal(s, x);
    }
  }

  lemma EntityIsLocal(s: Str, x: Str)
    requires X.ReadReference(s).Reference? && s[0] != X.HASH && x == s[..|s| - |X.ReadReference(s).rest|]
    ensures s == x + X.ReadReference(s).rest && x != [] && x[|x| - 1] == X.SEMI
    ensures forall other :: X.ReadReference(x + other) == X.Reference(X.ReadReference(s).text, other)
  {
    hide X.Entity;
    var r, n := X.ReadReference(s), X.NameRun(s);
    RunEnds(s);
    assert x == s[..n] + [X.SEMI] && r.rest == s[n + 1..];
    EntityNotEmpty(s[..n]);
    forall other ensures X.ReadReference(x + other) == X.Reference(r.text, other) {
      EntityIsRead(s[..n], x, other);
    }
  }

  lemma EntityNotEmpty(name: Str)
    ensures X.Entity(name).Some? ==> name != []
  {
  }

  lemma EntityIsRead(name: Str, x: Str, other: Str)
    requires X.Entity(name).Some? && name != [] && (forall i | 0 <= i < |name| :: X.IsNameByte(name[i])) && x == name + [X.SEMI]
    ensures X.ReadReference(x + other) == X.Reference(X.Entity(name).value, other)
  {
    hide X.Entity, X.ReadNumber;
    var n, y := |name|, x + other;
    assert y == name + ([X.SEMI] + other);
    X.NameRunIs(name, [X.SEMI] + other);
    assert y[..n] == name && y[n + 1..] == other && y[0] == name[0] && X.IsNameByte(name[0]);
  }

  lemma NumberIsLocal(s: Str, x: Str)
    requires X.ReadReference(s).Reference? && s[0] == X.HASH && x == s[..|s| - |X.ReadReference(s).rest|]
    ensures s == x + X.ReadReference(s).rest && x != [] && x[|x| - 1] == X.SEMI
    ensures forall other :: X.ReadReference(x + other) == X.Reference(X.ReadReference(s).text, other)
  {
    hide X.ReadNumber;
    var r := X.ReadReference(s);
    var hex := |s| > 1 && s[1] == 'x' as int;
    var k, base := if hex then 2 else 1, if hex then 16 else 10;
    var u := s[k..];
    assert r == X.ReadNumber(u, base);
    var y := DigitsAreLocal(u, base);
    assert s == s[..k] + u && x == s[..k] + y;
    forall other ensures X.ReadReference(x + other) == X.Reference(r.text, other) {
      assert (x + other)[k..] == y + other && (x + other)[0] == s[0];
      assert |x| >= 2 && (x + other)[1] == s[1];
    }
  }

  lemma DigitsAreLocal(u: Str, base: nat) returns (y: Str)
    requires X.ReadNumber(u, base).Reference?
    ensures var r := X.ReadNumber(u, base);
            && u == y + r.rest && |y| >= 2 && y[|y| - 1] == X.SEMI
            && forall other :: X.ReadNumber(y + other, base) == X.Reference(r.text, other)
  {
    var n := X.DigitRun(u, base);
    y := u[..n] + [X.SEMI];
    assert u == u[..n] + [u[n]] + u[n + 1..];
    forall other {
      X.NumberReference(u[..n], base, X.Value(u[..n], base), other);
    }
  }

  predicate IsQuote(b: Byte) {
    b == X.QUOT || b == X.APOS
  }

  /** What a byte puts into the buffer after the byte b1. */
  function Taken(b1: Byte, b: Byte): Str {
    if b == X.CR then [X.NL] else if b1 == X.CR && b == X.NL then [] else [b]
  }

  predicate IsRefused(b0: Byte, b1: Byte, b: Byte) {
    b == X.LT || (b0 == X.BRACKET && b1 == X.BRACKET && b == X.GT)
  }

  /** One round of the loop inside quotes. */
  lemma ScanRound(s: Str, buf: Str, b0: Byte, b1: Byte, quote: Byte)
    requires s != [] && IsQuote(quote)
    ensures var r, b := X.Scan(s, buf, b0, b1, quote, false), s[0];
            if IsRefused(b0, b1, b) then r == X.BadText
            else if b == quote then r == X.Scanned(buf, s[1..])
            else if b == X.AMP then
              var c := X.ReadReference(s[1..]);
              if c.Reference? then r == X.Scan(c.rest, buf + c.text, 0, 0, quote, false) else r == if c.Cut? then X.CutText else X.BadText
            else r == X.Scan(s[1..], buf + Taken(b1, b), b1, b, quote, false)
  {
  }

  lemma LastStays(s: Str, x: Str, rest: Str, b: Byte)
    requires s != [] && s == x + rest && s[|s| - 1] == b && x != [] && x[|x| - 1] != b
    ensures rest != [] && rest[|rest| - 1] == b
  {
  }

  lemma SliceAppend(s: Str, more: Str)
    requires s != []
    ensures (s + more)[0] == s[0] && (s + more)[1..] == s[1..] + more
  {
  }

  /** Up to the closing quote, nothing behind it matters. */
  lemma {:induction false} ScanIsLocal(s: Str, more: Str, buf: Str, b0: Byte, b1: Byte, quote: Byte)
    requires IsQuote(quote) && s != [] && s[|s| - 1] == quote
    requires X.Scan(s, buf, b0, b1, quote, false).Scanned? && X.Scan(s, buf, b0, b1, quote, false).rest == []
    ensures X.Scan(s + more, buf, b0, b1, quote, false) == X.Scanned(X.Scan(s, buf, b0, b1, quote, false).data, more)
    decreases |s|
  {
    hide X.Scan, X.ReadReference;
    var b, tail := s[0], s[1..];
    SliceAppend(s, more);
    ScanRound(s, buf, b0, b1, quote);
    ScanRound(s + more, buf, b0, b1, quote);
    if b == quote {
      assert tail == [] && tail + more == more;
    } else if b == X.AMP {
      var r := X.ReadReference(tail);
      var x := ReferenceIsLocal(tail);
      LastStays(tail, x, r.rest, quote);
      X.Regroup(x, r.rest, more);
      ScanIsLocal(r.rest, more, buf + r.text, 0, 0, quote);
    } else {
      assert tail != [] && tail[|tail| - 1] == quote;
      ScanIsLocal(tail, more, buf + Taken(b1, b), b1, b, quote);
    }
  }

  lemma SliceCons(b: Byte, text: Str, quote: Byte)
    ensures ([b] + text + [quote])[0] == b && ([b] + text + [quote])[1..] == text + [quote]
  {
  }

  lemma ScanNothing(buf: Str, b0: Byte, b1: Byte, quote: Byte)
    ensures X.Scan([], buf, b0, b1, quote, false) == X.Scanned(buf, [])
  {
  }

  /** If something is left, the closing quote is in front of it. */
  lemma {:induction false} ScanFindsQuote(s: Str, buf: Str, b0: Byte, b1: Byte, quote: Byte) returns (text: Str)
    requires IsQuote(quote)
    requires X.Scan(s, buf, b0, b1, quote, false).Scanned? && X.Scan(s, buf, b0, b1, quote, false).rest != []
    ensures s == text + ([quote] + X.Scan(s, buf, b0, b1, quote, false).rest)
    ensures X.Scan(text + [quote], buf, b0, b1, quote, false) == X.Scanned(X.Scan(s, buf, b0, b1, quote, false).data, [])
    decreases |s|
  {
    hide X.Scan, X.ReadReference;
    if s == [] {
      ScanNothing(buf, b0, b1, quote);
    }
    var b, tail, rest := s[0], s[1..], X.Scan(s, buf, b0, b1, quote, false).rest;
    ScanRound(s, buf, b0, b1, quote);
    assert s == [b] + tail;
    if b == quote {
      text := [];
      assert text + [quote] == [quote] && [quote][1..] == [] && text + ([quote] + rest) == [quote] + rest;
      ScanRound([quote], buf, b0, b1, quote);
    } else if b == X.AMP {
      var r := X.ReadReference(tail);
      var x := ReferenceIsLocal(tail);
      var t := ScanFindsQuote(r.rest, buf + r.text, 0, 0, quote);
      text := [b] + (x + t);
      SliceCons(b, x + t, quote);
      X.Regroup(x, t, [quote]);
      ScanRound(text + [quote], buf, b0, b1, quote);
      Regroup4([b], x, t, [quote] + rest);
    } else {
      var t := ScanFindsQuote(tail, buf + Taken(b1, b), b1, b, quote);
      text := [b] + t;
      SliceCons(b, t, quote);
      ScanRound(text + [quote], buf, b0, b1, quote);
      X.Regroup([b], t, [quote] + rest);
    }
  }

  lemma Regroup4(a: Str, b: Str, c: Str, d: Str)
    ensures a + (b + (c + d)) == a + (b + c) + d
  {
  }

  lemma ValueIsRead(quote: Byte, text: Str, value: Str, rest: Str)
    requires IsQuoted(quote, text, value)
    ensures ReadValue([quote] + (text + ([quote] + rest))) == Got(value, rest)
  {
    hide X.Scan;
    var s := text + [quote];
    ScanIsLocal(s, rest, [], 0, 0, quote);
    assert s + rest == text + ([quote] + rest);
    assert ([quote] + (s + rest))[1..] == s + rest;
  }

  lemma ReadIsValue(s: Str) returns (quote: Byte, text: Str)
    requires ReadValue(s).Got? && ReadValue(s).rest != []
    ensures IsQuoted(quote, text, ReadValue(s).value) && s == [quote] + (text + ([quote] + ReadValue(s).rest))
  {
    quote := s[0];
    text := ScanFindsQuote(s[1..], [], 0, 0, quote);
    assert s == [quote] + s[1..];
  }

  // ---------- Attributes ----------

  /** An attribute is read from any of its forms, up to the closing quote. */
  lemma AttrIsRead(t: Tables, f: AttrForm, a: Attr, more: Str)
    requires IsAttr(t, f, a)
    ensures ReadAttr(t, f.name + NameThen(f, more)) == Got(a, more)
  {
    hide IsName, IsQuoted, ReadValue, SkipSpace, IsSpace;
    var value := [f.quote] + (f.text + ([f.quote] + more));
    var u := [EQUALS] + (f.after + value);
    BlankThen(f.mid, EQUALS, f.after + value);
    BlankThen(f.after, f.quote, f.text + ([f.quote] + more));
    assert u[1..] == f.after + value;
    NotSpaces();
    ValueIsRead(f.quote, f.text, a.value, more);
    S.NameReads(t, f.name, NameThen(f, more));
    QuoteFacts(f.quote, f.text, a.value);
  }

  lemma QuoteFacts(quote: Byte, text: Str, value: Str)
    requires IsQuoted(quote, text, value)
    ensures IsQuote(quote)
  {
  }

  lemma NotSpaces()
    ensures !IsSpace(EQUALS) && !IsSpace(X.QUOT) && !IsSpace(X.APOS) && !IsSpace(SLASH) && !IsSpace(X.GT)
    ensures forall b | X.IsNameByte(b) :: !IsSpace(b)
  {
  }

  /** Spaces before a byte that is none are skipped, and no name goes on into either. */
  lemma BlankThen(sp: Str, b: Byte, rest: Str)
    requires Blank(sp)
    ensures !IsSpace(b) ==> SkipSpace(sp + ([b] + rest)) == [b] + rest
    ensures !X.IsNameByte(b) || sp != [] ==> S.Ends(sp + ([b] + rest))
  {
    if !IsSpace(b) {
      SkipBlank(sp, [b] + rest);
    }
    if sp != [] {
      assert (sp + ([b] + rest))[0] == sp[0] && sp[0] in sp;
    }
  }

  /** What is read as an attribute has such a form, if anything is left behind it. */
  lemma ReadIsAttr(t: Tables, s: Str) returns (f: AttrForm)
    requires ReadAttr(t, s).Got? && ReadAttr(t, s).rest != []
    ensures IsAttr(t, f, ReadAttr(t, s).value) && f.before == [] && s == f.name + NameThen(f, ReadAttr(t, s).rest)
  {
    hide IsName, IsQuoted, ReadValue, ReadName;
    var r := ReadAttr(t, s);
    NameIsRead(t, s);
    var name, rest := ReadName(t, s).value, ReadName(t, s).rest;
    var mid := SkippedIsBlank(rest);
    var u := SkipSpace(rest);
    assert u == [EQUALS] + u[1..];
    var after := SkippedIsBlank(u[1..]);
    var quote, text := ReadIsValue(SkipSpace(u[1..]));
    f := AttrForm([], name, mid, after, quote, text);
  }

  /** The attributes of a tag are read from any of their forms, with its end. */
  lemma {:induction false} AttrsAreRead(t: Tables, fs: seq<AttrForm>, attrs: seq<Attr>, end: Str, empty: bool, rest: Str)
    requires AreAttrs(t, fs, attrs) && Blank(end)
    ensures ReadAttrs(t, AttrsThen(fs, end + (Close(empty) + rest))) == Got((attrs, empty), rest)
  {
    hide ReadAttr, IsAttr, SkipSpace, AttrThen, NameThen, Blank;
    if fs == [] {
      NotSpaces();
      EndIsRead(end, empty, rest);
    } else {
      var f, more := fs[0], AttrsThen(fs[1..], end + (Close(empty) + rest));
      assert IsAttr(t, f, attrs[0]);
      assert AreAttrs(t, fs[1..], attrs[1..]) by {
        forall i | 0 <= i < |fs[1..]| ensures IsAttr(t, fs[1..][i], attrs[1..][i]) {
          assert IsAttr(t, fs[i + 1], attrs[i + 1]);
        }
      }
      AttrsAreRead(t, fs[1..], attrs[1..], end, empty, rest);
      AttrIsRead(t, f, attrs[0], more);
      AttrBegins(t, f, attrs[0], more);
      assert attrs == [attrs[0]] + attrs[1..];
    }
  }

  lemma EndIsRead(end: Str, empty: bool, rest: Str)
    requires Blank(end)
    ensures var s := SkipSpace(end + (Close(empty) + rest));
            s == Close(empty) + rest && |s| >= |Close(empty)| && s[|Close(empty)|..] == rest
  {
    SkipBlank(end, Close(empty) + rest);
  }

  lemma AttrBegins(t: Tables, f: AttrForm, a: Attr, more: Str)
    requires IsAttr(t, f, a)
    ensures var s := f.name + NameThen(f, more); SkipSpace(AttrThen(f, more)) == s && s != [] && s[0] != SLASH && s[0] != X.GT
  {
    hide IsName, IsQuoted;
    NameBegins(t, f.name);
    SkipBlank(f.before, f.name + NameThen(f, more));
  }

  /** What is read as the attributes of a tag has such forms. */
  lemma {:induction false} ReadAreAttrs(t: Tables, s: Str) returns (fs: seq<AttrForm>, end: Str)
    requires ReadAttrs(t, s).Got?
    ensures var (attrs, empty) := ReadAttrs(t, s).value;
            AreAttrs(t, fs, attrs) && Blank(end) && s == AttrsThen(fs, end + (Close(empty) + ReadAttrs(t, s).rest))
    decreases |s|
  {
    hide ReadAttr, IsAttr;
    var r := ReadAttrs(t, s);
    var sp := SkippedIsBlank(s);
    var u := SkipSpace(s);
    if u[0] == SLASH || u[0] == X.GT {
      fs, end := [], sp;
      assert u == Close(r.value.1) + r.rest by {
        if u[0] == SLASH {
          assert u == [u[0], u[1]] + u[2..];
        } else {
          assert u == [u[0]] + u[1..];
        }
      }
    } else {
      var a := ReadAttr(t, u);
      var more, e := ReadAreAttrs(t, a.rest);
      if a.rest == [] {
        assert false;
      }
      var f := ReadIsAttr(t, u);
      fs, end := [f.(before := sp)] + more, e;
      FormAfterSpace(t, f, a.value, sp, s, a.rest);
      assert fs[1..] == more;
      forall i | 0 <= i < |fs| ensures IsAttr(t, fs[i], r.value.0[i]) {
        assert i > 0 ==> IsAttr(t, more[i - 1], r.value.0[1..][i - 1]);
      }
    }
  }

  lemma FormAfterSpace(t: Tables, f: AttrForm, a: Attr, sp: Str, s: Str, more: Str)
    requires IsAttr(t, f, a) && Blank(sp) && s == sp + (f.name + NameThen(f, more))
    ensures IsAttr(t, f.(before := sp), a) && s == AttrThen(f.(before := sp), more)
  {
    hide IsName, IsQuoted, Blank;
  }

  // ---------- Tags ----------

  /** rawToken reads a start tag from exactly the forms of such a tag. */
  lemma StartIsGrammar(t: Tables, s: Str, name: Name, attrs: seq<Attr>, empty: bool, rest: Str)
    requires s != []
    ensures ReadRaw(t, s) == Got(Raw(Start(name, attrs), empty), rest) <==>
              exists f :: IsTag(t, f, name, attrs) && f.empty == empty && s == TagThen(f, rest)
  {
    hide ReadAttrs;
    if ReadRaw(t, s) == Got(Raw(Start(name, attrs), empty), rest) {
      var f := ReadIsTag(t, s);
      assert IsTag(t, f, name, attrs) && f.empty == empty && s == TagThen(f, rest);
    }
    forall f | IsTag(t, f, name, attrs) && f.empty == empty && s == TagThen(f, rest)
      ensures ReadRaw(t, s) == Got(Raw(Start(name, attrs), empty), rest)
    {
      TagIsRead(t, f, name, attrs, rest);
    }
  }

  lemma TagIsRead(t: Tables, f: TagForm, name: Name, attrs: seq<Attr>, rest: Str)
    requires IsTag(t, f, name, attrs)
    ensures TagThen(f, rest) != [] && ReadRaw(t, TagThen(f, rest)) == Got(Raw(Start(name, attrs), f.empty), rest)
  {
    hide IsName, ReadAttrs, AttrsThen, AreAttrs, Blank, X.IsNameByte, ReadRaw;
    var after := AttrsThen(f.attrs, f.end + (Close(f.empty) + rest));
    TagNameEnds(t, f, name, attrs, rest);
    S.NameReads(t, f.name, after);
    AttrsAreRead(t, f.attrs, attrs, f.end, f.empty, rest);
    NameBegins(t, f.name);
    assert TagThen(f, rest)[1..] == f.name + after && (f.name + after)[0] == f.name[0];
    StartFollows(t, TagThen(f, rest));
  }

  lemma StartFollows(t: Tables, s: Str)
    requires |s| > 1 && s[0] == X.LT && X.IsNameByte(s[1])
    ensures ReadRaw(t, s) == ReadStart(t, s[1..])
  {
    hide ReadStart, ReadEnd, ReadProcInst, ReadDeclaration;
  }

  lemma TagNameEnds(t: Tables, f: TagForm, name: Name, attrs: seq<Attr>, rest: Str)
    requires IsTag(t, f, name, attrs)
    ensures S.Ends(AttrsThen(f.attrs, f.end + (Close(f.empty) + rest)))
  {
    if f.attrs == [] {
      if f.end != [] {
        assert f.end[0] in f.end;
      }
    } else {
      var a := f.attrs[0];
      assert IsAttr(t, a, attrs[0]) && a.before[0] in a.before;
    }
  }

  lemma OnlyTags(t: Tables, s: Str)
    requires s != [] && ReadRaw(t, s).Got?
    ensures ReadRaw(t, s).value.token.Start? ==> |s| > 1 && s[0] == X.LT && ReadRaw(t, s) == ReadStart(t, s[1..])
    ensures ReadRaw(t, s).value.token.End? ==> |s| > 1 && s[0] == X.LT && s[1] == SLASH && ReadRaw(t, s) == ReadEnd(t, s[2..])
  {
    hide IsName, X.TextOf, Directing, ReadAttrs, Find, ReadName;
  }

  lemma ReadIsTag(t: Tables, s: Str) returns (f: TagForm)
    requires s != [] && ReadRaw(t, s).Got? && ReadRaw(t, s).value.token.Start?
    ensures var w := ReadRaw(t, s).value;
            IsTag(t, f, w.token.name, w.token.attrs) && f.empty == w.empty && s == TagThen(f, ReadRaw(t, s).rest)
  {
    hide IsName, ReadAttrs, ReadName, ReadRaw;
    var w := ReadRaw(t, s).value;
    var u := s[1..];
    OnlyTags(t, s);
    assert s == [X.LT] + u;
    NameIsRead(t, u);
    var name, rest := ReadName(t, u).value, ReadName(t, u).rest;
    var fs, end := ReadAreAttrs(t, rest);
    f := TagForm(name, fs, end, w.empty);
    if fs != [] {
      assert IsAttr(t, fs[0], w.token.attrs[0]);
      FirstNeedsSpace(t, fs[0], w.token.attrs[0], AttrsThen(fs[1..], end + (Close(w.empty) + ReadRaw(t, s).rest)));
    }
  }

  lemma FirstNeedsSpace(t: Tables, f: AttrForm, a: Attr, more: Str)
    requires IsAttr(t, f, a) && S.Ends(AttrThen(f, more))
    ensures f.before != []
  {
    NameBegins(t, f.name);
    ThenBegins(f, more);
  }

  lemma ThenBegins(f: AttrForm, more: Str)
    requires f.name != []
    ensures f.before == [] ==> AttrThen(f, more) != [] && AttrThen(f, more)[0] == f.name[0]
  {
  }

  /** It reads an end tag from exactly a name with spaces behind it. */
  lemma EndIsGrammar(t: Tables, s: Str, name: Name, empty: bool, rest: Str)
    requires s != []
    ensures ReadRaw(t, s) == Got(Raw(End(name), empty), rest) <==>
              !empty && exists x, sp :: IsName(t, x) && name == SplitName(x) && Blank(sp) && s == EndThen(x, sp, rest)
  {
    hide IsName, ReadRaw, Blank, SplitName, EndThen;
    if ReadRaw(t, s) == Got(Raw(End(name), empty), rest) {
      var x, sp := ReadIsEnd(t, s);
    }
    forall x, sp | IsName(t, x) && name == SplitName(x) && Blank(sp) && s == EndThen(x, sp, rest)
      ensures ReadRaw(t, s) == Got(Raw(End(name), false), rest)
    {
      EndTagIsRead(t, x, sp, rest);
    }
  }

  lemma ReadIsEnd(t: Tables, s: Str) returns (x: Str, sp: Str)
    requires s != [] && ReadRaw(t, s).Got? && ReadRaw(t, s).value.token.End?
    ensures IsName(t, x) && Blank(sp) && ReadRaw(t, s).value == Raw(End(SplitName(x)), false) && s == EndThen(x, sp, ReadRaw(t, s).rest)
  {
    hide IsName, ReadRaw, SplitName, ReadName;
    OnlyTags(t, s);
    var u := s[2..];
    assert s == [X.LT, SLASH] + u;
    NameIsRead(t, u);
    var u' := ReadName(t, u).rest;
    x := ReadName(t, u).value;
    sp := SkippedIsBlank(u');
    assert SkipSpace(u') == [X.GT] + SkipSpace(u')[1..];
  }

  lemma EndTagIsRead(t: Tables, x: Str, sp: Str, rest: Str)
    requires IsName(t, x) && Blank(sp)
    ensures EndThen(x, sp, rest) != [] && ReadRaw(t, EndThen(x, sp, rest)) == Got(Raw(End(SplitName(x)), false), rest)
  {
    hide IsName;
    var after := sp + ([X.GT] + rest);
    BlankThen(sp, X.GT, rest);
    NotSpaces();
    S.NameReads(t, x, after);
    assert EndThen(x, sp, rest)[2..] == x + after && ([X.GT] + rest)[1..] == rest;
  }

  // ---------- Text, CDATA and the XML declaration ----------

  /** Text comes in parts: bytes that stand for themselves, and character expressions. */
  datatype Part = Chars(bytes: Str) | Expression(spelled: Str, text: Str)

  predicate IsPart(p: Part, quote: int) {
    match p
    case Chars(bytes) => bytes != [] && X.Plain(bytes, 0, 0, quote, false)
    case Expression(spelled, text) => X.ReadReference(spelled) == X.Reference(text, [])
  }

  /** Expressions stand between the bytes, which cannot go on in the next part. */
  predicate AreParts(ps: seq<Part>, quote: int) {
    ps != [] ==> IsPart(ps[0], quote) && (|ps| > 1 && ps[0].Chars? ==> ps[1].Expression?) && AreParts(ps[1..], quote)
  }

  function PartsThen(ps: seq<Part>, more: Str): Str {
    if ps == [] then more
    else
      var rest := PartsThen(ps[1..], more);
      match ps[0]
      case Chars(bytes) => bytes + rest
      case Expression(spelled, _) => [X.AMP] + (spelled + rest)
  }

  /** What the parts stand for: line ends are changed in the bytes, and not in what is expressed. */
  function Meaning(ps: seq<Part>): Str {
    if ps == [] then []
    else
      match ps[0]
      case Chars(bytes) => X.Newlines(bytes) + Meaning(ps[1..])
      case Expression(_, text) => text + Meaning(ps[1..])
  }

  lemma {:induction false} ScanParts(ps: seq<Part>, t: Str, buf: Str, quote: int) returns (c0: Byte, c1: Byte)
    requires AreParts(ps, quote) && quote != X.AMP as int
    ensures X.Scan(PartsThen(ps, t), buf, 0, 0, quote, false) == X.Scan(t, buf + Meaning(ps), c0, c1, quote, false)
    decreases |ps|
  {
    hide X.Scan, X.Plain;
    c0, c1 := 0, 0;
    if ps == [] {
      assert buf + Meaning(ps) == buf;
    } else {
      var rest, m := PartsThen(ps[1..], t), Meaning(ps[1..]);
      match ps[0]
      case Chars(bytes) =>
        c0, c1 := X.ScanPlain(bytes, rest, buf, 0, 0, quote, false);
        X.Regroup(buf, X.Newlines(bytes), m);
        if ps[1..] == [] {
          assert buf + X.Newlines(bytes) + [] == buf + X.Newlines(bytes);
        } else {
          AfterChars(ps[1..], t, buf + X.Newlines(bytes), c0, c1, quote);
          c0, c1 := ScanParts(ps[1..], t, buf + X.Newlines(bytes), quote);
        }
      case Expression(spelled, text) =>
        X.Regroup(buf, text, m);
        ScanExpression(spelled, text, rest, buf, 0, 0, quote);
        c0, c1 := ScanParts(ps[1..], t, buf + text, quote);
    }
  }

  lemma ScanExpression(spelled: Str, text: Str, rest: Str, buf: Str, b0: Byte, b1: Byte, quote: int)
    requires X.ReadReference(spelled) == X.Reference(text, []) && quote != X.AMP as int
    ensures X.Scan([X.AMP] + (spelled + rest), buf, b0, b1, quote, false) == X.Scan(rest, buf + text, 0, 0, quote, false)
  {
    var x := ReferenceIsLocal(spelled);
    assert x + [] == x;
    assert ([X.AMP] + (spelled + rest))[1..] == spelled + rest;
  }

  /** What came before an expression does not matter. */
  lemma AfterChars(ps: seq<Part>, t: Str, buf: Str, b0: Byte, b1: Byte, quote: int)
    requires AreParts(ps, quote) && ps != [] && ps[0].Expression? && quote != X.AMP as int
    ensures X.Scan(PartsThen(ps, t), buf, b0, b1, quote, false) == X.Scan(PartsThen(ps, t), buf, 0, 0, quote, false)
  {
    var rest := PartsThen(ps[1..], t);
    ScanExpression(ps[0].spelled, ps[0].text, rest, buf, b0, b1, quote);
    ScanExpression(ps[0].spelled, ps[0].text, rest, buf, 0, 0, quote);
  }

  /** Text up to a tag or the end means what its parts mean, one after the other; so does a value up
      to its quote. It is refused when that is no text. */
  lemma PartsAreRead(ps: seq<Part>, rest: Str, quote: Byte)
    ensures AreParts(ps, X.NO_QUOTE) && (rest == [] || rest[0] == X.LT) ==>
              X.TextOf(PartsThen(ps, rest), X.NO_QUOTE, false) == if X.AllInRange(Meaning(ps)) then X.Scanned(Meaning(ps), rest) else X.BadText
    ensures AreParts(ps, quote) && IsQuote(quote) ==>
              X.TextOf(PartsThen(ps, [quote] + rest), quote, false) == if X.AllInRange(Meaning(ps)) then X.Scanned(Meaning(ps), rest) else X.BadText
  {
    assert [] + Meaning(ps) == Meaning(ps) && ([quote] + rest)[1..] == rest;
    if AreParts(ps, X.NO_QUOTE) && (rest == [] || rest[0] == X.LT) {
      var c0, c1 := ScanParts(ps, rest, [], X.NO_QUOTE);
    }
    if AreParts(ps, quote) && IsQuote(quote) {
      var c0, c1 := ScanParts(ps, [quote] + rest, [], quote);
    }
  }

  /** A CDATA section is read as what stands in it, with its line ends changed. */
  lemma CDataIsRead(t: Tables, x: Str, rest: Str)
    requires X.Plain(x, 0, 0, X.NO_QUOTE, true)
    ensures var s := Bytes("<![CDATA[") + (x + (Bytes("]]>") + rest));
            ReadRaw(t, s) == if X.AllInRange(X.Newlines(x)) then Got(Raw(Other(CharData(X.Newlines(x))), false), rest) else Syntax
  {
    var s, u := Bytes("<![CDATA[") + (x + (Bytes("]]>") + rest)), x + (X.CLOSE + rest);
    assert Bytes("]]>") == X.CLOSE && Bytes("<![CDATA[") == [X.LT, BANG, OPEN_BRACKET] + CDATA;
    assert s[2..][1..] == CDATA + u && (CDATA + u)[6..] == u;
    X.CDataIsNormalised(x, rest);
  }

  /** 1.0, utf-8 and UTF-8. */
  const ONE_ZERO: Str := [0x31, 0x2E, 0x30]
  const LOWER_UTF8: Str := [0x75, 0x74, 0x66, 0x2D, 0x38]
  const UPPER_UTF8: Str := [0x55, 0x54, 0x46, 0x2D, 0x38]

  /** The declaration names no version but 1.0, and no encoding but UTF-8 in two spellings. */
  lemma DeclarationExactly(content: Str)
    ensures DeclarationOk(content) <==>
              && (ProcParam(VERSION, content) == [] || ProcParam(VERSION, content) == ONE_ZERO)
              && (ProcParam(ENCODING, content) == [] || ProcParam(ENCODING, content) == LOWER_UTF8 || ProcParam(ENCODING, content) == UPPER_UTF8)
  {
    hide ProcParam;
    Spellings();
  }

  lemma Spellings()
    ensures VERSIONS == [[], ONE_ZERO] && ENCODINGS == [[], LOWER_UTF8, UPPER_UTF8]
  {
    assert Bytes("1.0") == ONE_ZERO && Bytes("utf-8") == LOWER_UTF8 && Bytes("UTF-8") == UPPER_UTF8;
  }

  /** A parameter as it is spelled, and what comes after it. */
  function ParamThen(param: Str, quote: Byte, value: Str, after: Str): Str {
    (param + [EQUALS]) + ([quote] + (value + ([quote] + after)))
  }

  lemma QuoteIsFound(quote: Byte, value: Str, after: Str)
    requires quote !in value
    ensures var u := value + ([quote] + after); Find(u, [quote]) == |value| && u[..|value|] == value
  {
    var u := value + ([quote] + after);
    assert u[|value|..] == [quote] + after && u[..|value|] == value;
    forall j | 0 <= j < |value| ensures !([quote] <= u[j..]) {
      assert u[j..][0] == value[j];
    }
    FindUnique(u, [quote], |value|);
  }

  /** A parameter is found behind its first equals sign, up to the quote that was opened. */
  lemma ParamIsFound(param: Str, before: Str, quote: Byte, value: Str, after: Str)
    requires IsQuote(quote) && quote !in value
    requires var s := before + ParamThen(param, quote, value, after);
             forall j | 0 <= j < |before| :: !(param + [EQUALS] <= s[j..])
    ensures ProcParam(param, before + ParamThen(param, quote, value, after)) == value
  {
    hide Find;
    var mark, u := param + [EQUALS], value + ([quote] + after);
    var s := before + ParamThen(param, quote, value, after);
    assert s == before + (mark + ([quote] + u));
    assert s[|before|..] == mark + ([quote] + u) && s[|before| + |mark|..] == [quote] + u && ([quote] + u)[1..] == u;
    FindUnique(s, mark, |before|);
    QuoteIsFound(quote, value, after);
  }

  // ---------- Empty elements ----------

  /** Nothing is read here: an error, a fence on top, or an end that is still to be made up. */
  predicate Waits(d: D.Decoder) {
    d.err.Some? || d.pending != [] || (d.stk != [] && d.stk[0].StkEOF?)
  }

  /** Then the input does not matter for the next token. */
  lemma InputWaits(d: D.Decoder, input: Str)
    requires Waits(d)
    ensures D.NextToken(d.(input := input)) == (D.NextToken(d).0.(input := input), D.NextToken(d).1)
    ensures D.NextToken(d).1.Ok? ==> D.NextToken(d).0.pending == []
  {
  }

  lemma StartTaken(d: D.Decoder, f: TagForm, name: Name, attrs: seq<Attr>, rest: Str)
    requires !Waits(d) && IsTag(d.tables, f, name, attrs) && d.input == TagThen(f, rest)
    ensures var d0 := d.(input := rest, pending := if f.empty then [name] else []);
            D.NextToken(d) == (D.StartElement(d0, name, attrs).0, D.Ok(D.StartElement(d0, name, attrs).1))
  {
    hide IsTag, ReadRaw, TagThen;
    TagIsRead(d.tables, f, name, attrs, rest);
  }

  lemma EndTaken(d: D.Decoder, x: Str, sp: Str, rest: Str)
    requires !Waits(d) && IsName(d.tables, x) && Blank(sp) && d.input == EndThen(x, sp, rest)
    ensures D.NextToken(d) == D.EndElement(d.(input := rest), SplitName(x))
  {
    hide IsName, ReadRaw, EndThen, Blank;
    EndTagIsRead(d.tables, x, sp, rest);
  }

  lemma ReadAllOnce(d: D.Decoder)
    ensures var (d', r) := D.NextToken(d);
            D.ReadAll(d) == if r.Err? then ([], r.error) else ([r.value] + D.ReadAll(d').0, D.ReadAll(d').1)
  {
    hide D.NextToken;
    if D.NextToken(d).1.Ok? {
      D.TokenShortens(d);
    }
  }

  lemma WholeFromHere(d: D.Decoder, f: TagForm, name: Name, attrs: seq<Attr>, sp: Str, rest: Str)
    requires IsTag(d.tables, f, name, attrs) && f.empty && Blank(sp) && !Waits(d)
    ensures D.ReadAll(d.(input := TagThen(f, rest))) == D.ReadAll(d.(input := TagThen(f.(empty := false), EndThen(f.name, sp, rest))))
  {
    hide D.NextToken, D.EndElement, D.ReadAll, IsTag, TagThen, EndThen, IsName, Blank, SplitName, D.DeclareAll, D.Translate, D.TranslateAttrs;
    var f', end := f.(empty := false), EndThen(f.name, sp, rest);
    var d1, d2 := d.(input := TagThen(f, rest)), d.(input := TagThen(f', end));
    FormNames(d.tables, f, name, attrs);
    StartTaken(d1, f, name, attrs, rest);
    StartTaken(d2, f', name, attrs, end);
    var u1, u2 := D.NextToken(d1).0, D.NextToken(d2).0;
    MadeUp(u1);
    EndTaken(u2, f.name, sp, rest);
    assert u1.(pending := []) == u2.(input := rest);
    ReadAllOnce(d1);
    ReadAllOnce(d2);
    ReadAllOnce(u1);
    ReadAllOnce(u2);
  }

  lemma FormNames(t: Tables, f: TagForm, name: Name, attrs: seq<Attr>)
    requires IsTag(t, f, name, attrs)
    ensures IsTag(t, f.(empty := false), name, attrs) && IsName(t, f.name) && name == SplitName(f.name)
  {
  }

  lemma MadeUp(d: D.Decoder)
    requires d.err == None && d.pending != [] && d.stk != [] && d.stk[0].StkStart?
    ensures D.NextToken(d) == D.EndElement(d.(pending := []), d.pending[0])
  {
  }

  /** In any state and whatever follows, an empty-element tag gives the same tokens and the same
      error as the start tag without the slash and an end tag. */
  lemma EmptyIsWhole(d: D.Decoder, f: TagForm, name: Name, attrs: seq<Attr>, sp: Str, rest: Str)
    requires IsTag(d.tables, f, name, attrs) && f.empty && Blank(sp)
    ensures D.ReadAll(d.(input := TagThen(f, rest))) == D.ReadAll(d.(input := TagThen(f.(empty := false), EndThen(f.name, sp, rest))))
  {
    hide D.NextToken, D.ReadAll, IsTag, TagThen, EndThen, Blank;
    var a, b := TagThen(f, rest), TagThen(f.(empty := false), EndThen(f.name, sp, rest));
    if !Waits(d) {
      WholeFromHere(d, f, name, attrs, sp, rest);
    } else {
      InputWaits(d, a);
      InputWaits(d, b);
      ReadAllOnce(d.(input := a));
      ReadAllOnce(d.(input := b));
      var (d', r) := D.NextToken(d);
      if r.Ok? {
        TablesStay(d);
        if Waits(d') {
          NoneAfter(d'.(input := a));
          NoneAfter(d'.(input := b));
        } else {
          WholeFromHere(d', f, name, attrs, sp, rest);
        }
      }
    }
  }

  lemma TablesStay(d: D.Decoder)
    ensures D.NextToken(d).0.tables == d.tables
  {
  }

  /** With nothing to make up, no token is left. */
  lemma NoneAfter(d: D.Decoder)
    requires Waits(d) && d.pending == []
    ensures D.ReadAll(d) == ([], if d.stk != [] && d.stk[0].StkEOF? then D.EOF else d.err.value)
  {
  }

  // ---------- Errors ----------

  /** The next thing to read is in the input. */
  predicate ReadsInput(d: D.Decoder) {
    !Waits(d) && d.input != []
  }

  /** When Token fails: at a fence and at the end of the input between tokens with the end of the
      input; inside a token with a syntax error, or the error of the reader if it has another; on
      bad markup with a syntax error; and with a mismatch on an end tag that closes nothing or
      something else. The error stays, but for a fence. */
  lemma ErrorsExactly(d: D.Decoder)
    ensures var (d', r) := D.NextToken(d); var fenced := d.stk != [] && d.stk[0].StkEOF?;
            && (fenced ==> r == D.Err(D.EOF) && d' == d)
            && (!fenced && d.err.Some? ==> r == D.Err(d.err.value) && d' == d)
            && (!Waits(d) && d.input == [] ==> r == D.Err(d.tail))
            && (ReadsInput(d) && ReadRaw(d.tables, d.input).Ended? ==> r == D.Err(if d.tail == D.EOF then D.Malformed else d.tail))
            && (ReadsInput(d) && ReadRaw(d.tables, d.input).Syntax? ==> r == D.Err(D.Malformed))
            && (r.Err? && !fenced ==> d'.err == Some(r.error))
            && (r == D.Err(D.EOF) && !fenced && d.err.None? ==> d.input == [] && d.tail == D.EOF && d.pending == [])
    ensures d.err.None? && (ReadsInput(d) ==> ReadRaw(d.tables, d.input).Got?) && (Waits(d) || d.input != []) ==>
              D.NextToken(d).1.Ok? || D.NextToken(d).1 == D.Err(D.Mismatch) || (d.stk != [] && d.stk[0].StkEOF?)
  {
  }
}
