/** Tokens that the encoder accepts and the decoder does not give back as they were. */
module XmlLosses {
  import opened Utf8
  import opened XmlTypes
  import opened XmlNames
  import opened XmlRaw
  import opened XmlSpelling
  import opened XmlPrinter
  import opened XmlNesting
  import opened XmlRoundTrip
  import D = XmlDecoder
  import X = XmlText

  const U: Str := [0x75]

  /** What a fresh decoder reads first. */
  function FirstRead(t: Tables, bytes: Str): D.Result<Token> {
    D.NextToken(D.Start(bytes, D.EOF, t)).1
  }

  /** A fresh decoder reads the start of this element first. */
  predicate ReadsElement(t: Tables, bytes: Str, name: Name) {
    var r := FirstRead(t, bytes);
    r.Ok? && r.value.Start? && r.value.name == name
  }

  /** The bytes of a tag that has written names, read by a fresh decoder. */
  lemma TagFirst(t: Tables, w: Token)
    requires w.Start? && HasWrittenNames(t, w)
    ensures var d := D.Start([], D.EOF, t);
            FirstRead(t, Spell(w)) == D.Ok(D.StartElement(d, w.name, CleanAttrs(w.attrs)).1)
  {
    hide ReadRaw, Spell, HasWrittenNames;
    TagReadsExactly(t, w, []);
    assert Spell(w) + [] == Spell(w);
    RawThen(D.Start(Spell(w), D.EOF, t), CleanValues(w), []);
  }

  lemma LetterStays(b: Byte)
    requires 0x61 <= b <= 0x7A
    ensures X.Cleaned([b]) == [b]
  {
    assert Decode([b]) == (b as int, 1) && [b][1..] == [] && [b][..1] == [b];
  }

  /** A start tag for the name space u that declares a prefix for it, or the default. */
  lemma DeclaredAndWritten(t: Tables, local: Str, prefix: Str)
    requires local != [] && prefix != XMLNS
    ensures var a := Attr(if prefix == [] then Name([], XMLNS) else Name(XMLNS, prefix), U);
            EncodeToken(EMPTY, Start(Name(U, local), [a]), t, false).1 == Ok(Start(Name(prefix, local), [a]))
  {
    var a := Attr(if prefix == [] then Name([], XMLNS) else Name(XMLNS, prefix), U);
    var p1 := MarkPrefix(EMPTY.(tags := EMPTY.tags + [Name(U, local)]));
    var p2 := PushPrefix(p1, prefix, U);
    XmlUrl();
    assert DefineNS(p1, a, false) == Ok(p2);
    assert [a][1..] == [];
    assert DefineAll(p1, [a], false) == (p2, true);
    assert CreateAll(p2, [a], t) == p2;
    assert CreateNSPrefix(p2, U, false, t) == p2;
    assert Declarations(p2.spaces, p2.prefixes) == [a] by {
      assert p2.prefixes[..1] == [MARK];
    }
    assert Plain([a]) == [];
  }

  /** <xmlns xmlns="u"> is read as an element without a name space. */
  lemma XmlnsElementIsLost(t: Tables)
    ensures var (_, w) := EncodeToken(EMPTY, Start(Name(U, XMLNS), [Attr(Name([], XMLNS), U)]), t, false);
            w.Ok? && ReadsElement(t, Spell(w.value), Name([], XMLNS))
  {
    hide Spell, EncodeToken;
    DeclaredAndWritten(t, XMLNS, []);
    XmlAreNames(t);
    TagFirst(t, Start(Name([], XMLNS), [Attr(Name([], XMLNS), U)]));
  }

  /** The element a in the name space u, which has been given the prefix xml, is read as one in the
      XML name space. */
  lemma XmlPrefixIsLost(t: Tables)
    ensures var (_, w) := EncodeToken(EMPTY, Start(Name(U, [0x61]), [Attr(Name(XMLNS, XML), U)]), t, false);
            w.Ok? && ReadsElement(t, Spell(w.value), Name(XML_URL, [0x61]))
  {
    hide Spell, EncodeToken, ReadsElement;
    DeclaredAndWritten(t, [0x61], XML);
    XmlPrefixRead(t, Attr(Name(XMLNS, XML), U));
  }

  lemma XmlPrefixRead(t: Tables, a: Attr)
    requires a == Attr(Name(XMLNS, XML), U)
    ensures ReadsElement(t, Spell(Start(Name(XML, [0x61]), [a])), Name(XML_URL, [0x61]))
  {
    hide IsName, Spell;
    var w := Start(Name(XML, [0x61]), [a]);
    XmlAreNames(t);
    LetterIsName(t, 0x61);
    JoinNcNames(t, w.name);
    JoinNcNames(t, a.name);
    TagFirst(t, w);
    LetterStays(0x75);
    XmlUrl();
    var attrs := CleanAttrs([a]);
    assert attrs == [a] && attrs[1..] == [];
    assert D.Declares(a) && D.DeclaredPrefix(a) == XML;
    var none: map<Str, Str> := map[];
    assert D.DeclareAll([], none, attrs).1 == D.DeclareAll(D.PushNs([], none, XML), none[XML := U], []).1 == none[XML := U];
  }

  /** A start tag that is refused for what it declares is not written, but its end tag then is. */
  lemma RefusedStartIsClosed(t: Tables)
    ensures var token := Start(Name([], [0x61]), [Attr(Name([0x75], XMLNS), [])]);
            var (p, w) := EncodeToken(EMPTY, token, t, false);
            w.Err? && EncodeToken(p, End(token.name), t, false).1 == Ok(End(token.name))
  {
    var a := Attr(Name([0x75], XMLNS), []);
    var n := Name([], [0x61]);
    var p1 := MarkPrefix(EMPTY.(tags := EMPTY.tags + [n]));
    XmlUrl();
    assert [0x75] != XML && [0x75] != XML_URL;
    assert DefineNS(p1, a, true) == Err;
    assert EncodeToken(EMPTY, Start(n, [a]), t, false) == (p1, Err);
    assert p1.tags == [n] && WrittenName(p1.spaces, n, false) == n;
  }

  const AB: Str := [0x61, COLON, 0x62]

  lemma ColonNames(t: Tables)
    ensures IsName(t, AB) && AB[..1] == [0x61] && AB[2..] == [0x62]
  {
    LetterIsName(t, 0x61);
    LetterIsName(t, 0x62);
    JoinNcNames(t, Name([0x61], [0x62]));
    assert JoinName(Name([0x61], [0x62])) == AB;
  }

  /** A start tag without name space and attributes. */
  lemma BareWritten(t: Tables, local: Str)
    requires local != []
    ensures EncodeToken(EMPTY, Start(Name([], local), []), t, false).1 == Ok(Start(Name([], local), []))
  {
    var p1 := MarkPrefix(EMPTY.(tags := EMPTY.tags + [Name([], local)]));
    XmlUrl();
    assert CreateNSPrefix(p1, [], false, t) == p1;
    assert DefineAll(p1, [], true) == (p1, true) && CreateAll(p1, [], t) == p1;
    assert Declarations(p1.spaces, p1.prefixes) == [] && WrittenAttrs(p1.spaces, Plain([])) == [];
    assert WrittenName(p1.spaces, Name([], local), false) == Name([], local);
    var decls, written := Declarations(p1.spaces, p1.prefixes), WrittenAttrs(p1.spaces, Plain([]));
    assert decls + written == [];
    assert EncodeToken(EMPTY, Start(Name([], local), []), t, false).1 == Ok(Start(Name([], local), decls + written));
  }

  /** The element a:b without a name space is read as b with the prefix a. */
  lemma ColonIsLost(t: Tables)
    ensures var (_, w) := EncodeToken(EMPTY, Start(Name([], AB), []), t, false);
            w.Ok? && ReadsElement(t, Spell(w.value), Name([0x61], [0x62]))
  {
    hide EncodeToken, Spell, ReadsElement;
    BareWritten(t, AB);
    ColonRead(t);
  }

  /** An element whose name has a space in it is not read as one with that name. */
  lemma SpaceIsLost(t: Tables, rest: Str)
    ensures var name := Name([], [0x61, SPACE, 0x62]);
            var (_, w) := EncodeToken(EMPTY, Start(name, []), t, false);
            w.Ok? && ReadRaw(t, Spell(w.value) + rest) != Got(Raw(Start(name, []), false), rest)
  {
    hide EncodeToken, Spell, ReadRaw;
    var local := [0x61, SPACE, 0x62];
    BareWritten(t, local);
    TagReadsExactly(t, Start(Name([], local), []), rest);
    assert CleanAttrs([]) == [];
    assert !IsName(t, local) by {
      assert Decode(local) == (0x61, 1) && local[1..] == [SPACE, 0x62] && Decode(local[1..]) == (0x20, 1);
    }
  }

  lemma ColonRead(t: Tables)
    ensures ReadsElement(t, Spell(Start(Name([], AB), [])), Name([0x61], [0x62]))
  {
    hide IsName;
    var w := Start(Name([0x61], [0x62]), []);
    ColonNames(t);
    assert JoinName(w.name) == AB;
    assert Spell(w) == Spell(Start(Name([], AB), []));
    TagFirst(t, w);
  }

  /** The prefix a:b, declared for u and used for the element c, is read as the prefix a, which
      nothing declares. */
  lemma ColonInPrefixIsLost(t: Tables)
    ensures var (_, w) := EncodeToken(EMPTY, Start(Name(U, [0x63]), [Attr(Name(XMLNS, AB), U)]), t, false);
            w.Ok? && ReadsElement(t, Spell(w.value), Name([0x61], [0x62, COLON, 0x63]))
  {
    hide EncodeToken, ReadsElement, Spell;
    XmlUrl();
    assert AB[0] == 0x61 && XML[0] == 0x78 && XMLNS[0] == 0x78;
    DeclaredAndWritten(t, [0x63], AB);
    ColonPrefixRead(t, Attr(Name(XMLNS, AB), U));
  }

  lemma ColonPrefixRead(t: Tables, a: Attr)
    requires a == Attr(Name(XMLNS, AB), U)
    ensures ReadsElement(t, Spell(Start(Name(AB, [0x63]), [a])), Name([0x61], [0x62, COLON, 0x63]))
  {
    hide IsName;
    var n := Name([0x61], [0x62, COLON, 0x63]);
    var w := Start(n, [a]);
    PrefixNames(t, n);
    assert JoinName(n) == JoinName(Name(AB, [0x63])) == [0x61, COLON, 0x62, COLON, 0x63];
    assert Spell(w) == Spell(Start(Name(AB, [0x63]), [a]));
    TagFirst(t, w);
    LetterStays(0x75);
    var attrs := CleanAttrs([a]);
    assert attrs == [a] && attrs[1..] == [];
    assert D.Declares(a) && D.DeclaredPrefix(a) == AB;
    var none: map<Str, Str> := map[];
    assert D.DeclareAll([], none, attrs).1 == D.DeclareAll(D.PushNs([], none, AB), none[AB := U], []).1 == none[AB := U];
    assert [0x61] != AB && [0x61] != XML;
  }

  lemma PrefixNames(t: Tables, n: Name)
    requires n == Name([0x61], [0x62, COLON, 0x63])
    ensures IsWrittenName(t, n) && IsWrittenName(t, Name(XMLNS, AB))
  {
    hide IsName;
    ColonNames(t);
    LetterIsName(t, 0x63);
    LaterOne(t, COLON);
    NameIsLater(t, [0x63]);
    LaterAppend(t, [COLON], [0x63]);
    NameAppend(t, AB, [COLON] + [0x63]);
    assert JoinName(n) == AB + ([COLON] + [0x63]);
    XmlAreNames(t);
    NameIsLater(t, AB);
    LaterAppend(t, [COLON], AB);
    NameAppend(t, XMLNS, [COLON] + AB);
    assert JoinName(Name(XMLNS, AB)) == XMLNS + ([COLON] + AB);
  }

  /** Texts next to each other come back as one, and an empty one not at all. */
  lemma TextsAreJoined(x: Str, y: Str)
    requires x != [] && X.AllInRange(x) && X.AllInRange(y)
    ensures AllAsRead([], [Other(CharData(x)), Other(CharData([])), Other(CharData(y))]) == [Other(CharData(x + y))]
  {
    hide X.Cleaned, X.AllInRange, TextAsRead;
    var none: seq<Str> := [];
    var empty: Str := [];
    var ts := [Other(CharData(x)), Other(CharData(empty)), Other(CharData(y))];
    assert ts[1..][1..][1..] == [];
    assert none + [x] == [x] && [x] + [empty] == [x, empty] && [x, empty] + [y] == [x, empty, y];
    assert AllAsRead([x, empty], ts[1..][1..]) == AllAsRead([x, empty, y], []);
    assert AllAsRead([x], ts[1..]) == AllAsRead([x, empty], ts[1..][1..]);
    assert AllAsRead(none, ts) == AllAsRead([x], ts[1..]);
    ThreeTexts(x, y);
  }

  lemma ThreeTexts(x: Str, y: Str)
    requires x != [] && X.AllInRange(x) && X.AllInRange(y)
    ensures TextAsRead([x, [], y]) == [Other(CharData(x + y))]
  {
    hide X.Cleaned, X.AllInRange;
    var empty: Str := [];
    OneText(x);
    TextsSnoc([x], empty);
    TextsSnoc([x, empty], y);
    assert [x] + [empty] == [x, empty] && [x, empty] + [y] == [x, empty, y];
    CleanedExactly(x);
    CleanedExactly(y);
    EscapedStarts(empty);
    assert x + empty == x;
  }

  /** A control character comes back as the replacement rune. */
  lemma ControlIsReplaced()
    ensures AllAsRead([], [Other(CharData([1]))]) == [Other(CharData(BAD))]
  {
    hide X.Cleaned, TextAsRead;
    var none: seq<Str> := [];
    var one: Str := [1];
    var ts := [Other(CharData(one))];
    assert none + [one] == [one] && ts[1..] == [];
    assert AllAsRead(none, ts) == AllAsRead([one], []);
    OneText(one);
    ControlCleaned(one);
    OneTextRead(one);
  }

  lemma ControlCleaned(one: Str)
    requires one == [1]
    ensures X.Cleaned(one) == BAD
  {
    assert Decode(one) == (1, 1) && one[1..] == [] && BAD + [] == BAD;
  }

  lemma OneTextRead(x: Str)
    requires X.Cleaned(x) != [] && CleanedAll([x]) == X.Cleaned(x)
    ensures TextAsRead([x]) == [Other(CharData(X.Cleaned(x)))]
  {
  }

  /** The encoder accepts a directive with a comment in it, which the decoder drops. */
  lemma CommentInDirectiveIsLost()
    ensures var text := [0x61] + COMMENT + END_COMMENT; ValidFrom(text, 0, 0, 0, false) && !WholeDirective(text)
  {
    var text: Str := [0x61, X.LT, BANG, DASH, DASH, DASH, DASH, X.GT];
    assert text == [0x61] + COMMENT + END_COMMENT;
    assert text[1..5] == COMMENT && text[5..8] == END_COMMENT;
    CommentIsValid(text);
    assert CommentNext(text[1..], 0) by {
      assert text[1..][1..][..3] == BEGIN_COMMENT;
    }
  }

  lemma CommentIsValid(text: Str)
    requires text == [0x61, X.LT, BANG, DASH, DASH, DASH, DASH, X.GT]
    ensures ValidFrom(text, 0, 0, 0, false)
  {
    assert text[1..5] == COMMENT && text[5..8] == END_COMMENT;
    assert ValidFrom(text, 8, 0, 0, false);
    assert ValidFrom(text, 7, 0, 0, true);
    assert ValidFrom(text, 6, 0, 0, true);
    assert ValidFrom(text, 5, 0, 0, true);
    assert ValidFrom(text, 4, 0, 0, true);
    assert ValidFrom(text, 3, 0, 0, true);
    assert ValidFrom(text, 2, 0, 0, true);
    assert ValidFrom(text, 1, 0, 0, false);
  }
}
