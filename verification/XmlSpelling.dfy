/** The bytes that the encoder writes for a token, and when rawToken reads them back. */
module XmlSpelling {
  import opened Utf8
  import opened XmlTypes
  import opened XmlNames
  import opened XmlRaw
  import X = XmlText

  // ---------- Spelling ----------

  function SpellAttr(a: Attr): Str {
    [SPACE] + (JoinName(a.name) + ([EQUALS] + ([X.QUOT] + (X.Escaped(a.value, true) + [X.QUOT]))))
  }

  function SpellAttrs(attrs: seq<Attr>): Str {
    if attrs == [] then [] else SpellAttr(attrs[0]) + SpellAttrs(attrs[1..])
  }

  function SpellData(d: Data): Str {
    match d
    case CharData(text) => X.Escaped(text, false)
    case Comment(text) => [X.LT, BANG, DASH, DASH] + (text + END_COMMENT)
    case ProcInst(target, inst) => [X.LT, QUESTION] + (target + ((if inst == [] then [] else [SPACE] + inst) + END_PROC_INST))
    case Directive(text) => [X.LT, BANG] + (text + [X.GT])
  }

  /** The names in the token are those that are written, with prefixes. */
  function Spell(w: Token): Str {
    match w
    case Start(name, attrs) => [X.LT] + (JoinName(name) + (SpellAttrs(attrs) + [X.GT]))
    case End(name) => [X.LT, SLASH] + (JoinName(name) + [X.GT])
    case Other(data) => SpellData(data)
  }

  function SpellAll(ws: seq<Token>): Str {
    if ws == [] then [] else Spell(ws[0]) + SpellAll(ws[1..])
  }

  lemma {:induction false} SpellAllSnoc(ws: seq<Token>, w: Token)
    ensures SpellAll(ws + [w]) == SpellAll(ws) + Spell(w)
  {
    if ws == [] {
      assert ([w])[1..] == [];
    } else {
      assert (ws + [w])[0] == ws[0] && (ws + [w])[1..] == ws[1..] + [w];
      SpellAllSnoc(ws[1..], w);
    }
  }

  lemma {:induction false} SpellAppend(a: seq<Attr>, b: seq<Attr>)
    ensures SpellAttrs(a + b) == SpellAttrs(a) + SpellAttrs(b)
  {
    if a == [] {
      assert a + b == b;
    } else {
      assert (a + b)[0] == a[0] && (a + b)[1..] == a[1..] + b;
      SpellAppend(a[1..], b);
      X.Regroup(SpellAttr(a[0]), SpellAttrs(a[1..]), SpellAttrs(b));
    }
  }

  /** What is read of the values: what XML has no room for is replaced. */
  function CleanAttrs(attrs: seq<Attr>): seq<Attr> {
    seq(|attrs|, i requires 0 <= i < |attrs| => Attr(attrs[i].name, X.Cleaned(attrs[i].value)))
  }

  function CleanValues(w: Token): Token {
    match w
    case Start(name, attrs) => Start(name, CleanAttrs(attrs))
    case End(_) => w
    case Other(_) => w
  }

  // ---------- Names ----------

  /** A byte that ends a name. */
  predicate Ends(rest: Str) {
    rest != [] && !X.IsNameByte(rest[0])
  }

  lemma {:induction false} RunIs(x: Str, rest: Str)
    requires Ends(rest)
    ensures X.NameRun(x + rest) <= |x|
    ensures X.NameRun(x + rest) == |x| <==> forall b | b in x :: X.IsNameByte(b)
  {
    if x == [] {
      assert x + rest == rest;
    } else {
      assert (x + rest)[1..] == x[1..] + rest;
      RunIs(x[1..], rest);
      assert x == [x[0]] + x[1..];
    }
  }

  /** A name is read back exactly when it is one; otherwise less is read, or nothing. */
  lemma NameReads(t: Tables, x: Str, rest: Str)
    requires Ends(rest)
    ensures ReadName(t, x + rest) == Got(x, rest) <==> IsName(t, x)
    ensures ReadName(t, x + rest).Got? ==> |ReadName(t, x + rest).value| <= |x| && (!IsName(t, x) ==> |ReadName(t, x + rest).value| < |x|)
  {
    var s := x + rest;
    RunIs(x, rest);
    assert s[..|x|] == x && s[|x|..] == rest;
    if IsName(t, x) {
      NameIsLater(t, x);
      LaterBytes(t, x);
    }
  }

  lemma SplitShortens(s: Str)
    ensures |JoinName(SplitName(s))| <= |s|
  {
  }

  /** So is a name with a prefix, if it splits where it was joined; otherwise another is read. */
  lemma NsNameReads(t: Tables, n: Name, rest: Str)
    requires Ends(rest)
    ensures ReadNsName(t, JoinName(n) + rest) == Got(n, rest) <==> IsWrittenName(t, n)
    ensures ReadNsName(t, JoinName(n) + rest).Got? && !IsWrittenName(t, n) ==> ReadNsName(t, JoinName(n) + rest).value != n
  {
    var x := JoinName(n);
    NameReads(t, x, rest);
    SplitJoinExactly(n);
    var r := ReadName(t, x + rest);
    if r.Got? {
      SplitShortens(r.value);
    }
  }

  /** From a piece of the name, another name is read. */
  lemma PieceReads(t: Tables, n: Name, y: Str, rest: Str)
    requires Ends(rest) && |y| < |JoinName(n)|
    ensures ReadNsName(t, y + rest).Got? ==> ReadNsName(t, y + rest).value != n
  {
    NameReads(t, y, rest);
    var r := ReadName(t, y + rest);
    if r.Got? {
      SplitShortens(r.value);
    }
  }

  // ---------- Attributes ----------

  /** An attribute after the space before it. */
  function AfterName(value: Str, rest: Str): Str {
    [EQUALS] + ([X.QUOT] + (X.Escaped(value, true) + ([X.QUOT] + rest)))
  }

  lemma ValueReads(value: Str, rest: Str)
    ensures ReadValue([X.QUOT] + (X.Escaped(value, true) + ([X.QUOT] + rest))) == Got(X.Cleaned(value), rest)
  {
    var s := X.Escaped(value, true) + ([X.QUOT] + rest);
    assert ([X.QUOT] + s)[1..] == s;
    X.QuotedReadsBack(value, true, X.QUOT, rest);
  }

  lemma AttrReads(t: Tables, a: Attr, rest: Str)
    ensures var r := ReadAttr(t, JoinName(a.name) + AfterName(a.value, rest));
            && (IsWrittenName(t, a.name) ==> r == Got(Attr(a.name, X.Cleaned(a.value)), rest))
            && (r.Got? && !IsWrittenName(t, a.name) ==> r.value.name != a.name)
  {
    hide IsName, X.Escaped, X.Cleaned;
    var s := AfterName(a.value, rest);
    NsNameReads(t, a.name, s);
    ValueReads(a.value, rest);
    assert SkipSpace(s) == s && s[1..] == [X.QUOT] + (X.Escaped(a.value, true) + ([X.QUOT] + rest)) && SkipSpace(s[1..]) == s[1..];
  }

  /** Spaces are only skipped at the front. */
  lemma {:induction false} SkipWithin(x: Str, rest: Str) returns (k: nat)
    requires rest != [] && !IsSpace(rest[0])
    ensures k <= |x| && SkipSpace(x + rest) == x[k..] + rest
    ensures k == 0 <==> x == [] || !IsSpace(x[0])
  {
    k := 0;
    if x == [] {
      assert x + rest == rest && x[0..] == x;
    } else if IsSpace(x[0]) {
      assert (x + rest)[1..] == x[1..] + rest;
      k := SkipWithin(x[1..], rest);
      assert x[1..][k..] == x[k + 1..];
      k := k + 1;
    } else {
      assert x[0..] == x;
    }
  }

  lemma SpellStep(attrs: seq<Attr>, end: Str)
    requires attrs != []
    ensures var a, more := attrs[0], SpellAttrs(attrs[1..]) + end;
            SpellAttrs(attrs) + end == [SPACE] + (JoinName(a.name) + AfterName(a.value, more))
  {
    var a, r := attrs[0], SpellAttrs(attrs[1..]);
    var x, v := JoinName(a.name), X.Escaped(a.value, true);
    calc {
      SpellAttr(a) + r + end;
      ([SPACE] + (x + ([EQUALS] + ([X.QUOT] + (v + [X.QUOT]))))) + (r + end);
      [SPACE] + (x + ([EQUALS] + ([X.QUOT] + (v + ([X.QUOT] + (r + end))))));
    }
  }

  lemma NameStarts(t: Tables, n: Name)
    requires IsWrittenName(t, n)
    ensures var x := JoinName(n); x != [] && X.IsNameByte(x[0])
  {
    NameIsLater(t, JoinName(n));
    LaterBytes(t, JoinName(n));
  }

  lemma AttrMisread(t: Tables, a: Attr, more: Str, k: nat)
    requires !IsWrittenName(t, a.name) && k <= |JoinName(a.name)|
    ensures var r := ReadAttr(t, JoinName(a.name)[k..] + AfterName(a.value, more)); r.Got? ==> r.value.name != a.name
  {
    if k == 0 {
      assert JoinName(a.name)[0..] == JoinName(a.name);
      AttrReads(t, a, more);
    } else {
      PieceReads(t, a.name, JoinName(a.name)[k..], AfterName(a.value, more));
    }
  }

  lemma FirstAttrReads(t: Tables, a: Attr, more: Str, s: Str)
    requires IsWrittenName(t, a.name) && s == [SPACE] + (JoinName(a.name) + AfterName(a.value, more))
    ensures var r := ReadAttrs(t, more);
            ReadAttrs(t, s) == if r.Got? then Got(([Attr(a.name, X.Cleaned(a.value))] + r.value.0, r.value.1), r.rest) else r
  {
    hide IsName, X.Escaped, X.Cleaned, ReadAttr, AfterName;
    var x, after := JoinName(a.name), AfterName(a.value, more);
    NameStarts(t, a.name);
    AttrReads(t, a, more);
    assert s[0] == SPACE && s[1..] == x + after && (x + after)[0] == x[0];
    assert SkipSpace(x + after) == x + after;
    assert SkipSpace(s) == x + after;
  }

  /** Attributes are read back exactly when all their names are. */
  lemma {:induction false} AttrsReadExactly(t: Tables, attrs: seq<Attr>, rest: Str)
    ensures ReadAttrs(t, SpellAttrs(attrs) + ([X.GT] + rest)) == Got((CleanAttrs(attrs), false), rest) <==>
              forall a | a in attrs :: IsWrittenName(t, a.name)
  {
    hide IsName, X.Escaped, X.Cleaned, ReadAttr, AfterName;
    var end := [X.GT] + rest;
    var s := SpellAttrs(attrs) + end;
    if attrs == [] {
      assert s == end && SkipSpace(end) == end && end[1..] == rest;
    } else {
      var a, more := attrs[0], SpellAttrs(attrs[1..]) + end;
      var x, after := JoinName(a.name), AfterName(a.value, more);
      SpellStep(attrs, end);
      AfterStarts(a.value, more);
      var k := SkipWithin(x, after);
      assert s[1..] == x + after && SkipSpace(s) == x[k..] + after;
      if IsWrittenName(t, a.name) {
        assert x[0..] == x;
        AttrsReadExactly(t, attrs[1..], rest);
        CleanStep(attrs);
        FirstAttrReads(t, a, more, s);
        if ReadAttrs(t, more).Got? {
          SameTail(CleanAttrs(attrs)[0], ReadAttrs(t, more).value.0, CleanAttrs(attrs[1..]));
        }
      } else {
        AttrMisread(t, a, more, k);
        assert CleanAttrs(attrs)[0].name == a.name;
      }
    }
  }

  lemma AfterStarts(value: Str, more: Str)
    ensures var s := AfterName(value, more); s != [] && s[0] == EQUALS
  {
  }

  lemma SameTail(a: Attr, x: seq<Attr>, y: seq<Attr>)
    ensures [a] + x == [a] + y <==> x == y
  {
    assert ([a] + x)[1..] == x && ([a] + y)[1..] == y;
  }

  lemma CleanStep(attrs: seq<Attr>)
    requires attrs != []
    ensures CleanAttrs(attrs) == [Attr(attrs[0].name, X.Cleaned(attrs[0].value))] + CleanAttrs(attrs[1..])
    ensures (forall a | a in attrs :: a == attrs[0] || a in attrs[1..]) && (forall a | a in attrs[1..] :: a in attrs)
  {
  }

  // ---------- Tags ----------

  predicate HasWrittenNames(t: Tables, w: Token) {
    match w
    case Start(name, attrs) => IsWrittenName(t, name) && forall a | a in attrs :: IsWrittenName(t, a.name)
    case End(name) => IsWrittenName(t, name)
    case Other(_) => true
  }

  lemma StartReads(t: Tables, name: Name, attrs: seq<Attr>, rest: Str)
    ensures ReadStart(t, JoinName(name) + (SpellAttrs(attrs) + ([X.GT] + rest))) == Got(Raw(Start(name, CleanAttrs(attrs)), false), rest) <==>
              HasWrittenNames(t, Start(name, attrs))
  {
    hide IsName, SpellAttr;
    var after := SpellAttrs(attrs) + ([X.GT] + rest);
    assert after[0] == if attrs == [] then X.GT else SPACE by {
      if attrs != [] {
        SpellStep(attrs, [X.GT] + rest);
      }
    }
    NsNameReads(t, name, after);
    AttrsReadExactly(t, attrs, rest);
  }

  lemma EndReads(t: Tables, name: Name, rest: Str)
    ensures ReadEnd(t, JoinName(name) + ([X.GT] + rest)) == Got(Raw(End(name), false), rest) <==> IsWrittenName(t, name)
  {
    hide IsName;
    NsNameReads(t, name, [X.GT] + rest);
    assert SkipSpace([X.GT] + rest) == [X.GT] + rest && ([X.GT] + rest)[1..] == rest;
  }

  /** A tag is read back, but for what its values have that XML has no room for, exactly when all
      its names are names that split where they were joined. */
  lemma TagReadsExactly(t: Tables, w: Token, rest: Str)
    requires !w.Other?
    ensures Spell(w) != [] && Spell(w)[0] == X.LT
    ensures ReadRaw(t, Spell(w) + rest) == Got(Raw(CleanValues(w), false), rest) <==> HasWrittenNames(t, w)
  {
    hide IsName, SpellAttrs, ReadAttrs, X.Escaped, X.Cleaned;
    match w
    case End(name) =>
      EndReads(t, name, rest);
      EndSpelled(name, rest);
    case Start(name, attrs) =>
      StartReads(t, name, attrs, rest);
      StartSpelled(name, attrs, rest);
      if IsWrittenName(t, name) {
        NameStarts(t, name);
      }
  }

  lemma EndSpelled(name: Name, rest: Str)
    ensures var s := Spell(End(name)) + rest;
            s[0] == X.LT && s[1] == SLASH && s[2..] == JoinName(name) + ([X.GT] + rest)
  {
  }

  lemma StartSpelled(name: Name, attrs: seq<Attr>, rest: Str)
    ensures var s := Spell(Start(name, attrs)) + rest;
            |s| > 1 && s[0] == X.LT && s[1..] == JoinName(name) + (SpellAttrs(attrs) + ([X.GT] + rest))
  {
    hide SpellAttrs, JoinName;
    TagBytes(JoinName(name), SpellAttrs(attrs), rest);
  }

  lemma TagBytes(x: Str, y: Str, rest: Str)
    ensures var s := [X.LT] + (x + (y + [X.GT])) + rest;
            |s| > 1 && s[0] == X.LT && s[1..] == x + (y + ([X.GT] + rest))
  {
  }

  // ---------- Texts ----------

  /** Texts that are written one after the other are read as one. */
  function EscapedAll(texts: seq<Str>): Str {
    if texts == [] then [] else X.Escaped(texts[0], false) + EscapedAll(texts[1..])
  }

  function CleanedAll(texts: seq<Str>): Str {
    if texts == [] then [] else X.Cleaned(texts[0]) + CleanedAll(texts[1..])
  }

  lemma {:induction false} TextsSnoc(texts: seq<Str>, x: Str)
    ensures EscapedAll(texts + [x]) == EscapedAll(texts) + X.Escaped(x, false)
    ensures CleanedAll(texts + [x]) == CleanedAll(texts) + X.Cleaned(x)
  {
    if texts == [] {
      assert [x][1..] == [];
    } else {
      assert (texts + [x])[0] == texts[0] && (texts + [x])[1..] == texts[1..] + [x];
      TextsSnoc(texts[1..], x);
      X.Regroup(X.Escaped(texts[0], false), EscapedAll(texts[1..]), X.Escaped(x, false));
      X.Regroup(X.Cleaned(texts[0]), CleanedAll(texts[1..]), X.Cleaned(x));
    }
  }

  lemma {:induction false} ScanTexts(texts: seq<Str>, t: Str, buf: Str, b0: Byte, b1: Byte) returns (c0: Byte, c1: Byte)
    requires b1 != X.CR
    ensures X.Scan(EscapedAll(texts) + t, buf, b0, b1, X.NO_QUOTE, false) == X.Scan(t, buf + CleanedAll(texts), c0, c1, X.NO_QUOTE, false)
    ensures c1 != X.CR
  {
    c0, c1 := b0, b1;
    if texts == [] {
      assert EscapedAll(texts) + t == t && buf + CleanedAll(texts) == buf;
    } else {
      var e, c := EscapedAll(texts[1..]), CleanedAll(texts[1..]);
      X.Regroup(X.Escaped(texts[0], false), e, t);
      X.Regroup(buf, X.Cleaned(texts[0]), c);
      var a0, a1 := X.ScanEscaped(texts[0], false, e + t, buf, b0, b1, X.NO_QUOTE);
      c0, c1 := ScanTexts(texts[1..], t, buf + X.Cleaned(texts[0]), a0, a1);
    }
  }

  lemma {:induction false} InRangeAppend(a: Str, b: Str)
    requires X.AllInRange(a) && X.AllInRange(b)
    ensures X.AllInRange(a + b)
    decreases |a|
  {
    if a == [] {
      assert a + b == b;
    } else {
      DecodeMore(a, b);
      assert (a + b)[Decode(a).1..] == a[Decode(a).1..] + b;
      InRangeAppend(a[Decode(a).1..], b);
    }
  }

  lemma {:induction false} TextsInRange(texts: seq<Str>)
    ensures X.AllInRange(CleanedAll(texts))
  {
    if texts != [] {
      X.CleanedInRange(texts[0]);
      TextsInRange(texts[1..]);
      InRangeAppend(X.Cleaned(texts[0]), CleanedAll(texts[1..]));
    }
  }

  /** Escaped text does not begin a tag, and is empty only if the text is. */
  lemma EscapedStarts(x: Str)
    ensures X.Escaped(x, false) == [] <==> x == []
    ensures X.Cleaned(x) == [] <==> x == []
    ensures x != [] ==> X.Escaped(x, false)[0] != X.LT
  {
    if x != [] {
      var (r, n) := Decode(x);
      if X.Escape(r, n, false).None? {
        X.CopiedRune(x, false, X.NO_QUOTE);
      }
    }
  }

  lemma {:induction false} TextsStart(texts: seq<Str>)
    ensures EscapedAll(texts) == [] <==> CleanedAll(texts) == []
    ensures EscapedAll(texts) != [] ==> EscapedAll(texts)[0] != X.LT
  {
    if texts != [] {
      EscapedStarts(texts[0]);
      TextsStart(texts[1..]);
    }
  }

  /** Up to the next markup or the end. */
  lemma TextsRead(t: Tables, texts: seq<Str>, rest: Str)
    requires EscapedAll(texts) != [] && (rest == [] || rest[0] == X.LT)
    ensures ReadRaw(t, EscapedAll(texts) + rest) == Got(Raw(Other(CharData(CleanedAll(texts))), false), rest)
  {
    TextsStart(texts);
    TextsInRange(texts);
    var c0, c1 := ScanTexts(texts, rest, [], 0, 0);
    assert [] + CleanedAll(texts) == CleanedAll(texts);
  }

  // ---------- Comments and instructions ----------

  /** The last byte of the mark stands only there. */
  predicate EndsOnce(mark: Str) {
    mark != [] && forall i | 0 <= i < |mark| - 1 :: mark[i] != mark[|mark| - 1]
  }

  /** A mark behind a text is the first, unless the text has one. */
  lemma MarkAfter(x: Str, mark: Str, rest: Str)
    requires EndsOnce(mark)
    ensures Find(x + (mark + rest), mark) <= |x| && (Find(x + (mark + rest), mark) == |x| <==> !Contains(x, mark))
  {
    var s, n := x + (mark + rest), |mark|;
    assert s[|x|..][..n] == mark;
    var i := Find(x, mark);
    if i < |x| {
      assert s[i..][..n] == x[i..][..n];
    } else {
      forall j | 0 <= j < |x| ensures !(mark <= s[j..]) {
        assert !(mark <= x[j..]);
        NoneOverlaps(x, mark, rest, j);
      }
      FindUnique(s, mark, |x|);
    }
  }

  lemma NoneOverlaps(x: Str, mark: Str, rest: Str, j: nat)
    requires EndsOnce(mark) && j < |x| && !(mark <= x[j..])
    ensures !(mark <= (x + (mark + rest))[j..])
  {
    var s, n := x + (mark + rest), |mark|;
    if j + n <= |x| {
      assert s[j..][..n] == x[j..][..n];
    } else {
      assert s[j..][n - 1] == mark[j + n - 1 - |x|];
    }
  }

  /** A comment is read back exactly when it does not contain the end of one. */
  lemma CommentReadsExactly(t: Tables, text: Str, rest: Str)
    ensures ReadRaw(t, SpellData(Comment(text)) + rest) == Got(Raw(Other(Comment(text)), false), rest) <==> !Contains(text, END_COMMENT)
  {
    hide Contains, ReadComment;
    CommentSpelled(text, rest);
    CommentBody(text, rest);
  }

  lemma CommentSpelled(text: Str, rest: Str)
    ensures var s, body := SpellData(Comment(text)) + rest, text + (END_COMMENT + rest);
            && |s| > 1 && s[0] == X.LT && s[1] == BANG
            && var c := s[2..]; |c| > 1 && c[0] == DASH && c[1] == DASH && c[2..] == body
  {
    var s, body := SpellData(Comment(text)) + rest, text + (END_COMMENT + rest);
    assert s == [X.LT, BANG, DASH, DASH] + body;
  }

  lemma CommentBody(text: Str, rest: Str)
    ensures ReadComment(text + (END_COMMENT + rest)) == Got(Raw(Other(Comment(text)), false), rest) <==> !Contains(text, END_COMMENT)
  {
    hide Find;
    var body := text + (END_COMMENT + rest);
    MarkAfter(text, END_COMMENT, rest);
    assert body[..|text|] == text && body[|text| + 3..] == rest;
    assert |body[..Find(body, END_COMMENT)]| == Find(body, END_COMMENT);
  }

  /** What can be read back of a processing instruction. */
  predicate ReadableInst(t: Tables, target: Str, inst: Str) {
    && IsName(t, target) && !Contains(inst, END_PROC_INST) && (inst != [] ==> !IsSpace(inst[0]))
    && (target == XML ==> DeclarationOk(inst))
  }

  lemma InstReads(inst: Str, rest: Str)
    ensures var s := SkipSpace((if inst == [] then [] else [SPACE] + inst) + (END_PROC_INST + rest));
            var i := Find(s, END_PROC_INST);
            && i < |s|
            && (s[..i] == inst <==> !Contains(inst, END_PROC_INST) && (inst != [] ==> !IsSpace(inst[0])))
            && (s[..i] == inst ==> s[i + 2..] == rest)
  {
    hide Find, Contains, SkipSpace;
    var k := InstSkipped(inst, END_PROC_INST + rest);
    InstFound(inst[k..], rest);
    assert inst[0..] == inst;
  }

  /** The space before the instruction is skipped, and those it begins with. */
  lemma InstSkipped(inst: Str, end: Str) returns (k: nat)
    requires end != [] && !IsSpace(end[0])
    ensures k <= |inst| && SkipSpace((if inst == [] then [] else [SPACE] + inst) + end) == inst[k..] + end
    ensures k == 0 <==> inst == [] || !IsSpace(inst[0])
  {
    k := SkipWithin(inst, end);
    if inst == [] {
      assert inst + end == end && [] + end == end;
    } else {
      assert ([SPACE] + inst + end)[1..] == inst + end;
    }
  }

  lemma InstFound(inst: Str, rest: Str)
    ensures var s := inst + (END_PROC_INST + rest);
            var i := Find(s, END_PROC_INST);
            && i <= |inst| && (s[..i] == inst <==> !Contains(inst, END_PROC_INST))
            && (s[..i] == inst ==> s[i + 2..] == rest)
  {
    hide Find, Contains;
    var s := inst + (END_PROC_INST + rest);
    MarkAfter(inst, END_PROC_INST, rest);
    assert s[..|inst|] == inst && s[|inst| + 2..] == rest;
    assert |s[..Find(s, END_PROC_INST)]| == Find(s, END_PROC_INST);
  }

  /** A processing instruction is read back exactly when its target is a name, its text does not
      begin with a space or contain its end, and an XML declaration says what it may. */
  lemma ProcInstReadsExactly(t: Tables, target: Str, inst: Str, rest: Str)
    ensures ReadRaw(t, SpellData(ProcInst(target, inst)) + rest) == Got(Raw(Other(ProcInst(target, inst)), false), rest) <==>
              ReadableInst(t, target, inst)
  {
    hide ReadProcInst, ReadableInst;
    InstSpelled(target, if inst == [] then [] else [SPACE] + inst, rest);
    InstBody(t, target, inst, rest);
  }

  lemma InstBody(t: Tables, target: Str, inst: Str, rest: Str)
    ensures var after := (if inst == [] then [] else [SPACE] + inst) + (END_PROC_INST + rest);
            ReadProcInst(t, target + after) == Got(Raw(Other(ProcInst(target, inst)), false), rest) <==> ReadableInst(t, target, inst)
  {
    hide IsName, DeclarationOk, Find, Contains, SkipSpace;
    var after := (if inst == [] then [] else [SPACE] + inst) + (END_PROC_INST + rest);
    assert after[0] == if inst == [] then QUESTION else SPACE;
    NameReads(t, target, after);
    InstReads(inst, rest);
  }

  lemma InstSpelled(target: Str, tail: Str, rest: Str)
    ensures var s := [X.LT, QUESTION] + (target + (tail + END_PROC_INST)) + rest;
            s[0] == X.LT && s[1] == QUESTION && s[2..] == target + (tail + (END_PROC_INST + rest))
  {
  }

  /** The loop over a directive goes through all of it, and would end behind it: it meets no comment
      outside quotes, and quotes and brackets match. */
  predicate Whole(x: Str, quote: Byte, depth: nat)
    decreases |x|
  {
    if x == [] then quote == 0 && depth == 0
    else
      && !EndsDirective(x, quote, depth) && !CommentNext(x, quote)
      && Whole(x[1..], QuoteAfter(x[0], quote), DepthAfter(x[0], quote, depth))
  }

  /** The first byte of a directive does not count, but must not be that of a comment or CDATA. */
  predicate WholeDirective(text: Str) {
    text != [] && text[0] != DASH && text[0] != OPEN_BRACKET && Whole(text[1..], 0, 0)
  }

  /** Dropping a comment loses bytes. */
  lemma {:induction false} DirectingLength(s: Str, buf: Str, quote: Byte, depth: nat)
    ensures var r := Directing(s, buf, quote, depth); r.Got? ==> |r.value| + |r.rest| + 1 <= |buf| + |s|
    ensures CommentNext(s, quote) ==>
              var r := Directing(s, buf, quote, depth); r.Got? ==> |r.value| + |r.rest| + 1 < |buf| + |s|
    decreases |s|
  {
    hide Directing, Find;
    DirectingEnds(s, buf, quote, depth);
    if CommentNext(s, quote) {
      var i := Find(s[1..][3..], END_COMMENT);
      if i < |s| - 4 {
        DirectingLength(s[1..][3..][i + 3..], buf, quote, depth);
      }
    } else if s != [] && !EndsDirective(s, quote, depth) {
      DirectingStep(s, buf, quote, depth);
      DirectingLength(s[1..], buf + [s[0]], QuoteAfter(s[0], quote), DepthAfter(s[0], quote, depth));
    }
  }

  /** A comment is not begun by the bytes behind the directive. */
  lemma CommentWithin(x: Str, rest: Str, quote: Byte)
    requires x != []
    ensures CommentNext(x + ([X.GT] + rest), quote) <==> CommentNext(x, quote)
  {
    var y, z := x[1..], x[1..] + ([X.GT] + rest);
    assert (x + ([X.GT] + rest))[1..] == z && z[|y|] == X.GT;
    BeginsWithComment(y);
    BeginsWithComment(z);
  }

  lemma BeginsWithComment(y: Str)
    ensures BEGIN_COMMENT <= y <==> |y| >= 3 && y[0] == BANG && y[1] == DASH && y[2] == DASH
  {
    assert |y| >= 3 ==> y[..3] == [y[0], y[1], y[2]];
  }

  lemma {:induction false} DirectingExactly(x: Str, buf: Str, rest: Str, quote: Byte, depth: nat)
    ensures Directing(x + ([X.GT] + rest), buf, quote, depth) == Got(buf + x, rest) <==> Whole(x, quote, depth)
    decreases |x|
  {
    hide Directing, QuoteAfter, DepthAfter;
    var s := x + ([X.GT] + rest);
    DirectingEnds(s, buf, quote, depth);
    if x == [] {
      assert s == [X.GT] + rest && s[1..] == rest && buf + x == buf;
      if !EndsDirective(s, quote, depth) {
        DirectingStep(s, buf, quote, depth);
        DirectingLength(s[1..], buf + [s[0]], QuoteAfter(s[0], quote), DepthAfter(s[0], quote, depth));
      }
    } else {
      CommentWithin(x, rest, quote);
      DirectingLength(s, buf, quote, depth);
      if !EndsDirective(s, quote, depth) && !CommentNext(s, quote) {
        DirectingStep(s, buf, quote, depth);
        assert s[1..] == x[1..] + ([X.GT] + rest) && buf + [x[0]] + x[1..] == buf + x;
        DirectingExactly(x[1..], buf + [x[0]], rest, QuoteAfter(x[0], quote), DepthAfter(x[0], quote, depth));
      }
    }
  }

  /** A directive is read back exactly when the loop goes through all of it, and it does not look
      like a comment or CDATA. */
  lemma DirectiveReadsExactly(t: Tables, text: Str, rest: Str)
    ensures ReadRaw(t, SpellData(Directive(text)) + rest) == Got(Raw(Other(Directive(text)), false), rest) <==> WholeDirective(text)
  {
    hide Directing, Whole, ReadComment, ReadCData;
    var s := SpellData(Directive(text)) + rest;
    assert s[2..] == text + ([X.GT] + rest);
    if text == [] {
      assert s[2..] == [X.GT] + rest;
      DirectingKeeps(s[2..][1..], [X.GT], 0, 0);
    } else {
      assert s[2..][1..] == text[1..] + ([X.GT] + rest) && [text[0]] + text[1..] == text;
      DirectingExactly(text[1..], [text[0]], rest, 0, 0);
      if (text[0] == DASH || text[0] == OPEN_BRACKET) && ReadDeclaration(s[2..]).Got? {
        CommentsAreNone(s[2..]);
      }
    }
  }

  lemma {:induction false} DirectingKeeps(s: Str, buf: Str, quote: Byte, depth: nat)
    ensures var r := Directing(s, buf, quote, depth); r.Got? ==> |r.value| >= |buf|
    decreases |s|
  {
    hide Directing, Find;
    DirectingEnds(s, buf, quote, depth);
    if CommentNext(s, quote) {
      var i := Find(s[1..][3..], END_COMMENT);
      if i < |s| - 4 {
        DirectingKeeps(s[1..][3..][i + 3..], buf, quote, depth);
      }
    } else if s != [] && !EndsDirective(s, quote, depth) {
      DirectingStep(s, buf, quote, depth);
      DirectingKeeps(s[1..], buf + [s[0]], QuoteAfter(s[0], quote), DepthAfter(s[0], quote, depth));
    }
  }

  /** Comments and CDATA are not read as directives. */
  lemma CommentsAreNone(s: Str)
    requires s != [] && (s[0] == DASH || s[0] == OPEN_BRACKET) && ReadDeclaration(s).Got?
    ensures var w := ReadDeclaration(s).value.token; w.Other? && !w.data.Directive?
  {
  }
}
