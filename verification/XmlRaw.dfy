/** rawToken: the next token in the bytes of a document, as a strict decoder reads it. Names are
    split at their colon, but not translated. */
module XmlRaw {
  import opened Utf8
  import opened XmlTypes
  import opened XmlNames
  import X = XmlText

  const BANG: Byte := 0x21
  const QUESTION: Byte := 0x3F
  const DASH: Byte := 0x2D
  const EQUALS: Byte := 0x3D
  const OPEN_BRACKET: Byte := 0x5B
  const SPACE: Byte := 0x20

  /** The ends of comments and processing instructions. */
  const END_COMMENT: Str := [DASH, DASH, X.GT]
  const END_PROC_INST: Str := [QUESTION, X.GT]

  /** What has been read and the bytes that follow; or bytes that do not fit; or there are none. */
  datatype Got<T> = Got(value: T, rest: Str) | Syntax | Ended

  /** A token; an empty-element tag is read as a start, and its end is made up next. */
  datatype Raw = Raw(token: Token, empty: bool)

  // ---------- Pieces ----------

  predicate IsSpace(b: Byte) {
    b == SPACE || b == X.CR || b == X.NL || b == X.TAB
  }

  function SkipSpace(s: Str): (r: Str)
    ensures |r| <= |s| && (r != [] ==> !IsSpace(r[0]))
  {
    if s != [] && IsSpace(s[0]) then SkipSpace(s[1..]) else s
  }

  function ReadName(t: Tables, s: Str): (r: Got<Str>)
    ensures r.Got? ==> |r.rest| < |s|
  {
    var n := X.NameRun(s);
    if n == |s| then Ended
    else if n == 0 || !IsName(t, s[..n]) then Syntax
    else Got(s[..n], s[n..])
  }

  function ReadNsName(t: Tables, s: Str): (r: Got<Name>)
    ensures r.Got? ==> |r.rest| < |s|
  {
    match ReadName(t, s)
    case Got(name, rest) => Got(SplitName(name), rest)
    case Syntax => Syntax
    case Ended => Ended
  }

  function FromText(r: X.Scanned): Got<Str> {
    match r
    case Scanned(data, rest) => Got(data, rest)
    case BadText => Syntax
    case CutText => Ended
  }

  /** attrval: a strict decoder wants quotes. */
  function ReadValue(s: Str): (r: Got<Str>)
    ensures r.Got? ==> |r.rest| < |s|
  {
    if s == [] then Ended
    else if s[0] == X.QUOT || s[0] == X.APOS then FromText(X.TextOf(s[1..], s[0], false))
    else Syntax
  }

  // ---------- Tags ----------

  function ReadAttr(t: Tables, s: Str): (r: Got<Attr>)
    ensures r.Got? ==> |r.rest| < |s|
  {
    match ReadNsName(t, s)
    case Syntax => Syntax
    case Ended => Ended
    case Got(name, rest) =>
      var s' := SkipSpace(rest);
      if s' == [] then Ended
      else if s'[0] != EQUALS then Syntax
      else
        match ReadValue(SkipSpace(s'[1..]))
        case Syntax => Syntax
        case Ended => Ended
        case Got(value, rest') => Got(Attr(name, value), rest')
  }

  /** The attributes up to the end of the tag, and whether it closes itself. */
  function ReadAttrs(t: Tables, s: Str): (r: Got<(seq<Attr>, bool)>)
    ensures r.Got? ==> |r.rest| < |s|
    decreases |s|
  {
    var s' := SkipSpace(s);
    if s' == [] || s' == [SLASH] then Ended
    else if s'[0] == SLASH then (if s'[1] == X.GT then Got(([], true), s'[2..]) else Syntax)
    else if s'[0] == X.GT then Got(([], false), s'[1..])
    else
      match ReadAttr(t, s')
      case Syntax => Syntax
      case Ended => Ended
      case Got(a, rest) =>
        match ReadAttrs(t, rest)
        case Syntax => Syntax
        case Ended => Ended
        case Got((attrs, empty), rest') => Got(([a] + attrs, empty), rest')
  }

  function ReadStart(t: Tables, s: Str): (r: Got<Raw>)
    ensures r.Got? ==> |r.rest| < |s|
  {
    match ReadNsName(t, s)
    case Syntax => Syntax
    case Ended => Ended
    case Got(name, rest) =>
      match ReadAttrs(t, rest)
      case Syntax => Syntax
      case Ended => Ended
      case Got((attrs, empty), rest') => Got(Raw(Start(name, attrs), empty), rest')
  }

  function ReadEnd(t: Tables, s: Str): (r: Got<Raw>)
    ensures r.Got? ==> |r.rest| < |s|
  {
    match ReadNsName(t, s)
    case Syntax => Syntax
    case Ended => Ended
    case Got(name, rest) =>
      var s' := SkipSpace(rest);
      if s' == [] then Ended else if s'[0] != X.GT then Syntax else Got(Raw(End(name), false), s'[1..])
  }

  // ---------- What ends with a mark ----------

  /** Where the mark is first; the length if it is nowhere. */
  function Find(s: Str, mark: Str): (i: nat)
    requires mark != []
    ensures i <= |s| && (i < |s| ==> i + |mark| <= |s| && mark <= s[i..])
    ensures forall j | 0 <= j < i :: !(mark <= s[j..])
  {
    if s == [] || mark <= s then 0
    else
      var i := Find(s[1..], mark);
      assert forall j | 0 < j <= |s| :: s[1..][j - 1..] == s[j..];
      i + 1
  }

  predicate Contains(s: Str, mark: Str)
    requires mark != []
  {
    Find(s, mark) < |s|
  }

  lemma FindUnique(s: Str, mark: Str, i: nat)
    requires mark != [] && i <= |s| && (i < |s| ==> mark <= s[i..]) && forall j | 0 <= j < i :: !(mark <= s[j..])
    ensures Find(s, mark) == i
  {
  }

  function ReadComment(s: Str): (r: Got<Raw>)
    ensures r.Got? ==> |r.rest| < |s|
  {
    var i := Find(s, END_COMMENT);
    if i == |s| then Ended else Got(Raw(Other(Comment(s[..i])), false), s[i + 3..])
  }

  /** The value that procInst finds for a parameter; empty if there is none. */
  function ProcParam(param: Str, s: Str): Str {
    var i := Find(s, param + [EQUALS]);
    if i == |s| then []
    else
      var v := s[i + |param| + 1..];
      if v == [] || (v[0] != X.QUOT && v[0] != X.APOS) then []
      else
        var j := Find(v[1..], [v[0]]);
        if j == |v| - 1 then [] else v[1..j + 1]
  }

  const VERSION: Str := Bytes("version")
  const ENCODING: Str := Bytes("encoding")
  const VERSIONS: seq<Str> := [[], Bytes("1.0")]
  const ENCODINGS: seq<Str> := [[], Bytes("utf-8"), Bytes("UTF-8")]

  /** What the XML declaration may say, when there is no reader for other character sets. */
  predicate DeclarationOk(content: Str) {
    ProcParam(VERSION, content) in VERSIONS && ProcParam(ENCODING, content) in ENCODINGS
  }

  function ReadProcInst(t: Tables, s: Str): (r: Got<Raw>)
    ensures r.Got? ==> |r.rest| < |s|
  {
    match ReadName(t, s)
    case Syntax => Syntax
    case Ended => Ended
    case Got(target, rest) =>
      var s' := SkipSpace(rest);
      var i := Find(s', END_PROC_INST);
      if i == |s'| then Ended
      else if target == XML && !DeclarationOk(s'[..i]) then Syntax
      else Got(Raw(Other(ProcInst(target, s'[..i])), false), s'[i + 2..])
  }

  /** What comes after the `<` of a comment. */
  const BEGIN_COMMENT: Str := [BANG, DASH, DASH]

  /** The loop over a directive: `quote` is the open quote or 0. Comments in it are dropped. */
  function Directing(s: Str, buf: Str, quote: Byte, depth: nat): (r: Got<Str>)
    ensures r.Got? ==> |r.rest| < |s|
    decreases |s|
  {
    if s == [] then Ended
    else
      var b, rest := s[0], s[1..];
      if quote != 0 then Directing(rest, buf + [b], if b == quote then 0 else quote, depth)
      else if b == X.GT then (if depth == 0 then Got(buf, rest) else Directing(rest, buf + [b], 0, depth - 1))
      else if b == X.QUOT || b == X.APOS then Directing(rest, buf + [b], b, depth)
      else if b == X.LT && BEGIN_COMMENT <= rest then
        var i := Find(rest[3..], END_COMMENT);
        if i == |rest| - 3 then Ended else Directing(rest[3..][i + 3..], buf, 0, depth)
      else Directing(rest, buf + [b], 0, if b == X.LT then depth + 1 else depth)
  }

  /** CDATA and its bracket. */
  const CDATA: Str := [0x43, 0x44, 0x41, 0x54, 0x41, OPEN_BRACKET]

  function AsData(r: Got<Str>): Got<Raw> {
    match r
    case Got(text, rest) => Got(Raw(Other(CharData(text)), false), rest)
    case Syntax => Syntax
    case Ended => Ended
  }

  function ReadCData(s: Str): (r: Got<Raw>)
    ensures r.Got? ==> |r.rest| <= |s|
  {
    if CDATA <= s then AsData(FromText(X.TextOf(s[6..], X.NO_QUOTE, true)))
    else if s < CDATA then Ended
    else Syntax
  }

  /** After `<!`. The first byte of a directive does not count for quotes and nesting. */
  function ReadDeclaration(s: Str): (r: Got<Raw>)
    ensures r.Got? ==> |r.rest| < |s|
  {
    if s == [] then Ended
    else if s[0] == DASH then
      if |s| == 1 then Ended else if s[1] != DASH then Syntax else ReadComment(s[2..])
    else if s[0] == OPEN_BRACKET then ReadCData(s[1..])
    else
      match Directing(s[1..], [s[0]], 0, 0)
      case Got(text, rest) => Got(Raw(Other(Directive(text)), false), rest)
      case Syntax => Syntax
      case Ended => Ended
  }

  lemma TextShortens(s: Str)
    requires s != [] && s[0] != X.LT && X.TextOf(s, X.NO_QUOTE, false).Scanned?
    ensures |X.TextOf(s, X.NO_QUOTE, false).rest| < |s|
  {
  }

  /** The token at the front of the bytes. */
  function ReadRaw(t: Tables, s: Str): (r: Got<Raw>)
    requires s != []
    ensures r.Got? ==> |r.rest| < |s|
  {
    if s[0] != X.LT then
      assert X.TextOf(s, X.NO_QUOTE, false).Scanned? ==> |X.TextOf(s, X.NO_QUOTE, false).rest| < |s| by {
        if X.TextOf(s, X.NO_QUOTE, false).Scanned? { TextShortens(s); }
      }
      AsData(FromText(X.TextOf(s, X.NO_QUOTE, false)))
    else if |s| == 1 then Ended
    else if s[1] == SLASH then ReadEnd(t, s[2..])
    else if s[1] == QUESTION then ReadProcInst(t, s[2..])
    else if s[1] == BANG then ReadDeclaration(s[2..])
    else ReadStart(t, s[1..])
  }

  // ---------- The loops ----------

  /** space. */
  method ScanSpace(s: Str) returns (rest: Str)
    ensures rest == SkipSpace(s)
  {
    rest := s;
    while rest != [] && IsSpace(rest[0])
      invariant SkipSpace(rest) == SkipSpace(s)
      decreases |rest|
    {
      rest := rest[1..];
    }
  }

  /** name: the bytes first, and then the runes. */
  method ScanName(t: Tables, s: Str) returns (r: Got<Str>)
    ensures r == ReadName(t, s)
  {
    var n := X.ReadName(s);
    if n == |s| {
      return Ended;
    }
    if n == 0 {
      return Syntax;
    }
    var ok := CheckName(t, s[..n]);
    r := if ok then Got(s[..n], s[n..]) else Syntax;
  }

  method ScanNsName(t: Tables, s: Str) returns (r: Got<Name>)
    ensures r == ReadNsName(t, s)
  {
    var name := ScanName(t, s);
    match name
    case Got(x, rest) => r := Got(SplitName(x), rest);
    case Syntax => r := Syntax;
    case Ended => r := Ended;
  }

  method ScanText(s: Str, quote: int, cdata: bool) returns (r: Got<Str>)
    ensures r == FromText(X.TextOf(s, quote, cdata))
  {
    var text := X.ReadText(s, quote, cdata);
    r := FromText(text);
  }

  method ScanValue(s: Str) returns (r: Got<Str>)
    ensures r == ReadValue(s)
  {
    if s == [] {
      return Ended;
    }
    if s[0] == X.QUOT || s[0] == X.APOS {
      r := ScanText(s[1..], s[0], false);
    } else {
      r := Syntax;
    }
  }

  method ScanAttr(t: Tables, s: Str) returns (r: Got<Attr>)
    ensures r == ReadAttr(t, s)
  {
    var name := ScanNsName(t, s);
    match name
    case Syntax => r := Syntax;
    case Ended => r := Ended;
    case Got(n, rest) =>
      var s' := ScanSpace(rest);
      if s' == [] {
        return Ended;
      }
      if s'[0] != EQUALS {
        return Syntax;
      }
      s' := ScanSpace(s'[1..]);
      var value := ScanValue(s');
      match value
      case Syntax => r := Syntax;
      case Ended => r := Ended;
      case Got(v, rest') => r := Got(Attr(n, v), rest');
  }

  /** Some attributes have been read, and the rest is still to come. */
  function Onward(attrs: seq<Attr>, r: Got<(seq<Attr>, bool)>): Got<(seq<Attr>, bool)> {
    if r.Got? then Got((attrs + r.value.0, r.value.1), r.rest) else r
  }

  lemma OneOnward(attrs: seq<Attr>, a: Attr, r: Got<(seq<Attr>, bool)>)
    ensures Onward(attrs, if r.Got? then Got(([a] + r.value.0, r.value.1), r.rest) else r) == Onward(attrs + [a], r)
  {
    assert r.Got? ==> attrs + ([a] + r.value.0) == attrs + [a] + r.value.0;
  }

  method ScanAttrs(t: Tables, s: Str) returns (r: Got<(seq<Attr>, bool)>)
    ensures r == ReadAttrs(t, s)
  {
    hide ReadAttr;
    var attrs: seq<Attr> := [];
    var rest := s;
    assert Onward([], ReadAttrs(t, s)) == ReadAttrs(t, s) by {
      assert ReadAttrs(t, s).Got? ==> [] + ReadAttrs(t, s).value.0 == ReadAttrs(t, s).value.0;
    }
    while true
      invariant Onward(attrs, ReadAttrs(t, rest)) == ReadAttrs(t, s)
      decreases |rest|
    {
      var s' := ScanSpace(rest);
      if s' == [] {
        return Ended;
      }
      if s'[0] == SLASH {
        if |s'| == 1 {
          return Ended;
        }
        r := if s'[1] == X.GT then Got((attrs, true), s'[2..]) else Syntax;
        assert attrs + [] == attrs;
        return;
      }
      if s'[0] == X.GT {
        assert attrs + [] == attrs;
        return Got((attrs, false), s'[1..]);
      }
      var a := ScanAttr(t, s');
      match a
      case Syntax => return Syntax;
      case Ended => return Ended;
      case Got(attr, more) =>
        OneOnward(attrs, attr, ReadAttrs(t, more));
        attrs, rest := attrs + [attr], more;
    }
  }

  method ScanStart(t: Tables, s: Str) returns (r: Got<Raw>)
    ensures r == ReadStart(t, s)
  {
    var name := ScanNsName(t, s);
    match name
    case Syntax => r := Syntax;
    case Ended => r := Ended;
    case Got(n, rest) =>
      var attrs := ScanAttrs(t, rest);
      match attrs
      case Syntax => r := Syntax;
      case Ended => r := Ended;
      case Got((a, empty), rest') => r := Got(Raw(Start(n, a), empty), rest');
  }

  method ScanEnd(t: Tables, s: Str) returns (r: Got<Raw>)
    ensures r == ReadEnd(t, s)
  {
    var name := ScanNsName(t, s);
    match name
    case Syntax => r := Syntax;
    case Ended => r := Ended;
    case Got(n, rest) =>
      var s' := ScanSpace(rest);
      if s' == [] {
        return Ended;
      }
      r := if s'[0] != X.GT then Syntax else Got(Raw(End(n), false), s'[1..]);
  }

  predicate MarkAt(s: Str, mark: Str, j: nat) {
    j + |mark| <= |s| && s[j..j + |mark|] == mark
  }

  /** The mark is not in what has been read. */
  predicate NotYet(s: Str, mark: Str, n: nat) {
    forall j: nat | j + |mark| <= n :: !MarkAt(s, mark, j)
  }

  /** The search for `-->`, with the two bytes before the next. */
  method UntilEndComment(s: Str) returns (i: nat)
    ensures i == Find(s, END_COMMENT)
  {
    var b0: Byte, b1: Byte := 0, 0;
    var n := 0;
    while n < |s|
      invariant n <= |s| && NotYet(s, END_COMMENT, n)
      invariant b1 == (if n > 0 then s[n - 1] else 0) && b0 == (if n > 1 then s[n - 2] else 0)
    {
      var b := s[n];
      n := n + 1;
      if b0 == DASH && b1 == DASH && b == X.GT {
        assert MarkAt(s, END_COMMENT, n - 3);
        MarkFound(s, END_COMMENT, n - 3);
        return n - 3;
      }
      assert n >= 3 ==> s[n - 3..n] == [b0, b1, b] && !MarkAt(s, END_COMMENT, n - 3);
      b0, b1 := b1, b;
    }
    NoMark(s, END_COMMENT);
    i := n;
  }

  lemma MarkFound(s: Str, mark: Str, i: nat)
    requires mark != [] && MarkAt(s, mark, i) && NotYet(s, mark, i + |mark| - 1)
    ensures Find(s, mark) == i
  {
    assert s[i..][..|mark|] == s[i..i + |mark|];
    forall j | 0 <= j < i ensures !(mark <= s[j..]) {
      assert !MarkAt(s, mark, j) && s[j..][..|mark|] == s[j..j + |mark|];
    }
    FindUnique(s, mark, i);
  }

  lemma NoMark(s: Str, mark: Str)
    requires mark != [] && NotYet(s, mark, |s|)
    ensures Find(s, mark) == |s|
  {
    forall j | 0 <= j < |s| ensures !(mark <= s[j..]) {
      assert !MarkAt(s, mark, j);
      assert |mark| <= |s| - j ==> s[j..][..|mark|] == s[j..j + |mark|];
    }
    FindUnique(s, mark, |s|);
  }

  method UntilEndProcInst(s: Str) returns (i: nat)
    ensures i == Find(s, END_PROC_INST)
  {
    var b0: Byte := 0;
    var n := 0;
    while n < |s|
      invariant n <= |s| && NotYet(s, END_PROC_INST, n)
      invariant b0 == if n > 0 then s[n - 1] else 0
    {
      var b := s[n];
      n := n + 1;
      if b0 == QUESTION && b == X.GT {
        assert MarkAt(s, END_PROC_INST, n - 2);
        MarkFound(s, END_PROC_INST, n - 2);
        return n - 2;
      }
      assert n >= 2 ==> s[n - 2..n] == [b0, b] && !MarkAt(s, END_PROC_INST, n - 2);
      b0 := b;
    }
    NoMark(s, END_PROC_INST);
    i := n;
  }

  method ScanComment(s: Str) returns (r: Got<Raw>)
    ensures r == ReadComment(s)
  {
    var i := UntilEndComment(s);
    r := if i == |s| then Ended else Got(Raw(Other(Comment(s[..i])), false), s[i + 3..]);
  }

  method ScanProcInst(t: Tables, s: Str) returns (r: Got<Raw>)
    ensures r == ReadProcInst(t, s)
  {
    var name := ScanName(t, s);
    match name
    case Syntax => r := Syntax;
    case Ended => r := Ended;
    case Got(target, rest) =>
      var s' := ScanSpace(rest);
      var i := UntilEndProcInst(s');
      if i == |s'| {
        return Ended;
      }
      if target == XML && !DeclarationOk(s'[..i]) {
        return Syntax;
      }
      r := Got(Raw(Other(ProcInst(target, s'[..i])), false), s'[i + 2..]);
  }

  function QuoteAfter(b: Byte, quote: Byte): Byte {
    if quote != 0 then (if b == quote then 0 else quote) else if b == X.QUOT || b == X.APOS then b else 0
  }

  function DepthAfter(b: Byte, quote: Byte, depth: nat): nat {
    if quote != 0 then depth else if b == X.GT then (if depth == 0 then 0 else depth - 1) else if b == X.LT then depth + 1 else depth
  }

  /** The byte at the front ends the directive, or begins a comment in it. */
  predicate EndsDirective(s: Str, quote: Byte, depth: nat) {
    s != [] && quote == 0 && s[0] == X.GT && depth == 0
  }

  predicate CommentNext(s: Str, quote: Byte) {
    s != [] && quote == 0 && s[0] == X.LT && BEGIN_COMMENT <= s[1..]
  }

  /** Every other byte is one of the directive. */
  lemma DirectingStep(s: Str, buf: Str, quote: Byte, depth: nat)
    requires s != [] && !EndsDirective(s, quote, depth) && !CommentNext(s, quote)
    ensures Directing(s, buf, quote, depth) == Directing(s[1..], buf + [s[0]], QuoteAfter(s[0], quote), DepthAfter(s[0], quote, depth))
  {
  }

  lemma DirectingEnds(s: Str, buf: Str, quote: Byte, depth: nat)
    ensures s == [] ==> Directing(s, buf, quote, depth) == Ended
    ensures EndsDirective(s, quote, depth) ==> Directing(s, buf, quote, depth) == Got(buf, s[1..])
    ensures CommentNext(s, quote) ==>
              var i := Find(s[1..][3..], END_COMMENT);
              Directing(s, buf, quote, depth) == if i == |s| - 4 then Ended else Directing(s[1..][3..][i + 3..], buf, quote, depth)
  {
  }

  method ScanDirective(s: Str, first: Byte) returns (r: Got<Str>)
    ensures r == Directing(s, [first], 0, 0)
  {
    hide Directing;
    var rest, buf := s, [first];
    var quote: Byte, depth: nat := 0, 0;
    while rest != []
      invariant Directing(rest, buf, quote, depth) == Directing(s, [first], 0, 0)
      decreases |rest|
    {
      DirectingEnds(rest, buf, quote, depth);
      var b := rest[0];
      if quote == 0 && b == X.GT && depth == 0 {
        return Got(buf, rest[1..]);
      }
      if quote == 0 && b == X.LT && BEGIN_COMMENT <= rest[1..] {
        var comment := rest[1..][3..];
        var i := UntilEndComment(comment);
        if i == |comment| {
          return Ended;
        }
        rest := comment[i + 3..];
      } else {
        DirectingStep(rest, buf, quote, depth);
        buf, rest := buf + [b], rest[1..];
        quote, depth := Nesting(b, quote, depth);
      }
    }
    DirectingEnds(rest, buf, quote, depth);
    r := Ended;
  }

  method Nesting(b: Byte, quote0: Byte, depth0: nat) returns (quote: Byte, depth: nat)
    requires !(quote0 == 0 && b == X.GT && depth0 == 0)
    ensures quote == QuoteAfter(b, quote0) && depth == DepthAfter(b, quote0, depth0)
  {
    quote, depth := quote0, depth0;
    if b == quote {
      quote := 0;
    } else if quote == 0 {
      if b == X.APOS || b == X.QUOT {
        quote := b;
      } else if b == X.GT {
        depth := depth - 1;
      } else if b == X.LT {
        depth := depth + 1;
      }
    }
  }

  method ScanDeclaration(s: Str) returns (r: Got<Raw>)
    ensures r == ReadDeclaration(s)
  {
    if s == [] {
      return Ended;
    }
    if s[0] == DASH {
      if |s| == 1 {
        return Ended;
      }
      if s[1] != DASH {
        return Syntax;
      }
      r := ScanComment(s[2..]);
    } else if s[0] == OPEN_BRACKET {
      r := ScanCData(s[1..]);
    } else {
      var text := ScanDirective(s[1..], s[0]);
      match text
      case Got(x, rest) => r := Got(Raw(Other(Directive(x)), false), rest);
      case Syntax => r := Syntax;
      case Ended => r := Ended;
    }
  }

  lemma OtherByte(s: Str, t: Str, i: nat)
    requires i < |s| && i < |t| && s[i] != t[i]
    ensures !(t <= s) && !(s < t)
  {
  }

  method ScanCData(s: Str) returns (r: Got<Raw>)
    ensures r == ReadCData(s)
  {
    var i := 0;
    while i < 6
      invariant i <= 6 && i <= |s| && s[..i] == CDATA[..i]
    {
      if i == |s| {
        assert s == CDATA[..i];
        return Ended;
      }
      if s[i] != CDATA[i] {
        OtherByte(s, CDATA, i);
        return Syntax;
      }
      assert s[..i + 1] == s[..i] + [s[i]] && CDATA[..i + 1] == CDATA[..i] + [CDATA[i]];
      i := i + 1;
    }
    assert CDATA[..6] == CDATA;
    var text := ScanText(s[6..], X.NO_QUOTE, true);
    r := AsData(text);
  }

  /** rawToken, up to the token's last byte. */
  method ScanRaw(t: Tables, s: Str) returns (r: Got<Raw>)
    requires s != []
    ensures r == ReadRaw(t, s)
  {
    if s[0] != X.LT {
      var text := ScanText(s, X.NO_QUOTE, false);
      return AsData(text);
    }
    if |s| == 1 {
      return Ended;
    }
    if s[1] == SLASH {
      r := ScanEnd(t, s[2..]);
    } else if s[1] == QUESTION {
      r := ScanProcInst(t, s[2..]);
    } else if s[1] == BANG {
      r := ScanDeclaration(s[2..]);
    } else {
      r := ScanStart(t, s[1..]);
    }
  }
}
