/** The parser for the If header (section 10.4 of RFC 4918). Its routines read a string
    lexeme by lexeme; they are proved against a parser over lexeme sequences, and that parser
    is proved to accept exactly what the grammar of the header derives. */
module IfHeader {
  import opened Wrappers
  import opened LockTable

  datatype IfList = IfList(resourceTag: string, conditions: seq<Condition>)

  datatype Lexeme =
    | LErr
    | LEof
    | LWord(text: string)
    | LNot
    | LAngle(text: string)
    | LSquare(text: string)
    | LRune(c: char)

  const OPEN := LRune('(')
  const CLOSE := LRune(')')

  // ---------- The grammar ----------

  /** Condition = ["Not"] (State-token | "[" entity-tag "]"), where a state token need not be bracketed. */
  predicate IsAtom(t: Lexeme, negated: bool, c: Condition) {
    match t
    case LWord(text) => c == Condition(negated, text, "")
    case LAngle(text) => c == Condition(negated, text, "")
    case LSquare(text) => c == Condition(negated, "", text)
    case _ => false
  }

  predicate IsCondition(ts: seq<Lexeme>, c: Condition) {
    || (|ts| == 1 && IsAtom(ts[0], false, c))
    || (|ts| == 2 && ts[0] == LNot && IsAtom(ts[1], true, c))
  }

  /** The lexemes are those of the conditions, one after the other. */
  ghost predicate AreConditions(ts: seq<Lexeme>, cs: seq<Condition>)
    decreases |cs|
  {
    if cs == [] then ts == []
    else exists k | 0 <= k <= |ts| :: IsCondition(ts[..k], cs[0]) && AreConditions(ts[k..], cs[1..])
  }

  /** List = "(" 1*Condition ")" */
  ghost predicate IsList(ts: seq<Lexeme>, cs: seq<Condition>) {
    |ts| >= 2 && ts[0] == OPEN && ts[|ts| - 1] == CLOSE && cs != [] && AreConditions(ts[1..|ts| - 1], cs)
  }

  /** No-tag-list = 1*List */
  ghost predicate AreUntagged(ts: seq<Lexeme>, lists: seq<IfList>)
    decreases |lists|, 1
  {
    lists != [] && lists[0].resourceTag == "" && exists k | 0 <= k <= |ts| :: UntaggedSplit(ts, k, lists)
  }

  ghost predicate UntaggedSplit(ts: seq<Lexeme>, k: nat, lists: seq<IfList>)
    requires k <= |ts| && lists != []
    decreases |lists|, 0
  {
    IsList(ts[..k], lists[0].conditions) && if |lists| == 1 then k == |ts| else AreUntagged(ts[k..], lists[1..])
  }

  /** 1*(Resource-Tag 1*List), standing after a list with tag `tag` or, when `bare`, after the tag itself. */
  ghost predicate AreTagged(ts: seq<Lexeme>, tag: string, bare: bool, lists: seq<IfList>)
    decreases |ts|, 1
  {
    && lists != []
    && if ts != [] && ts[0].LAngle? then !bare && AreTagged(ts[1..], ts[0].text, true, lists)
       else lists[0].resourceTag == tag && exists k | 0 < k <= |ts| :: TaggedSplit(ts, k, tag, lists)
  }

  ghost predicate TaggedSplit(ts: seq<Lexeme>, k: int, tag: string, lists: seq<IfList>)
    requires 0 < k <= |ts| && lists != []
    decreases |ts|, 0
  {
    IsList(ts[..k], lists[0].conditions) && if |lists| == 1 then k == |ts| else AreTagged(ts[k..], tag, false, lists[1..])
  }

  /** If = 1*No-tag-list | 1*Tagged-list */
  ghost predicate Derives(ts: seq<Lexeme>, lists: seq<IfList>) {
    || AreUntagged(ts, lists)
    || (ts != [] && ts[0].LAngle? && AreTagged(ts, "", false, lists))
  }

  // ---------- Parsing lexemes ----------

  type Parsed<T> = Option<(T, seq<Lexeme>)>

  function ParseCondition(ts: seq<Lexeme>): (r: Parsed<Condition>)
    ensures r.Some? ==> |r.value.1| < |ts|
  {
    var negated := ts != [] && ts[0] == LNot;
    var rest := if negated then ts[1..] else ts;
    if rest == [] then None
    else
      match rest[0]
      case LWord(text) => Some((Condition(negated, text, ""), rest[1..]))
      case LAngle(text) => Some((Condition(negated, text, ""), rest[1..]))
      case LSquare(text) => Some((Condition(negated, "", text), rest[1..]))
      case _ => None
  }

  function ParseConditions(ts: seq<Lexeme>, sofar: seq<Condition>): (r: Parsed<seq<Condition>>)
    ensures r.Some? ==> |r.value.1| < |ts|
    decreases |ts|
  {
    if ts != [] && ts[0] == CLOSE then
      if sofar == [] then None else Some((sofar, ts[1..]))
    else
      match ParseCondition(ts)
      case None => None
      case Some((c, rest)) => ParseConditions(rest, sofar + [c])
  }

  function ParseList(ts: seq<Lexeme>): (r: Parsed<seq<Condition>>)
    ensures r.Some? ==> |r.value.1| < |ts|
  {
    if ts == [] || ts[0] != OPEN then None else ParseConditions(ts[1..], [])
  }

  function ParseNoTagLists(ts: seq<Lexeme>, sofar: seq<IfList>): Option<seq<IfList>>
    decreases |ts|
  {
    match ParseList(ts)
    case None => None
    case Some((conditions, rest)) =>
      var lists := sofar + [IfList("", conditions)];
      if rest == [] then Some(lists) else ParseNoTagLists(rest, lists)
  }

  /** `bare` is set after a tag that no list has followed yet. */
  function ParseTaggedLists(ts: seq<Lexeme>, tag: string, bare: bool, sofar: seq<IfList>): Option<seq<IfList>>
    decreases |ts|
  {
    if ts != [] && ts[0].LAngle? then
      if bare then None else ParseTaggedLists(ts[1..], ts[0].text, true, sofar)
    else
      match ParseList(ts)
      case None => None
      case Some((conditions, rest)) =>
        var lists := sofar + [IfList(tag, conditions)];
        if rest == [] then Some(lists) else ParseTaggedLists(rest, tag, false, lists)
  }

  function ParseLexemes(ts: seq<Lexeme>): Option<seq<IfList>> {
    if ts == [] then None
    else if ts[0] == OPEN then ParseNoTagLists(ts, [])
    else if ts[0].LAngle? then ParseTaggedLists(ts, "", false, [])
    else None
  }

  // ---------- It accepts exactly what the grammar derives ----------

  lemma ConditionExact(ts: seq<Lexeme>, k: nat, c: Condition)
    requires k <= |ts|
    ensures IsCondition(ts[..k], c) <==> ParseCondition(ts) == Some((c, ts[k..]))
  {
    assert |ts[k..]| == |ts| - k;
    assert |ts| >= 2 ==> ts[1..][0] == ts[1] && ts[1..][1..] == ts[2..];
    assert k > 0 ==> ts[..k][0] == ts[0];
    assert k > 1 ==> ts[..k][1] == ts[1];
  }

  /** Conditions up to the closing parenthesis at k. */
  lemma {:induction false} ConditionsComplete(ts: seq<Lexeme>, sofar: seq<Condition>, k: nat, more: seq<Condition>)
    requires k < |ts| && ts[k] == CLOSE && AreConditions(ts[..k], more) && sofar + more != []
    ensures ParseConditions(ts, sofar) == Some((sofar + more, ts[k + 1..]))
    decreases |ts|
  {
    hide ParseCondition;
    if more == [] {
      assert sofar + more == sofar;
    } else {
      var j :| 0 <= j <= k && IsCondition(ts[..k][..j], more[0]) && AreConditions(ts[..k][j..], more[1..]);
      assert ts[..k][..j] == ts[..j] && ts[..k][j..] == ts[j..][..k - j];
      ConditionExact(ts, j, more[0]);
      assert sofar + [more[0]] + more[1..] == sofar + more;
      ConditionsComplete(ts[j..], sofar + [more[0]], k - j, more[1..]);
      assert ts[j..][k - j + 1..] == ts[k + 1..];
    }
  }

  lemma {:induction false} ConditionsSound(ts: seq<Lexeme>, sofar: seq<Condition>) returns (k: nat, more: seq<Condition>)
    requires ParseConditions(ts, sofar).Some?
    ensures k < |ts| && ts[k] == CLOSE && AreConditions(ts[..k], more) && sofar + more != []
    ensures ParseConditions(ts, sofar) == Some((sofar + more, ts[k + 1..]))
    decreases |ts|
  {
    if ts != [] && ts[0] == CLOSE {
      k, more := 0, [];
      assert sofar + more == sofar;
    } else {
      var (c, rest) := ParseCondition(ts).value;
      var j := |ts| - |rest|;
      assert rest == ts[j..];
      ConditionExact(ts, j, c);
      var k', more' := ConditionsSound(rest, sofar + [c]);
      k, more := j + k', [c] + more';
      SliceTwice(ts, j, k');
      assert more[1..] == more';
      RegroupConditions(sofar, c, more');
    }
  }

  lemma SliceTwice(ts: seq<Lexeme>, j: nat, k: nat)
    requires j + k < |ts|
    ensures ts[..j + k][..j] == ts[..j] && ts[..j + k][j..] == ts[j..][..k]
    ensures ts[j..][k + 1..] == ts[j + k + 1..] && ts[j..][k] == ts[j + k]
  {
  }

  lemma RegroupConditions(a: seq<Condition>, c: Condition, b: seq<Condition>)
    ensures a + [c] + b == a + ([c] + b)
  {
  }

  lemma RegroupLists(a: seq<IfList>, l: IfList, b: seq<IfList>)
    ensures a + [l] + b == a + ([l] + b)
  {
  }

  lemma ListComplete(ts: seq<Lexeme>, k: nat, cs: seq<Condition>)
    requires k <= |ts| && IsList(ts[..k], cs)
    ensures ParseList(ts) == Some((cs, ts[k..]))
  {
    var s := ts[1..];
    assert ts[..k][1..k - 1] == s[..k - 2] && ts[..k][k - 1] == s[k - 2];
    assert [] + cs == cs;
    ConditionsComplete(s, [], k - 2, cs);
  }

  lemma ListSound(ts: seq<Lexeme>) returns (k: nat)
    requires ParseList(ts).Some?
    ensures 0 < k <= |ts| && IsList(ts[..k], ParseList(ts).value.0) && ParseList(ts).value.1 == ts[k..]
  {
    var s := ts[1..];
    var j, cs := ConditionsSound(s, []);
    assert [] + cs == cs;
    k := j + 2;
    assert ts[..k][1..k - 1] == s[..j] && ts[..k][k - 1] == s[j];
  }

  lemma {:induction false} UntaggedComplete(ts: seq<Lexeme>, sofar: seq<IfList>, lists: seq<IfList>)
    requires AreUntagged(ts, lists)
    ensures ParseNoTagLists(ts, sofar) == Some(sofar + lists)
    decreases |ts|
  {
    var k :| 0 <= k <= |ts| && UntaggedSplit(ts, k, lists);
    ListComplete(ts, k, lists[0].conditions);
    if |lists| == 1 {
      assert lists == [lists[0]];
    } else {
      UntaggedComplete(ts[k..], sofar + [lists[0]], lists[1..]);
      assert sofar + [lists[0]] + lists[1..] == sofar + lists;
    }
  }

  lemma {:induction false} UntaggedSound(ts: seq<Lexeme>, sofar: seq<IfList>) returns (lists: seq<IfList>)
    requires ParseNoTagLists(ts, sofar).Some?
    ensures AreUntagged(ts, lists) && ParseNoTagLists(ts, sofar) == Some(sofar + lists)
    decreases |ts|
  {
    var (cs, rest) := ParseList(ts).value;
    var k := ListSound(ts);
    if rest == [] {
      lists := [IfList("", cs)];
      assert UntaggedSplit(ts, k, lists);
    } else {
      var more := UntaggedSound(rest, sofar + [IfList("", cs)]);
      lists := [IfList("", cs)] + more;
      assert lists[1..] == more;
      assert UntaggedSplit(ts, k, lists);
      assert sofar + [IfList("", cs)] + more == sofar + lists;
    }
  }

  lemma {:induction false} TaggedComplete(ts: seq<Lexeme>, tag: string, bare: bool, sofar: seq<IfList>, lists: seq<IfList>)
    requires AreTagged(ts, tag, bare, lists)
    ensures ParseTaggedLists(ts, tag, bare, sofar) == Some(sofar + lists)
    decreases |ts|
  {
    hide ParseList;
    if ts != [] && ts[0].LAngle? {
      TaggedComplete(ts[1..], ts[0].text, true, sofar, lists);
    } else {
      var k :| 0 < k <= |ts| && TaggedSplit(ts, k, tag, lists);
      ListComplete(ts, k, lists[0].conditions);
      if |lists| == 1 {
        assert lists == [lists[0]];
      } else {
        TaggedComplete(ts[k..], tag, false, sofar + [lists[0]], lists[1..]);
        RegroupLists(sofar, lists[0], lists[1..]);
        assert lists == [lists[0]] + lists[1..];
      }
    }
  }

  lemma {:induction false} TaggedSound(ts: seq<Lexeme>, tag: string, bare: bool, sofar: seq<IfList>) returns (lists: seq<IfList>)
    requires ParseTaggedLists(ts, tag, bare, sofar).Some?
    ensures AreTagged(ts, tag, bare, lists) && ParseTaggedLists(ts, tag, bare, sofar) == Some(sofar + lists)
    decreases |ts|
  {
    if ts != [] && ts[0].LAngle? {
      lists := TaggedSound(ts[1..], ts[0].text, true, sofar);
    } else {
      var (cs, rest) := ParseList(ts).value;
      var k := ListSound(ts);
      if rest == [] {
        lists := [IfList(tag, cs)];
        assert TaggedSplit(ts, k, tag, lists);
      } else {
        var more := TaggedSound(rest, tag, false, sofar + [IfList(tag, cs)]);
        lists := [IfList(tag, cs)] + more;
        assert lists[1..] == more;
        assert TaggedSplit(ts, k, tag, lists);
        assert sofar + [IfList(tag, cs)] + more == sofar + lists;
      }
    }
  }

  /** The parser computes what the grammar says: it returns a header exactly when the lexemes derive it. */
  lemma ParserIsGrammar(ts: seq<Lexeme>, lists: seq<IfList>)
    ensures ParseLexemes(ts) == Some(lists) <==> Derives(ts, lists)
  {
    assert [] + lists == lists;
    if AreUntagged(ts, lists) {
      UntaggedComplete(ts, [], lists);
      assert ts[0] == OPEN;
    }
    if ts != [] && ts[0].LAngle? && AreTagged(ts, "", false, lists) {
      TaggedComplete(ts, "", false, [], lists);
    }
    if ParseLexemes(ts) == Some(lists) {
      if ts[0] == OPEN {
        var r := UntaggedSound(ts, []);
        assert [] + r == r;
      } else {
        var r := TaggedSound(ts, "", false, []);
        assert [] + r == r;
      }
    }
  }

  // ---------- Lexemes of a string ----------

  predicate Blank(c: char) {
    c == '\t' || c == ' '
  }

  predicate Delimiter(c: char) {
    Blank(c) || c in "()<>[]"
  }

  function SkipBlanks(s: string): (r: string)
    ensures |r| <= |s|
    ensures r == "" || !Blank(r[0])
  {
    if s != "" && Blank(s[0]) then SkipBlanks(s[1..]) else s
  }

  function WordLength(s: string): (n: nat)
    ensures n <= |s|
    ensures n == 0 <==> s == "" || Delimiter(s[0])
  {
    if s == "" || Delimiter(s[0]) then 0 else 1 + WordLength(s[1..])
  }

  /** strings.IndexByte; the length stands for -1. */
  function IndexOf(s: string, c: char): (n: nat)
    ensures n <= |s|
    ensures n > 0 <==> s != "" && s[0] != c
  {
    if s == "" || s[0] == c then 0 else 1 + IndexOf(s[1..], c)
  }

  /** One lexeme of a string without leading blanks, and what remains. */
  function LexAt(s: string): (r: (Lexeme, string))
    requires s != "" && !Blank(s[0])
    ensures |r.1| < |s| && r.0 != LEof
  {
    var n := WordLength(s);
    if n != 0 then (if s[..n] == "Not" then LNot else LWord(s[..n]), s[n..])
    else if s[0] == '<' then
      var j := IndexOf(s, '>');
      if j == |s| then (LErr, "") else (LAngle(s[1..j]), s[j + 1..])
    else if s[0] == '[' then
      var j := IndexOf(s, ']');
      if j == |s| then (LErr, "") else (LSquare(s[1..j]), s[j + 1..])
    else (LRune(s[0]), s[1..])
  }

  function LexOne(s: string): (r: (Lexeme, string))
    ensures if r.0 == LEof then r.1 == "" else |r.1| < |s|
  {
    var s' := SkipBlanks(s);
    if s' == "" then (LEof, "") else LexAt(s')
  }

  function Lexemes(s: string): seq<Lexeme>
    decreases |s|
  {
    var (t, remaining) := LexOne(s);
    if t == LEof then [] else [t] + Lexemes(remaining)
  }

  /** strings.TrimSpace guarantees this of what is parsed. */
  predicate NoTrailingBlank(s: string) {
    s == "" || !Blank(s[|s| - 1])
  }

  lemma {:induction false} SkipBlanksKeepsEnd(s: string)
    requires NoTrailingBlank(s)
    ensures NoTrailingBlank(SkipBlanks(s)) && (SkipBlanks(s) == "" ==> s == "")
  {
    if s != "" && Blank(s[0]) {
      SkipBlanksKeepsEnd(s[1..]);
    }
  }

  lemma LexKeepsEnd(s: string)
    requires NoTrailingBlank(s)
    ensures NoTrailingBlank(LexOne(s).1)
    ensures Lexemes(s) == [] <==> s == ""
  {
    SkipBlanksKeepsEnd(s);
  }

  // ---------- The routines ----------

  method Lex(s0: string) returns (t: Lexeme, remaining: string)
    ensures (t, remaining) == LexOne(s0)
  {
    var s := s0;
    while |s| > 0 && (s[0] == '\t' || s[0] == ' ')
      invariant SkipBlanks(s) == SkipBlanks(s0)
      decreases |s|
    {
      s := s[1..];
    }
    if |s| == 0 {
      return LEof, "";
    }
    t, remaining := LexFrom(s);
  }

  /** The rest of lex, where no blank is in front. */
  method LexFrom(s: string) returns (t: Lexeme, remaining: string)
    requires s != "" && !Blank(s[0])
    ensures (t, remaining) == LexAt(s)
  {
    var i := 0;
    while i < |s| && !Delimiter(s[i])
      invariant 0 <= i <= |s|
      invariant WordLength(s) == i + WordLength(s[i..])
    {
      i := i + 1;
    }
    if i != 0 {
      return if s[..i] == "Not" then LNot else LWord(s[..i]), s[i..];
    }
    if s[0] != '<' && s[0] != '[' {
      return LRune(s[0]), s[1..];
    }
    var close := if s[0] == '<' then '>' else ']';
    var j := 0;
    while j < |s| && s[j] != close
      invariant 0 <= j <= |s|
      invariant IndexOf(s, close) == j + IndexOf(s[j..], close)
    {
      j := j + 1;
    }
    if j == |s| {
      return LErr, "";
    }
    return if s[0] == '<' then LAngle(s[1..j]) else LSquare(s[1..j]), s[j + 1..];
  }

  method ReadCondition(s0: string) returns (c: Condition, remaining: string, ok: bool)
    requires NoTrailingBlank(s0)
    ensures NoTrailingBlank(remaining)
    ensures ok ==> ParseCondition(Lexemes(s0)) == Some((c, Lexemes(remaining))) && |remaining| < |s0|
    ensures !ok ==> ParseCondition(Lexemes(s0)) == None
  {
    LexKeepsEnd(s0);
    var t, s := Lex(s0);
    var negated := false;
    if t == LNot {
      negated := true;
      LexKeepsEnd(s);
      t, s := Lex(s);
    }
    match t
    case LWord(text) => return Condition(negated, text, ""), s, true;
    case LAngle(text) => return Condition(negated, text, ""), s, true;
    case LSquare(text) => return Condition(negated, "", text), s, true;
    case _ => return Condition(false, "", ""), "", false;
  }

  method ReadList(s0: string) returns (conditions: seq<Condition>, remaining: string, ok: bool)
    requires NoTrailingBlank(s0)
    ensures NoTrailingBlank(remaining)
    ensures ok ==> ParseList(Lexemes(s0)) == Some((conditions, Lexemes(remaining))) && |remaining| < |s0|
    ensures !ok ==> ParseList(Lexemes(s0)) == None
  {
    LexKeepsEnd(s0);
    var t, s := Lex(s0);
    if t != OPEN {
      return [], "", false;
    }
    conditions := [];
    while true
      invariant NoTrailingBlank(s) && |s| < |s0|
      invariant ParseList(Lexemes(s0)) == ParseConditions(Lexemes(s), conditions)
      decreases |s|
    {
      LexKeepsEnd(s);
      t, remaining := Lex(s);
      if t == CLOSE {
        if |conditions| == 0 {
          return [], "", false;
        }
        return conditions, remaining, true;
      }
      var c, rest, read := ReadCondition(s);
      if !read {
        return [], "", false;
      }
      conditions := conditions + [c];
      s := rest;
    }
  }

  method ReadNoTagLists(s0: string) returns (lists: seq<IfList>, ok: bool)
    requires NoTrailingBlank(s0)
    ensures ParseNoTagLists(Lexemes(s0), []) == if ok then Some(lists) else None
  {
    var s := s0;
    lists := [];
    while true
      invariant NoTrailingBlank(s)
      invariant ParseNoTagLists(Lexemes(s0), []) == ParseNoTagLists(Lexemes(s), lists)
      decreases |s|
    {
      var conditions, remaining, read := ReadList(s);
      if !read {
        return [], false;
      }
      lists := lists + [IfList("", conditions)];
      LexKeepsEnd(remaining);
      if remaining == "" {
        return lists, true;
      }
      s := remaining;
    }
  }

  method ReadTaggedLists(s0: string) returns (lists: seq<IfList>, ok: bool)
    requires NoTrailingBlank(s0)
    ensures ParseTaggedLists(Lexemes(s0), "", false, []) == if ok then Some(lists) else None
  {
    var s, resourceTag, n, first := s0, "", 0, true;
    lists := [];
    while true
      invariant NoTrailingBlank(s) && n >= 0
      invariant ParseTaggedLists(Lexemes(s0), "", false, []) == ParseTaggedLists(Lexemes(s), resourceTag, !first && n == 0, lists)
      decreases |s|
    {
      LexKeepsEnd(s);
      var t, remaining := Lex(s);
      match t {
        case LAngle(text) =>
          if !first && n == 0 {
            return [], false;
          }
          resourceTag, n, s := text, 0, remaining;
        case LRune('(') =>
          n := n + 1;
          var conditions, rest, read := ReadList(s);
          if !read {
            return [], false;
          }
          lists := lists + [IfList(resourceTag, conditions)];
          LexKeepsEnd(rest);
          if rest == "" {
            return lists, true;
          }
          s := rest;
        case _ =>
          return [], false;
      }
      first := false;
    }
  }

  /** unicode.IsSpace. */
  predicate IsSpace(c: char) {
    || Blank(c) || '\n' <= c <= '\r' || c == '\U{85}' || c == '\U{A0}' || c == '\U{1680}'
    || '\U{2000}' <= c <= '\U{200A}' || c == '\U{2028}' || c == '\U{2029}' || c == '\U{202F}' || c == '\U{205F}' || c == '\U{3000}'
  }

  function TrimSpace(s: string): (r: string)
    ensures NoTrailingBlank(r)
    decreases |s|
  {
    if s == "" then s
    else if IsSpace(s[0]) then TrimSpace(s[1..])
    else if IsSpace(s[|s| - 1]) then TrimSpace(s[..|s| - 1])
    else s
  }

  /** parseIfHeader. */
  method ReadIfHeader(header: string) returns (lists: seq<IfList>, ok: bool)
    ensures ParseLexemes(Lexemes(TrimSpace(header))) == if ok then Some(lists) else None
  {
    var s := TrimSpace(header);
    var t, remaining := Lex(s);
    match t
    case LRune('(') => lists, ok := ReadNoTagLists(s);
    case LAngle(_) => lists, ok := ReadTaggedLists(s);
    case _ => return [], false;
  }

  // ---------- Printing and parsing back ----------

  function ConditionLexemes(c: Condition): seq<Lexeme> {
    (if c.negated then [LNot] else []) + [if c.etag == "" then LAngle(c.token) else LSquare(c.etag)]
  }

  function ConditionsLexemes(cs: seq<Condition>): seq<Lexeme> {
    if cs == [] then [] else ConditionLexemes(cs[0]) + ConditionsLexemes(cs[1..])
  }

  function ListLexemes(l: IfList): seq<Lexeme> {
    (if l.resourceTag == "" then [] else [LAngle(l.resourceTag)]) + [OPEN] + ConditionsLexemes(l.conditions) + [CLOSE]
  }

  function HeaderLexemes(lists: seq<IfList>): seq<Lexeme> {
    if lists == [] then [] else ListLexemes(lists[0]) + HeaderLexemes(lists[1..])
  }

  function Spell(t: Lexeme): string {
    match t
    case LNot => "Not "
    case LAngle(text) => "<" + text + ">"
    case LSquare(text) => "[" + text + "]"
    case LWord(text) => text
    case LRune(c) => [c]
    case _ => ""
  }

  function SpellAll(ts: seq<Lexeme>): string {
    if ts == [] then "" else Spell(ts[0]) + SpellAll(ts[1..])
  }

  /** The text of a header, such as <tag>(Not <token>[etag]). */
  function Print(lists: seq<IfList>): string {
    SpellAll(HeaderLexemes(lists))
  }

  /** Brackets, parentheses and Not, with a text that does not close its bracket early. */
  predicate Spellable(t: Lexeme) {
    match t
    case LNot => true
    case LAngle(text) => '>' !in text
    case LSquare(text) => ']' !in text
    case LRune(c) => c == '(' || c == ')'
    case _ => false
  }

  /** Exactly one of token and ETag, without the bracket that would close it early. */
  predicate Printable(c: Condition) {
    if c.etag == "" then '>' !in c.token else c.token == "" && ']' !in c.etag
  }

  predicate PrintableList(l: IfList) {
    l.conditions != [] && '>' !in l.resourceTag && forall c | c in l.conditions :: Printable(c)
  }

  /** All lists are tagged, or none is. */
  predicate PrintableHeader(lists: seq<IfList>) {
    && lists != []
    && (forall l | l in lists :: PrintableList(l))
    && (forall l | l in lists :: (l.resourceTag == "") == (lists[0].resourceTag == ""))
  }

  lemma {:induction false} IndexOfClose(s: string, close: char, rest: string)
    requires close !in s
    ensures IndexOf(s + [close] + rest, close) == |s|
  {
    var t := s + [close] + rest;
    if s != [] {
      assert t[1..] == s[1..] + [close] + rest;
      IndexOfClose(s[1..], close, rest);
    }
  }

  lemma LexBracketed(open: char, text: string, close: char, rest: string)
    requires (open == '<' && close == '>') || (open == '[' && close == ']')
    requires close !in text
    ensures LexOne([open] + text + [close] + rest) == (if open == '<' then LAngle(text) else LSquare(text), rest)
  {
    var s := [open] + text + [close] + rest;
    IndexOfClose([open] + text, close, rest);
    var j := |text| + 1;
    assert s[1..j] == text && s[j + 1..] == rest;
    assert LexOne(s) == LexAt(s);
  }

  lemma LexNot(rest: string)
    ensures LexOne("Not " + rest) == (LNot, " " + rest) && Lexemes(" " + rest) == Lexemes(rest)
  {
    var s := "Not " + rest;
    assert s[1..] == "ot " + rest && s[1..][1..] == "t " + rest && s[1..][1..][1..] == " " + rest;
    assert WordLength(" " + rest) == 0;
    assert WordLength("t " + rest) == 1;
    assert WordLength("ot " + rest) == 2;
    assert WordLength(s) == 3;
    assert s[..3] == "Not" && s[3..] == " " + rest;
    assert LexOne(s) == LexAt(s);
    assert (" " + rest)[1..] == rest;
    assert LexOne(" " + rest) == LexOne(rest);
  }

  lemma LexSpelled(t: Lexeme, rest: string)
    requires Spellable(t)
    ensures Lexemes(Spell(t) + rest) == [t] + Lexemes(rest)
  {
    match t
    case LNot => LexNot(rest);
    case LAngle(text) =>
      LexBracketed('<', text, '>', rest);
      assert Spell(t) + rest == ['<'] + text + ['>'] + rest;
    case LSquare(text) =>
      LexBracketed('[', text, ']', rest);
      assert Spell(t) + rest == ['['] + text + [']'] + rest;
    case LRune(c) =>
      assert ([c] + rest)[1..] == rest;
      assert LexOne([c] + rest) == LexAt([c] + rest);
  }

  lemma {:induction false} LexAllSpelled(ts: seq<Lexeme>)
    requires forall t | t in ts :: Spellable(t)
    ensures Lexemes(SpellAll(ts)) == ts
  {
    if ts != [] {
      LexAllSpelled(ts[1..]);
      LexSpelled(ts[0], SpellAll(ts[1..]));
    }
  }

  function Body(l: IfList): seq<Lexeme> {
    [OPEN] + ConditionsLexemes(l.conditions) + [CLOSE]
  }

  lemma {:induction false} ConditionsSpellable(cs: seq<Condition>)
    requires forall c | c in cs :: Printable(c)
    ensures forall t | t in ConditionsLexemes(cs) :: Spellable(t)
  {
    if cs != [] {
      assert Printable(cs[0]);
      ConditionsSpellable(cs[1..]);
    }
  }

  lemma {:induction false} ConditionsBack(cs: seq<Condition>, sofar: seq<Condition>, rest: seq<Lexeme>)
    requires sofar + cs != [] && forall c | c in cs :: Printable(c)
    ensures ParseConditions(ConditionsLexemes(cs) + ([CLOSE] + rest), sofar) == Some((sofar + cs, rest))
    decreases |cs|
  {
    var ts := ConditionsLexemes(cs) + ([CLOSE] + rest);
    if cs == [] {
      assert ts == [CLOSE] + rest && sofar + cs == sofar;
    } else {
      assert Printable(cs[0]);
      var more := ConditionsLexemes(cs[1..]) + ([CLOSE] + rest);
      assert ts == ConditionLexemes(cs[0]) + more;
      assert ParseCondition(ts) == Some((cs[0], more));
      ConditionsBack(cs[1..], sofar + [cs[0]], rest);
      assert sofar + [cs[0]] + cs[1..] == sofar + cs;
    }
  }

  lemma ListBack(l: IfList, rest: seq<Lexeme>)
    requires PrintableList(l)
    ensures ParseList(Body(l) + rest) == Some((l.conditions, rest))
  {
    ConditionsBack(l.conditions, [], rest);
    assert [] + l.conditions == l.conditions;
    assert (Body(l) + rest)[1..] == ConditionsLexemes(l.conditions) + ([CLOSE] + rest);
  }

  lemma UntaggedStep(ts: seq<Lexeme>, l: IfList, rest: seq<Lexeme>, more: seq<IfList>, sofar: seq<IfList>)
    requires ParseList(ts) == Some((l.conditions, rest)) && l.resourceTag == ""
    requires if more == [] then rest == [] else rest != [] && ParseNoTagLists(rest, sofar + [l]) == Some(sofar + [l] + more)
    ensures ParseNoTagLists(ts, sofar) == Some(sofar + ([l] + more))
  {
    assert sofar + ([l] + more) == sofar + [l] + more;
    assert l == IfList("", l.conditions);
    assert more == [] ==> sofar + [l] + more == sofar + [l];
  }

  lemma UntaggedCons(ts: seq<Lexeme>, l: IfList, rest: seq<Lexeme>, more: seq<IfList>, sofar: seq<IfList>)
    requires PrintableList(l) && ts == Body(l) + rest && l.resourceTag == ""
    requires if more == [] then rest == [] else rest != [] && ParseNoTagLists(rest, sofar + [l]) == Some(sofar + [l] + more)
    ensures ParseNoTagLists(ts, sofar) == Some(sofar + ([l] + more))
  {
    ListBack(l, rest);
    UntaggedStep(ts, l, rest, more, sofar);
  }

  lemma {:induction false} UntaggedBack(lists: seq<IfList>, sofar: seq<IfList>)
    requires lists != [] && forall l | l in lists :: PrintableList(l) && l.resourceTag == ""
    ensures ParseNoTagLists(HeaderLexemes(lists), sofar) == Some(sofar + lists)
    ensures HeaderLexemes(lists) != []
    decreases |lists|
  {
    var l, more := lists[0], lists[1..];
    assert PrintableList(l);
    if more != [] {
      UntaggedBack(more, sofar + [l]);
    }
    UntaggedCons(HeaderLexemes(lists), l, HeaderLexemes(more), more, sofar);
    assert lists == [l] + more;
  }

  lemma TaggedStep(ts: seq<Lexeme>, tag: string, l: IfList, rest: seq<Lexeme>, more: seq<IfList>, sofar: seq<IfList>)
    requires ts != [] && ts[0] == LAngle(l.resourceTag)
    requires ts[1..] != [] && ts[1..][0] == OPEN && ParseList(ts[1..]) == Some((l.conditions, rest))
    requires if more == [] then rest == [] else rest != [] && ParseTaggedLists(rest, l.resourceTag, false, sofar + [l]) == Some(sofar + [l] + more)
    ensures ParseTaggedLists(ts, tag, false, sofar) == Some(sofar + ([l] + more))
  {
    assert sofar + ([l] + more) == sofar + [l] + more;
    assert l == IfList(l.resourceTag, l.conditions);
    assert more == [] ==> sofar + [l] + more == sofar + [l];
    var us := ts[1..];
    assert ParseTaggedLists(us, l.resourceTag, true, sofar) == Some(sofar + [l] + more);
  }

  lemma {:induction false} TaggedBack(lists: seq<IfList>, tag: string, sofar: seq<IfList>)
    requires lists != [] && forall l | l in lists :: PrintableList(l) && l.resourceTag != ""
    ensures ParseTaggedLists(HeaderLexemes(lists), tag, false, sofar) == Some(sofar + lists)
    ensures HeaderLexemes(lists) != []
    decreases |lists|
  {
    var l, more := lists[0], lists[1..];
    assert PrintableList(l);
    if more != [] {
      TaggedBack(more, l.resourceTag, sofar + [l]);
    }
    TaggedHeader(lists);
    TaggedCons(HeaderLexemes(lists), tag, l, HeaderLexemes(more), more, sofar);
    assert lists == [l] + more;
  }

  lemma {:induction false} TaggedHeader(lists: seq<IfList>)
    requires lists != [] && lists[0].resourceTag != ""
    ensures HeaderLexemes(lists) == [LAngle(lists[0].resourceTag)] + (Body(lists[0]) + HeaderLexemes(lists[1..]))
  {
  }

  lemma TaggedCons(ts: seq<Lexeme>, tag: string, l: IfList, rest: seq<Lexeme>, more: seq<IfList>, sofar: seq<IfList>)
    requires PrintableList(l) && ts == [LAngle(l.resourceTag)] + (Body(l) + rest)
    requires if more == [] then rest == [] else rest != [] && ParseTaggedLists(rest, l.resourceTag, false, sofar + [l]) == Some(sofar + [l] + more)
    ensures ParseTaggedLists(ts, tag, false, sofar) == Some(sofar + ([l] + more))
  {
    ListBack(l, rest);
    assert ts[1..] == Body(l) + rest;
    TaggedStep(ts, tag, l, rest, more, sofar);
  }

  lemma {:induction false} HeaderSpellable(lists: seq<IfList>)
    requires forall l | l in lists :: PrintableList(l)
    ensures forall t | t in HeaderLexemes(lists) :: Spellable(t)
    ensures lists != [] ==> HeaderLexemes(lists) != [] && HeaderLexemes(lists)[|HeaderLexemes(lists)| - 1] == CLOSE
  {
    if lists != [] {
      assert PrintableList(lists[0]);
      ConditionsSpellable(lists[0].conditions);
      HeaderSpellable(lists[1..]);
    }
  }

  lemma {:induction false} SpellEnds(ts: seq<Lexeme>)
    requires ts != [] && ts[|ts| - 1] == CLOSE && forall t | t in ts :: Spellable(t)
    ensures var s := SpellAll(ts); s != "" && !IsSpace(s[0]) && !IsSpace(s[|s| - 1])
  {
    SpellStart(ts[0]);
    if |ts| > 1 {
      SpellEnds(ts[1..]);
      EndsOf(Spell(ts[0]), SpellAll(ts[1..]));
    } else {
      assert SpellAll(ts[1..]) == "";
      assert Spell(ts[0]) + "" == Spell(ts[0]);
    }
  }

  lemma EndsOf(a: string, b: string)
    requires a != "" && b != ""
    ensures (a + b)[0] == a[0] && (a + b)[|a + b| - 1] == b[|b| - 1]
  {
  }

  lemma SpellStart(t: Lexeme)
    requires Spellable(t)
    ensures Spell(t) != "" && !IsSpace(Spell(t)[0])
  {
  }

  lemma ParseLexemesBack(lists: seq<IfList>)
    requires PrintableHeader(lists)
    ensures ParseLexemes(HeaderLexemes(lists)) == Some(lists)
  {
    assert [] + lists == lists;
    if lists[0].resourceTag == "" {
      UntaggedBack(lists, []);
    } else {
      TaggedBack(lists, "", []);
    }
  }

  lemma {:induction false} TrimNothing(s: string)
    requires s != "" && !IsSpace(s[0]) && !IsSpace(s[|s| - 1])
    ensures TrimSpace(s) == s
  {
  }

  /** Printing any header whose lists are all tagged or all untagged, and parsing it, gives the header back. */
  lemma PrintParse(lists: seq<IfList>)
    requires PrintableHeader(lists)
    ensures ParseLexemes(Lexemes(TrimSpace(Print(lists)))) == Some(lists)
  {
    var ts := HeaderLexemes(lists);
    HeaderSpellable(lists);
    SpellEnds(ts);
    TrimNothing(SpellAll(ts));
    LexAllSpelled(ts);
    ParseLexemesBack(lists);
  }

  // ---------- Any spelling of a header ----------

  /** A lexeme with the blanks before it. */
  datatype Spaced = Spaced(before: string, lexeme: Lexeme)

  function Text(t: Lexeme): string {
    match t
    case LNot => "Not"
    case LWord(text) => text
    case LAngle(text) => "<" + text + ">"
    case LSquare(text) => "[" + text + "]"
    case LRune(c) => [c]
    case _ => ""
  }

  predicate IsText(t: Lexeme) {
    match t
    case LNot => true
    case LWord(text) => text != "" && text != "Not" && forall c | c in text :: !Delimiter(c)
    case LAngle(text) => '>' !in text
    case LSquare(text) => ']' !in text
    case LRune(c) => c in "()>]"
    case _ => false
  }

  predicate Blanks(s: string) {
    forall c | c in s :: c == ' ' || c == '\t'
  }

  /** Blanks may stand before any lexeme, and must stand between words. */
  predicate AreSpaced(ps: seq<Spaced>) {
    ps != [] ==>
      && Blanks(ps[0].before) && IsText(ps[0].lexeme)
      && (|ps| > 1 && IsWord(ps[0].lexeme) && IsWord(ps[1].lexeme) ==> ps[1].before != "")
      && AreSpaced(ps[1..])
  }

  predicate IsWord(t: Lexeme) {
    t.LNot? || t.LWord?
  }

  function SpacedText(ps: seq<Spaced>, end: string): string {
    if ps == [] then end else ps[0].before + (Text(ps[0].lexeme) + SpacedText(ps[1..], end))
  }

  function LexemesOf(ps: seq<Spaced>): seq<Lexeme> {
    if ps == [] then [] else [ps[0].lexeme] + LexemesOf(ps[1..])
  }

  lemma {:induction false} SkipsBlanks(b: string, s: string)
    requires Blanks(b)
    ensures SkipBlanks(b + s) == SkipBlanks(s)
  {
    if b == "" {
      assert b + s == s;
    } else {
      assert (b + s)[0] == b[0] && (b + s)[1..] == b[1..] + s && b[0] in b;
      assert forall c | c in b[1..] :: c in b;
      SkipsBlanks(b[1..], s);
    }
  }

  lemma {:induction false} WordEnds(w: string, s: string)
    requires (forall c | c in w :: !Delimiter(c)) && (s == "" || Delimiter(s[0]))
    ensures WordLength(w + s) == |w|
  {
    if w == "" {
      assert w + s == s;
    } else {
      assert (w + s)[0] == w[0] && (w + s)[1..] == w[1..] + s;
      WordEnds(w[1..], s);
    }
  }

  lemma LexText(t: Lexeme, s: string)
    requires IsText(t) && (IsWord(t) ==> s == "" || Delimiter(s[0]))
    ensures LexOne(Text(t) + s) == (t, s)
  {
    match t
    case LAngle(text) =>
      LexBracketed('<', text, '>', s);
      assert Text(t) + s == ['<'] + text + ['>'] + s;
    case LSquare(text) =>
      LexBracketed('[', text, ']', s);
      assert Text(t) + s == ['['] + text + [']'] + s;
    case LRune(c) => LexRune(c, s);
    case LNot => LexWord("Not", s);
    case LWord(text) => LexWord(text, s);
  }

  lemma LexRune(c: char, s: string)
    requires c in "()>]"
    ensures LexOne([c] + s) == (LRune(c), s)
  {
    assert ([c] + s)[1..] == s;
    assert LexOne([c] + s) == LexAt([c] + s);
  }

  lemma LexWord(w: string, s: string)
    requires w != "" && (forall c | c in w :: !Delimiter(c)) && (s == "" || Delimiter(s[0]))
    ensures LexOne(w + s) == (if w == "Not" then LNot else LWord(w), s)
  {
    WordEnds(w, s);
    assert (w + s)[0] == w[0] && w[0] in w && (w + s)[..|w|] == w && (w + s)[|w|..] == s;
    assert LexOne(w + s) == LexAt(w + s);
  }

  lemma SpacedBegins(ps: seq<Spaced>, end: string)
    requires AreSpaced(ps) && Blanks(end) && (ps != [] && IsWord(ps[0].lexeme) ==> ps[0].before != "")
    ensures var s := SpacedText(ps, end); s == "" || Delimiter(s[0])
  {
    if ps == [] {
      assert end != "" ==> end[0] in end;
    } else if ps[0].before != "" {
      assert ps[0].before[0] in ps[0].before;
    }
  }

  /** Whatever blanks there are, the lexemes of a string are those that it spells. */
  lemma {:induction false} LexemesAreSpelled(ps: seq<Spaced>, end: string)
    requires AreSpaced(ps) && Blanks(end)
    ensures Lexemes(SpacedText(ps, end)) == LexemesOf(ps)
  {
    hide LexAt, Text, IsText;
    if ps == [] {
      SkipsBlanks(end, "");
      assert end + "" == end;
    } else {
      var b, t, s := ps[0].before, ps[0].lexeme, SpacedText(ps[1..], end);
      SkipsBlanks(b, Text(t) + s);
      if IsWord(t) {
        SpacedBegins(ps[1..], end);
      }
      LexText(t, s);
      IsNoEnd(t);
      assert LexOne(b + (Text(t) + s)) == LexOne(Text(t) + s);
      LexemesAreSpelled(ps[1..], end);
    }
  }

  lemma IsNoEnd(t: Lexeme)
    requires IsText(t)
    ensures t != LEof
  {
  }

  /** A bracket that is not closed is an error, and all there is. */
  lemma UnclosedIsError(open: char, text: string)
    requires (open == '<' && '>' !in text) || (open == '[' && ']' !in text)
    ensures Lexemes([open] + text) == [LErr]
  {
    var s := [open] + text;
    NotFound(s, if open == '<' then '>' else ']');
    assert LexOne(s) == LexAt(s);
    assert Lexemes("") == [];
  }

  lemma {:induction false} NotFound(s: string, c: char)
    requires c !in s
    ensures IndexOf(s, c) == |s|
  {
    if s != "" {
      NotFound(s[1..], c);
    }
  }

  lemma AsciiSpaces(c: char)
    requires c < 128 as char
    ensures IsSpace(c) <==> c == ' ' || 9 as char <= c <= 13 as char
  {
  }

  lemma {:induction false} TrimFront(a: string, s: string)
    requires forall c | c in a :: IsSpace(c)
    ensures TrimSpace(a + s) == TrimSpace(s)
    decreases |a|
  {
    hide IsSpace;
    if a == "" {
      assert a + s == s;
    } else {
      assert (a + s)[0] == a[0] && a[0] in a && (a + s)[1..] == a[1..] + s;
      TrimFront(a[1..], s);
    }
  }

  lemma {:induction false} TrimBack(s: string, b: string)
    requires s != "" && !IsSpace(s[0]) && forall c | c in b :: IsSpace(c)
    ensures TrimSpace(s + b) == TrimSpace(s)
    decreases |b|
  {
    hide IsSpace;
    if b == "" {
      assert s + b == s;
    } else {
      var n := |b| - 1;
      assert (s + b)[0] == s[0] && (s + b)[|s + b| - 1] == b[n] && b[n] in b && (s + b)[..|s + b| - 1] == s + b[..n];
      TrimBack(s, b[..n]);
    }
  }

  /** Trimming takes the spaces off both ends, and nothing else. */
  lemma TrimExactly(a: string, s: string, b: string)
    requires forall c | c in a || c in b :: IsSpace(c)
    requires s != "" ==> !IsSpace(s[0]) && !IsSpace(s[|s| - 1])
    ensures TrimSpace(a + (s + b)) == s
  {
    hide IsSpace;
    TrimFront(a, s + b);
    if s == "" {
      assert s + b == b && b + "" == b;
      TrimFront(b, "");
    } else {
      TrimBack(s, b);
      TrimNothing(s);
    }
  }
}
