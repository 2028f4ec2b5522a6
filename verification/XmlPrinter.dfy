/** The name space side of the XML printer: which prefixes an element declares, and how they
    are undone at its end. */
module XmlPrinter {
  import opened Utf8
  import opened XmlTypes
  import opened XmlNames
  import opened XmlRaw
  import X = XmlText

  /** A record to undo one declaration; `mark` records stand where an element starts. */
  datatype Undo = Undo(prefix: Str, url: Str, mark: bool)

  const MARK := Undo([], [], true)

  /** attrNS maps prefixes to URLs, attrPrefix URLs to prefixes. */
  datatype Spaces = Spaces(defaultNS: Str, attrNS: map<Str, Str>, attrPrefix: map<Str, Str>)

  datatype Printer = Printer(counter: nat, spaces: Spaces, prefixes: seq<Undo>, tags: seq<Name>)

  datatype Result<T> = Ok(value: T) | Err

  const EMPTY := Printer(0, Spaces([], map[], map[]), [], [])

  // ---------- Declaring and undoing ----------

  function NsForPrefix(s: Spaces, prefix: Str): Str {
    if prefix == [] then s.defaultNS else Get(s.attrNS, prefix)
  }

  function SetAttrPrefix(s: Spaces, prefix: Str, url: Str): Spaces {
    if prefix == [] then s.(defaultNS := url)
    else if url == [] then s.(attrPrefix := s.attrPrefix - {Get(s.attrNS, prefix)}, attrNS := s.attrNS - {prefix})
    else s.(attrPrefix := (s.attrPrefix - {Get(s.attrNS, prefix)})[url := prefix], attrNS := s.attrNS[prefix := url])
  }

  function PushPrefix(p: Printer, prefix: Str, url: Str): Printer {
    p.(prefixes := p.prefixes + [Undo(prefix, NsForPrefix(p.spaces, prefix), false)],
       spaces := SetAttrPrefix(p.spaces, prefix, url))
  }

  function MarkPrefix(p: Printer): Printer {
    p.(prefixes := p.prefixes + [MARK])
  }

  function PopPrefix(p: Printer): Printer
    decreases |p.prefixes|
  {
    if p.prefixes == [] then p
    else
      var u := p.prefixes[|p.prefixes| - 1];
      var p' := p.(prefixes := p.prefixes[..|p.prefixes| - 1]);
      if u.mark then p' else PopPrefix(p'.(spaces := SetAttrPrefix(p'.spaces, u.prefix, u.url)))
  }

  function DefineNS(p: Printer, attr: Attr, ignoreNonEmptyDefault: bool): Result<Printer> {
    var n := attr.name;
    if n.local == XMLNS && n.space != [] && n.space != XML && n.space != XML_URL then Err
    else if n.local == XMLNS then
      if attr.value == p.spaces.defaultNS || (attr.value != [] && ignoreNonEmptyDefault) then Ok(p)
      else Ok(PushPrefix(p, [], attr.value))
    else if n.space == XMLNS && n.local != [] && attr.value != [] && attr.value !in p.spaces.attrPrefix then
      Ok(PushPrefix(p, n.local, attr.value))
    else Ok(p)
  }

  // ---------- Inventing a prefix ----------

  function TrimSlashes(s: Str): Str {
    if s != [] && s[|s| - 1] == SLASH then TrimSlashes(s[..|s| - 1]) else s
  }

  function AfterLastSlash(s: Str): (r: Str)
    ensures SLASH !in r
  {
    if s == [] then []
    else if s[|s| - 1] == SLASH then []
    else AfterLastSlash(s[..|s| - 1]) + [s[|s| - 1]]
  }

  /** The last path element of the URL, if it makes a good prefix. */
  function BasePrefix(url: Str, t: Tables): (r: Str)
    ensures IsNcName(t, r) && !HasPrefix(r, XML)
  {
    UnderscoreName(t);
    var last := AfterLastSlash(TrimSlashes(url));
    var prefix := if last == [] || !IsName(t, last) || COLON in last then [UNDERSCORE] else last;
    if HasPrefix(prefix, XML) then
      UnderscoreBefore(t, prefix);
      [UNDERSCORE] + prefix
    else prefix
  }

  lemma UnderscoreName(t: Tables)
    ensures IsNcName(t, [UNDERSCORE]) && !HasPrefix([UNDERSCORE], XML)
  {
    assert Decode([UNDERSCORE]) == (UNDERSCORE as int, 1) && [UNDERSCORE][1..] == [];
  }

  lemma UnderscoreBefore(t: Tables, prefix: Str)
    requires IsNcName(t, prefix)
    ensures IsNcName(t, [UNDERSCORE] + prefix) && !HasPrefix([UNDERSCORE] + prefix, XML)
  {
    UnderscoreName(t);
    NameIsLater(t, prefix);
    NameAppend(t, [UNDERSCORE], prefix);
    assert ([UNDERSCORE] + prefix)[0] != XML[0];
  }

  function Numbered(prefix: Str, n: nat): Str {
    prefix + ([UNDERSCORE] + X.DecimalDigits(n))
  }

  lemma NumberedInjective(prefix: Str, m: nat, n: nat)
    requires Numbered(prefix, m) == Numbered(prefix, n)
    ensures m == n
  {
    var k := |prefix| + 1;
    assert Numbered(prefix, m)[k..] == X.DecimalDigits(m) && Numbered(prefix, n)[k..] == X.DecimalDigits(n);
    X.ValueOfDigits(m);
    X.ValueOfDigits(n);
  }

  /** The first number from n on that makes an unused prefix. The numbers tried so far gave
      distinct used prefixes, so the search ends. */
  function FreshNumber(used: set<Str>, prefix: Str, n: nat, ghost tried: set<Str>): (r: nat)
    requires tried <= used && NumberedBelow(tried, prefix, n)
    ensures r >= n && Numbered(prefix, r) !in used
    ensures forall k | n <= k < r :: Numbered(prefix, k) in used
    decreases |used - tried|
  {
    var id := Numbered(prefix, n);
    if id !in used then n
    else
      TriedNext(tried, prefix, n);
      FewerLeft(used, tried, id);
      FreshNumber(used, prefix, n + 1, tried + {id})
  }

  ghost predicate NumberedBelow(tried: set<Str>, prefix: Str, n: nat) {
    forall t | t in tried :: exists k: nat | k < n :: t == Numbered(prefix, k)
  }

  lemma TriedNext(tried: set<Str>, prefix: Str, n: nat)
    requires NumberedBelow(tried, prefix, n)
    ensures Numbered(prefix, n) !in tried
    ensures NumberedBelow(tried + {Numbered(prefix, n)}, prefix, n + 1)
  {
    forall t | t in tried ensures t != Numbered(prefix, n) {
      var k: nat :| k < n && t == Numbered(prefix, k);
      if t == Numbered(prefix, n) {
        NumberedInjective(prefix, k, n);
      }
    }
  }

  lemma FewerLeft(used: set<Str>, tried: set<Str>, id: Str)
    requires id in used && id !in tried
    ensures |used - (tried + {id})| < |used - tried|
  {
    assert id in used - tried;
    SmallerSet(used - (tried + {id}), used - tried);
  }

  lemma SmallerSet(a: set<Str>, b: set<Str>)
    requires a < b
    ensures |a| < |b|
  {
    var x :| x in b && x !in a;
    assert a <= b - {x};
    SubsetSize(a, b - {x});
  }

  lemma {:induction false} SubsetSize(a: set<Str>, b: set<Str>)
    requires a <= b
    ensures |a| <= |b|
  {
    if a != {} {
      var x :| x in a;
      SubsetSize(a - {x}, b - {x});
    }
  }

  function UsedPrefixes(s: Spaces): set<Str> {
    set q | q in s.attrNS && s.attrNS[q] != []
  }

  /** The prefix for a URL without one, and the counter after the search. */
  function InventPrefix(p: Printer, url: Str, t: Tables): (Str, nat) {
    var prefix := BasePrefix(url, t);
    if Get(p.spaces.attrNS, prefix) == [] then (prefix, p.counter)
    else
      var n := FreshNumber(UsedPrefixes(p.spaces), prefix, p.counter + 1, {});
      (Numbered(prefix, n), n)
  }

  function CreateNSPrefix(p: Printer, url: Str, isAttr: bool, t: Tables): Printer {
    if url in p.spaces.attrPrefix then p
    else if !isAttr && url == p.spaces.defaultNS then p
    else if url == [] then (if p.spaces.defaultNS != [] then PushPrefix(p, [], []) else p)
    else if url == XML_URL then p
    else
      var (prefix, n) := InventPrefix(p, url, t);
      PushPrefix(p.(counter := n), prefix, url)
  }

  // ---------- Tags ----------

  function PrefixForNS(s: Spaces, url: Str, isAttr: bool): Str {
    if url == XML_URL then XML
    else if !isAttr && url == s.defaultNS then []
    else Get(s.attrPrefix, url)
  }

  function WrittenName(s: Spaces, n: Name, isAttr: bool): Name {
    Name(PrefixForNS(s, n.space, isAttr), n.local)
  }

  function DefineAll(p: Printer, attrs: seq<Attr>, ignoreNonEmptyDefault: bool): (Printer, bool)
    decreases |attrs|
  {
    if attrs == [] then (p, true)
    else
      match DefineNS(p, attrs[0], ignoreNonEmptyDefault)
      case Err => (p, false)
      case Ok(p') => DefineAll(p', attrs[1..], ignoreNonEmptyDefault)
  }

  function CreateAll(p: Printer, attrs: seq<Attr>, t: Tables): Printer
    decreases |attrs|
  {
    if attrs == [] then p
    else
      var n := attrs[0].name;
      CreateAll(if n.space != [] && !IsNamespace(n) then CreateNSPrefix(p, n.space, true, t) else p, attrs[1..], t)
  }

  function Declaration(s: Spaces, prefix: Str): Attr {
    Attr(if prefix == [] then Name([], XMLNS) else Name(XMLNS, prefix), NsForPrefix(s, prefix))
  }

  /** The declarations of the element on top, latest first. */
  function Declarations(s: Spaces, prefixes: seq<Undo>): seq<Attr>
    decreases |prefixes|
  {
    if prefixes == [] || prefixes[|prefixes| - 1].mark then []
    else [Declaration(s, prefixes[|prefixes| - 1].prefix)] + Declarations(s, prefixes[..|prefixes| - 1])
  }

  /** An attribute that is written as such: it has a name and does not declare a name space. */
  predicate IsPlain(a: Attr) {
    a.name.local != [] && !IsNamespace(a.name)
  }

  function Plain(attrs: seq<Attr>): seq<Attr> {
    if attrs == [] then [] else (if IsPlain(attrs[0]) then [attrs[0]] else []) + Plain(attrs[1..])
  }

  function WrittenAttrs(s: Spaces, attrs: seq<Attr>): seq<Attr> {
    if attrs == [] then [] else [Attr(WrittenName(s, attrs[0].name, true), attrs[0].value)] + WrittenAttrs(s, attrs[1..])
  }

  /** writeStart: the state after it, and the tag it writes. After an error the state is left as it is then. */
  function WriteStart(p: Printer, name: Name, attrs: seq<Attr>, t: Tables): (Printer, Result<Token>) {
    if name.local == [] then (p, Err)
    else
      var p1 := MarkPrefix(p.(tags := p.tags + [name]));
      var (p2, ok) := DefineAll(p1, attrs, name.space == []);
      if !ok then (p2, Err)
      else
        var p3 := CreateAll(p2, attrs, t);
        var p4 := CreateNSPrefix(p3, name.space, false, t);
        (p4, Ok(Start(WrittenName(p4.spaces, name, false), Declarations(p4.spaces, p4.prefixes) + WrittenAttrs(p4.spaces, Plain(attrs)))))
  }

  function WriteEnd(p: Printer, name: Name): (Printer, Result<Token>) {
    if name.local == [] || p.tags == [] || p.tags[|p.tags| - 1] != name then (p, Err)
    else
      (PopPrefix(p.(tags := p.tags[..|p.tags| - 1])), Ok(End(WrittenName(p.spaces, name, false))))
  }

  // ---------- What is between the tags ----------

  /** The start of a comment. */
  const COMMENT: Str := [X.LT, BANG, DASH, DASH]

  /** isValidDirective, from byte i on: brackets match outside quotes and comments. */
  predicate ValidFrom(dir: Str, i: nat, depth: nat, quote: Byte, comment: bool)
    requires i <= |dir|
    decreases |dir| - i
  {
    if i == |dir| then depth == 0 && quote == 0 && !comment
    else
      var c := dir[i];
      if comment then ValidFrom(dir, i + 1, depth, quote, !(c == X.GT && EndsComment(dir, i)))
      else if quote != 0 then ValidFrom(dir, i + 1, depth, if c == quote then 0 else quote, false)
      else if c == X.APOS || c == X.QUOT then ValidFrom(dir, i + 1, depth, c, false)
      else if c == X.LT then
        if BeginsComment(dir, i) then ValidFrom(dir, i + 1, depth, 0, true) else ValidFrom(dir, i + 1, depth + 1, 0, false)
      else if c == X.GT then depth > 0 && ValidFrom(dir, i + 1, depth - 1, 0, false)
      else ValidFrom(dir, i + 1, depth, 0, false)
  }

  predicate EndsComment(dir: Str, i: nat)
    requires i < |dir|
  {
    i >= 2 && dir[i - 2..i + 1] == END_COMMENT
  }

  predicate BeginsComment(dir: Str, i: nat)
    requires i < |dir|
  {
    i + 4 < |dir| && dir[i..i + 4] == COMMENT
  }

  /** What the encoder accepts; `buffered` tells whether there is something in its buffer. */
  predicate Encodes(t: Tables, data: Data, buffered: bool) {
    match data
    case CharData(_) => true
    case Comment(text) => !Contains(text, END_COMMENT)
    case ProcInst(target, inst) => !(target == XML && buffered) && IsName(t, target) && !Contains(inst, END_PROC_INST)
    case Directive(text) => ValidFrom(text, 0, 0, 0, false)
  }

  function EncodeToken(p: Printer, token: Token, t: Tables, buffered: bool): (Printer, Result<Token>) {
    match token
    case Start(name, attrs) => WriteStart(p, name, attrs, t)
    case End(name) => WriteEnd(p, name)
    case Other(data) => (p, if Encodes(t, data, buffered) then Ok(token) else Err)
  }

  /** A whole run of the encoder, up to the first error. When n tokens are still to come,
      buffered(n) tells whether there is something in the buffer. */
  function EncodeAll(p: Printer, ts: seq<Token>, t: Tables, buffered: nat -> bool): (Printer, Result<seq<Token>>)
    decreases |ts|
  {
    if ts == [] then (p, Ok([]))
    else
      var (p', w) := EncodeToken(p, ts[0], t, buffered(|ts|));
      if w.Err? then (p', Err)
      else
        var (p'', ws) := EncodeAll(p', ts[1..], t, buffered);
        if ws.Err? then (p'', Err) else (p'', Ok([w.value] + ws.value))
  }
}
