/** The name space side of the XML decoder: translating prefixes, and the stack that undoes
    declarations and fences off an element. */
module XmlDecoder {
  import opened Wrappers
  import opened XmlTypes
  import opened XmlNames
  import R = XmlRaw

  /** Stack entries, latest first: an open element, an old translation of a prefix (with `ok`
      unset if there was none), or the mark that Token is to report the end of the input. */
  datatype Frame =
    | StkStart(name: Name)
    | StkNs(prefix: Str, url: Str, ok: bool)
    | StkEOF

  /** Syntax errors are told apart: bad markup, or an end tag that does not match. `Broken` is any
      error of the reader but the end of its input. */
  datatype Error = EOF | Malformed | Mismatch | Broken

  datatype Result<T> = Ok(value: T) | Err(error: Error)

  /** The bytes still to come are followed by the reader's error `tail`. `err` is sticky: after an
      error nothing more is read. The Unicode tables never change. */
  datatype Decoder = Decoder(stk: seq<Frame>, ns: map<Str, Str>, pending: seq<Name>, input: Str, tail: Error, err: Option<Error>, tables: Tables)

  function Start(input: Str, tail: Error, tables: Tables): Decoder {
    Decoder([], map[], [], input, tail, None, tables)
  }

  // ---------- Raw tokens ----------

  /** The error when the input ends inside a token. */
  function Unexpected(tail: Error): Error {
    if tail == EOF then Malformed else tail
  }

  /** rawToken: the made-up end of an empty element, or what is next in the input. `pending` holds
      the one name that is still to be closed. */
  function RawToken(d: Decoder): (Decoder, Result<Token>) {
    if d.err.Some? then (d, Err(d.err.value))
    else if d.pending != [] then (d.(pending := []), Ok(Token.End(d.pending[0])))
    else if d.input == [] then (d.(err := Some(d.tail)), Err(d.tail))
    else
      match R.ReadRaw(d.tables, d.input)
      case Syntax => (d.(err := Some(Malformed)), Err(Malformed))
      case Ended => (d.(err := Some(Unexpected(d.tail))), Err(Unexpected(d.tail)))
      case Got(raw, rest) =>
        var d' := d.(input := rest);
        (if raw.token.Start? && raw.empty then d'.(pending := [raw.token.name]) else d', Ok(raw.token))
  }

  // ---------- Translation ----------

  function Translate(ns: map<Str, Str>, n: Name, isElementName: bool): Name {
    if n.space == XMLNS then n
    else if n.space == [] && !isElementName then n
    else if n.space == [] && n.local == XMLNS then n
    else
      var space := if n.space == XML then XML_URL else n.space;
      if space in ns then n.(space := ns[space]) else n.(space := space)
  }

  function TranslateAttrs(ns: map<Str, Str>, attrs: seq<Attr>): seq<Attr> {
    if attrs == [] then [] else [attrs[0].(name := Translate(ns, attrs[0].name, false))] + TranslateAttrs(ns, attrs[1..])
  }

  /** The prefix that an attribute declares, if it declares one. */
  predicate Declares(a: Attr) {
    a.name.space == XMLNS || (a.name.space == [] && a.name.local == XMLNS)
  }

  function DeclaredPrefix(a: Attr): Str {
    if a.name.space == XMLNS then a.name.local else []
  }

  function PushNs(stk: seq<Frame>, ns: map<Str, Str>, prefix: Str): seq<Frame> {
    [StkNs(prefix, Get(ns, prefix), prefix in ns)] + stk
  }

  /** The declarations in a start tag, applied in order. */
  function DeclareAll(stk: seq<Frame>, ns: map<Str, Str>, attrs: seq<Attr>): (seq<Frame>, map<Str, Str>)
    decreases |attrs|
  {
    if attrs == [] then (stk, ns)
    else if Declares(attrs[0]) then
      var q := DeclaredPrefix(attrs[0]);
      DeclareAll(PushNs(stk, ns, q), ns[q := attrs[0].value], attrs[1..])
    else DeclareAll(stk, ns, attrs[1..])
  }

  /** Undo translations until an element or a fence is on top. */
  function UndoNs(stk: seq<Frame>, ns: map<Str, Str>): (seq<Frame>, map<Str, Str>)
    decreases |stk|
  {
    if stk == [] || !stk[0].StkNs? then (stk, ns)
    else UndoNs(stk[1..], if stk[0].ok then ns[stk[0].prefix := stk[0].url] else ns - {stk[0].prefix})
  }

  // ---------- Tokens ----------

  function StartElement(d: Decoder, name: Name, attrs: seq<Attr>): (Decoder, Token) {
    var (stk, ns) := DeclareAll(d.stk, d.ns, attrs);
    var name' := Translate(ns, name, true);
    (d.(stk := [StkStart(name')] + stk, ns := ns), Token.Start(name', TranslateAttrs(ns, attrs)))
  }

  /** An end tag that does not match takes the top entry off all the same. */
  function EndElement(d: Decoder, name: Name): (Decoder, Result<Token>) {
    var name' := Translate(d.ns, name, true);
    if d.stk == [] then (d.(err := Some(Mismatch)), Err(Mismatch))
    else if d.stk[0] != StkStart(name') then (d.(stk := d.stk[1..], err := Some(Mismatch)), Err(Mismatch))
    else
      var (stk, ns) := UndoNs(d.stk[1..], d.ns);
      (d.(stk := stk, ns := ns), Ok(Token.End(name')))
  }

  /** Token, for a strict decoder. */
  function NextToken(d: Decoder): (Decoder, Result<Token>) {
    if d.stk != [] && d.stk[0].StkEOF? then (d, Err(EOF))
    else
      var (d', r) := RawToken(d);
      if r.Err? then (d', r)
      else
        match r.value
        case Start(name, attrs) =>
          var (d'', t) := StartElement(d', name, attrs);
          (d'', Ok(t))
        case End(name) => EndElement(d', name)
        case Other(_) => (d', r)
  }

  /** Every token reads some of the input or the pending end. */
  function Left(d: Decoder): nat {
    2 * |d.input| + |d.pending|
  }

  lemma TokenShortens(d: Decoder)
    requires NextToken(d).1.Ok?
    ensures Left(NextToken(d).0) < Left(d)
  {
    RawShortens(d);
  }

  lemma RawShortens(d: Decoder)
    requires RawToken(d).1.Ok?
    ensures Left(RawToken(d).0) < Left(d)
  {
  }

  /** Every token up to the first error, and the error. */
  function ReadAll(d: Decoder): (seq<Token>, Error)
    decreases Left(d)
  {
    var (d', r) := NextToken(d);
    if r.Err? then ([], r.error)
    else
      TokenShortens(d);
      var (ts, e) := ReadAll(d');
      ([r.value] + ts, e)
  }

  /** Skip: read up to the end of the element, skipping the elements in it. */
  function Skip(d: Decoder): (r: (Decoder, Option<Error>))
    ensures r.1.None? ==> Left(r.0) < Left(d)
    decreases Left(d)
  {
    var (d', r) := NextToken(d);
    if r.Err? then (d', Some(r.error))
    else
      TokenShortens(d);
      match r.value
      case Start(_, _) =>
        var (d'', e) := Skip(d');
        if e.Some? then (d'', e) else Skip(d'')
      case End(_) => (d', None)
      case Other(_) => Skip(d')
  }

  // ---------- The fence ----------

  predicate InOpenElement(stk: seq<Frame>) {
    exists i :: 0 <= i < |stk| && stk[i].StkStart?
  }

  /** Where the records of the innermost open element end. */
  function ElementEnd(stk: seq<Frame>): (i: nat)
    ensures i <= |stk|
  {
    if stk == [] then 0
    else if stk[0].StkStart? then 1 + NsRun(stk[1..])
    else 1 + ElementEnd(stk[1..])
  }

  function NsRun(stk: seq<Frame>): (i: nat)
    ensures i <= |stk|
    ensures forall j | 0 <= j < i :: stk[j].StkNs?
    ensures i < |stk| ==> !stk[i].StkNs?
  {
    if stk == [] || !stk[0].StkNs? then 0 else 1 + NsRun(stk[1..])
  }

  function PushEOF(d: Decoder): Decoder
    requires InOpenElement(d.stk)
  {
    var i := ElementEnd(d.stk);
    d.(stk := d.stk[..i] + [StkEOF] + d.stk[i..])
  }

  function PopEOF(d: Decoder): (Decoder, bool) {
    if d.stk == [] || !d.stk[0].StkEOF? then (d, false) else (d.(stk := d.stk[1..]), true)
  }
}
