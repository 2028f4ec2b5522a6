/** The XML encoder as an object: its methods update the maps, the undo stack and the list of
    open tags in place, and each does what the printer's functions say. */
module XmlEncoder {
  import opened Utf8
  import opened XmlTypes
  import opened XmlNames
  import opened XmlRaw
  import opened XmlSpelling
  import X = XmlText
  import P = XmlPrinter

  lemma NothingSpelled(s: P.Spaces)
    ensures SpellAttrs(P.Declarations(s, [])) == []
  {
  }

  /** The declarations, the latest first. */
  lemma SpelledStep(s: P.Spaces, us: seq<P.Undo>, i: nat)
    requires 0 < i <= |us|
    ensures var u := us[i - 1];
            SpellAttrs(P.Declarations(s, us[..i])) ==
              if u.mark then [] else SpellAttr(P.Declaration(s, u.prefix)) + SpellAttrs(P.Declarations(s, us[..i - 1]))
  {
    assert us[..i][..i - 1] == us[..i - 1];
    var rest := P.Declarations(s, us[..i - 1]);
    assert !us[i - 1].mark ==> ([P.Declaration(s, us[i - 1].prefix)] + rest)[1..] == rest;
  }

  lemma WholeTag(start: Str, name: Str, decls: Str, attrs: Str)
    ensures start + [X.LT] + name + decls + attrs + [X.GT] == start + ([X.LT] + (name + ((decls + attrs) + [X.GT])))
  {
  }

  lemma AttrBytes(start: Str, name: Str, value: Str)
    ensures start + [SPACE] + name + value == start + ([SPACE] + (name + value))
  {
  }

  lemma ValueBytes(start: Str, value: Str)
    ensures start + [EQUALS] + [X.QUOT] + value + [X.QUOT] == start + ([EQUALS] + ([X.QUOT] + (value + [X.QUOT])))
  {
  }

  lemma EndBytes(start: Str, name: Str)
    ensures start + [X.LT, SLASH] + name + [X.GT] == start + ([X.LT, SLASH] + (name + [X.GT]))
  {
  }

  lemma InstBytes(start: Str, target: Str, tail: Str)
    ensures start + [X.LT, QUESTION] + target + tail + END_PROC_INST == start + ([X.LT, QUESTION] + (target + (tail + END_PROC_INST)))
  {
  }

  /** Attributes without a name, or that declare name spaces, are left out. */
  lemma PlainStep(s: P.Spaces, attrs: seq<Attr>, i: nat)
    requires i < |attrs|
    ensures SpellAttrs(P.WrittenAttrs(s, P.Plain(attrs[i..]))) ==
              (if P.IsPlain(attrs[i]) then SpellAttr(Attr(P.WrittenName(s, attrs[i].name, true), attrs[i].value)) else [])
              + SpellAttrs(P.WrittenAttrs(s, P.Plain(attrs[i + 1..])))
  {
    hide SpellAttr;
    var rest := P.Plain(attrs[i + 1..]);
    assert attrs[i..][0] == attrs[i] && attrs[i..][1..] == attrs[i + 1..];
    if P.IsPlain(attrs[i]) {
      var a, w := attrs[i], P.WrittenAttrs(s, rest);
      assert P.Plain(attrs[i..]) == [a] + rest && ([a] + rest)[1..] == rest;
      var x := Attr(P.WrittenName(s, a.name, true), a.value);
      assert P.WrittenAttrs(s, [a] + rest) == [x] + w && ([x] + w)[1..] == w;
    } else {
      assert P.Plain(attrs[i..]) == rest;
    }
  }

  class Encoder {
    var counter: nat
    var defaultNS: Str
    var attrNS: map<Str, Str>
    var attrPrefix: map<Str, Str>
    var prefixes: seq<P.Undo>
    var tags: seq<Name>
    /** The bytes written so far. */
    var out: Str

    function Value(): P.Printer
      reads this
    {
      P.Printer(counter, P.Spaces(defaultNS, attrNS, attrPrefix), prefixes, tags)
    }

    constructor ()
      ensures Value() == P.EMPTY && out == []
    {
      counter, defaultNS, attrNS, attrPrefix, prefixes, tags, out := 0, [], map[], map[], [], [], [];
    }

    method SetAttrPrefix(prefix: Str, url: Str)
      modifies this`defaultNS, this`attrNS, this`attrPrefix
      ensures Value() == old(Value()).(spaces := P.SetAttrPrefix(old(Value()).spaces, prefix, url))
    {
      if prefix == [] {
        defaultNS := url;
        return;
      }
      if url == [] {
        attrPrefix := attrPrefix - {Get(attrNS, prefix)};
        attrNS := attrNS - {prefix};
        return;
      }
      attrPrefix := attrPrefix - {Get(attrNS, prefix)};
      attrPrefix := attrPrefix[url := prefix];
      attrNS := attrNS[prefix := url];
    }

    method PushPrefix(prefix: Str, url: Str)
      modifies this`prefixes, this`defaultNS, this`attrNS, this`attrPrefix
      ensures Value() == P.PushPrefix(old(Value()), prefix, url)
    {
      prefixes := prefixes + [P.Undo(prefix, if prefix == [] then defaultNS else Get(attrNS, prefix), false)];
      SetAttrPrefix(prefix, url);
    }

    method PopPrefix()
      modifies this`prefixes, this`defaultNS, this`attrNS, this`attrPrefix
      ensures Value() == P.PopPrefix(old(Value()))
    {
      while |prefixes| > 0
        invariant P.PopPrefix(Value()) == P.PopPrefix(old(Value()))
        decreases |prefixes|
      {
        var u := prefixes[|prefixes| - 1];
        prefixes := prefixes[..|prefixes| - 1];
        if u.mark {
          return;
        }
        ghost var n := |prefixes|;
        SetAttrPrefix(u.prefix, u.url);
        assert |Value().prefixes| == n;
      }
    }

    /** defineNS; `ok` is false when the attribute redefines a prefix called xmlns. */
    method DefineNS(attr: Attr, ignoreNonEmptyDefault: bool) returns (ok: bool)
      modifies this`prefixes, this`defaultNS, this`attrNS, this`attrPrefix
      ensures var r := P.DefineNS(old(Value()), attr, ignoreNonEmptyDefault);
              ok == r.Ok? && Value() == if r.Ok? then r.value else old(Value())
    {
      var prefix := [];
      if attr.name.local == XMLNS {
        if attr.name.space != [] && attr.name.space != XML && attr.name.space != XML_URL {
          return false;
        }
      } else if attr.name.space == XMLNS && attr.name.local != [] {
        prefix := attr.name.local;
        if attr.value == [] {
          return true;
        }
      } else {
        return true;
      }
      if prefix == [] {
        if attr.value == defaultNS || (attr.value != [] && ignoreNonEmptyDefault) {
          return true;
        }
      } else if attr.value in attrPrefix {
        return true;
      }
      PushPrefix(prefix, attr.value);
      ok := true;
    }

    /** The first number after the counter that makes an unused prefix. */
    method NextUnused(prefix: Str) returns (id: Str)
      modifies this`counter
      ensures var n := P.FreshNumber(P.UsedPrefixes(old(Value()).spaces), prefix, old(counter) + 1, {});
              counter == n && id == P.Numbered(prefix, n)
    {
      ghost var used := P.UsedPrefixes(Value().spaces);
      ghost var n := P.FreshNumber(used, prefix, counter + 1, {});
      assert P.Numbered(prefix, n) !in used;
      counter := counter + 1;
      while Get(attrNS, P.Numbered(prefix, counter)) != []
        invariant old(counter) < counter <= n
        decreases n - counter
      {
        assert P.Numbered(prefix, counter) in used;
        counter := counter + 1;
      }
      assert counter < n ==> P.Numbered(prefix, counter) in used;
      id := P.Numbered(prefix, counter);
    }

    /** createNSPrefix. */
    method CreateNSPrefix(url: Str, isAttr: bool, t: Tables)
      modifies this`counter, this`prefixes, this`defaultNS, this`attrNS, this`attrPrefix
      ensures Value() == P.CreateNSPrefix(old(Value()), url, isAttr, t)
    {
      if url in attrPrefix || (!isAttr && url == defaultNS) {
        return;
      }
      if url == [] {
        if defaultNS != [] {
          PushPrefix([], []);
        }
        return;
      }
      if url == XML_URL {
        return;
      }
      var prefix := P.BasePrefix(url, t);
      if Get(attrNS, prefix) != [] {
        prefix := NextUnused(prefix);
      }
      PushPrefix(prefix, url);
    }

    // ---------- Bytes ----------

    method Write(bytes: Str)
      modifies this`out
      ensures out == old(out) + bytes
    {
      out := out + bytes;
    }

    /** writeName, once createNSPrefix has been called for its space. */
    method WriteName(n: Name, isAttr: bool)
      modifies this`out
      ensures out == old(out) + JoinName(P.WrittenName(Value().spaces, n, isAttr))
    {
      var prefix := P.PrefixForNS(Value().spaces, n.space, isAttr);
      if prefix != [] {
        Write(prefix);
        Write([COLON]);
      }
      Write(n.local);
    }

    /** What follows the name of an attribute. */
    method WriteValue(value: Str)
      modifies this`out
      ensures out == old(out) + ([EQUALS] + ([X.QUOT] + (X.Escaped(value, true) + [X.QUOT])))
    {
      ghost var start := out;
      var bytes := X.EscapeText(value, true);
      Write([EQUALS]);
      Write([X.QUOT]);
      Write(bytes);
      Write([X.QUOT]);
      ValueBytes(start, bytes);
    }

    method WriteAttr(a: Attr)
      modifies this`out
      ensures out == old(out) + SpellAttr(Attr(P.WrittenName(Value().spaces, a.name, true), a.value))
    {
      hide X.Escaped;
      Write([SPACE]);
      WriteName(a.name, true);
      WriteValue(a.value);
    }

    method WriteXmlns(prefix: Str)
      modifies this`out
      ensures out == old(out) + JoinName(if prefix == [] then Name([], XMLNS) else Name(XMLNS, prefix))
    {
      Write(XMLNS);
      if prefix != [] {
        Write([COLON]);
        Write(prefix);
      }
    }

    method WriteDeclaration(prefix: Str)
      modifies this`out
      ensures out == old(out) + SpellAttr(P.Declaration(Value().spaces, prefix))
    {
      hide X.Escaped, P.NsForPrefix, JoinName;
      ghost var start, a := out, P.Declaration(Value().spaces, prefix);
      Write([SPACE]);
      WriteXmlns(prefix);
      WriteValue(P.NsForPrefix(Value().spaces, prefix));
      AttrBytes(start, JoinName(a.name), [EQUALS] + ([X.QUOT] + (X.Escaped(a.value, true) + [X.QUOT])));
    }

    /** writeNamespaces: down the undo stack to the mark. */
    method WriteNamespaces()
      modifies this`out
      ensures out == old(out) + SpellAttrs(P.Declarations(Value().spaces, prefixes))
    {
      hide P.Declaration, P.Declarations, SpellAttr, SpellAttrs;
      ghost var s := Value().spaces;
      NothingSpelled(s);
      var i := |prefixes|;
      assert prefixes[..i] == prefixes;
      while i > 0
        invariant i <= |prefixes|
        invariant old(out) + SpellAttrs(P.Declarations(s, prefixes)) == out + SpellAttrs(P.Declarations(s, prefixes[..i]))
      {
        SpelledStep(s, prefixes, i);
        if prefixes[i - 1].mark {
          return;
        }
        X.Regroup(out, SpellAttr(P.Declaration(s, prefixes[i - 1].prefix)), SpellAttrs(P.Declarations(s, prefixes[..i - 1])));
        WriteDeclaration(prefixes[i - 1].prefix);
        i := i - 1;
      }
    }

    method WriteAttrs(attrs: seq<Attr>)
      modifies this`out
      ensures out == old(out) + SpellAttrs(P.WrittenAttrs(Value().spaces, P.Plain(attrs)))
    {
      hide SpellAttr;
      ghost var s := Value().spaces;
      assert attrs[0..] == attrs;
      for i := 0 to |attrs|
        invariant old(out) + SpellAttrs(P.WrittenAttrs(s, P.Plain(attrs))) == out + SpellAttrs(P.WrittenAttrs(s, P.Plain(attrs[i..])))
      {
        PlainStep(s, attrs, i);
        if P.IsPlain(attrs[i]) {
          X.Regroup(out, SpellAttr(Attr(P.WrittenName(s, attrs[i].name, true), attrs[i].value)), SpellAttrs(P.WrittenAttrs(s, P.Plain(attrs[i + 1..]))));
          WriteAttr(attrs[i]);
        }
      }
    }

    /** writeStart; after an error the name space state stays as far as it got. */
    method WriteStart(name: Name, attrs: seq<Attr>, t: Tables) returns (ok: bool)
      modifies this
      ensures var (p, w) := P.WriteStart(old(Value()), name, attrs, t);
              Value() == p && ok == w.Ok? && out == old(out) + if w.Ok? then Spell(w.value) else []
    {
      if name.local == [] {
        return false;
      }
      tags := tags + [name];
      prefixes := prefixes + [P.MARK];
      ghost var p1 := Value();
      var ignoreNonEmptyDefault := name.space == [];
      for i := 0 to |attrs|
        invariant P.DefineAll(Value(), attrs[i..], ignoreNonEmptyDefault) == P.DefineAll(p1, attrs, ignoreNonEmptyDefault)
        invariant out == old(out)
      {
        assert attrs[i..][0] == attrs[i] && attrs[i..][1..] == attrs[i + 1..];
        var defined := DefineNS(attrs[i], ignoreNonEmptyDefault);
        if !defined {
          return false;
        }
      }
      ghost var p2 := Value();
      for i := 0 to |attrs|
        invariant P.CreateAll(Value(), attrs[i..], t) == P.CreateAll(p2, attrs, t)
        invariant out == old(out)
      {
        assert attrs[i..][0] == attrs[i] && attrs[i..][1..] == attrs[i + 1..];
        var n := attrs[i].name;
        if n.space != [] && !IsNamespace(n) {
          CreateNSPrefix(n.space, true, t);
        }
      }
      CreateNSPrefix(name.space, false, t);
      WriteTag(name, attrs);
      ok := true;
    }

    /** The bytes of a start tag, once its name spaces are declared. */
    method WriteTag(name: Name, attrs: seq<Attr>)
      modifies this`out
      ensures var s := Value().spaces;
              out == old(out) + Spell(Start(P.WrittenName(s, name, false), P.Declarations(s, prefixes) + P.WrittenAttrs(s, P.Plain(attrs))))
    {
      hide P.Declarations, P.WrittenAttrs, P.Plain, SpellAttrs, P.WrittenName, JoinName;
      ghost var s, start := Value().spaces, out;
      ghost var decls, written := P.Declarations(s, prefixes), P.WrittenAttrs(s, P.Plain(attrs));
      SpellAppend(decls, written);
      WholeTag(start, JoinName(P.WrittenName(s, name, false)), SpellAttrs(decls), SpellAttrs(written));
      Write([X.LT]);
      WriteName(name, false);
      WriteNamespaces();
      WriteAttrs(attrs);
      Write([X.GT]);
    }

    /** writeEnd; the name is written before the element's declarations are undone. */
    method WriteEnd(name: Name) returns (ok: bool)
      modifies this
      ensures var (p, w) := P.WriteEnd(old(Value()), name);
              Value() == p && ok == w.Ok? && out == old(out) + if w.Ok? then Spell(w.value) else []
    {
      if name.local == [] || |tags| == 0 || tags[|tags| - 1] != name {
        return false;
      }
      tags := tags[..|tags| - 1];
      WriteEndTag(name);
      PopPrefix();
      ok := true;
    }

    method WriteEndTag(name: Name)
      modifies this`out
      ensures out == old(out) + Spell(End(P.WrittenName(Value().spaces, name, false)))
    {
      hide JoinName, P.WrittenName;
      ghost var start := out;
      Write([X.LT, SLASH]);
      WriteName(name, false);
      Write([X.GT]);
      EndBytes(start, JoinName(P.WrittenName(Value().spaces, name, false)));
    }

    /** isValidDirective. */
    method IsValidDirective(dir: Str) returns (ok: bool)
      ensures ok == P.ValidFrom(dir, 0, 0, 0, false)
    {
      var depth: nat, quote: Byte, comment := 0, 0, false;
      for i := 0 to |dir|
        invariant P.ValidFrom(dir, 0, 0, 0, false) == P.ValidFrom(dir, i, depth, quote, comment)
        invariant quote != 0 ==> !comment
      {
        var c := dir[i];
        if comment {
          if c == X.GT && P.EndsComment(dir, i) {
            comment := false;
          }
        } else if quote != 0 {
          if c == quote {
            quote := 0;
          }
        } else if c == X.APOS || c == X.QUOT {
          quote := c;
        } else if c == X.LT {
          if P.BeginsComment(dir, i) {
            comment := true;
          } else {
            depth := depth + 1;
          }
        } else if c == X.GT {
          if depth == 0 {
            return false;
          }
          depth := depth - 1;
        }
      }
      ok := depth == 0 && quote == 0 && !comment;
    }

    /** What is between the tags. */
    method EncodeData(data: Data, t: Tables, buffered: bool) returns (ok: bool)
      modifies this`out
      ensures ok == P.Encodes(t, data, buffered) && out == old(out) + if ok then SpellData(data) else []
    {
      hide X.Escaped, P.ValidFrom, IsName, Contains, Value;
      ok := true;
      match data
      case CharData(text) =>
        var bytes := X.EscapeText(text, false);
        Write(bytes);
      case Comment(text) =>
        if Contains(text, END_COMMENT) {
          return false;
        }
        Write(P.COMMENT);
        Write(text);
        Write(END_COMMENT);
      case ProcInst(target, inst) =>
        var name := CheckName(t, target);
        if (target == XML && buffered) || !name || Contains(inst, END_PROC_INST) {
          return false;
        }
        WriteInst(target, inst);
      case Directive(text) =>
        ok := IsValidDirective(text);
        if ok {
          Write([X.LT, BANG]);
          Write(text);
          Write([X.GT]);
        }
    }

    method WriteInst(target: Str, inst: Str)
      modifies this`out
      ensures out == old(out) + SpellData(ProcInst(target, inst))
    {
      ghost var start := out;
      Write([X.LT, QUESTION]);
      Write(target);
      ghost var before := out;
      if |inst| > 0 {
        Write([SPACE]);
        Write(inst);
      }
      assert out == before + if inst == [] then [] else [SPACE] + inst;
      Write(END_PROC_INST);
      InstBytes(start, target, if inst == [] then [] else [SPACE] + inst);
    }

    method EncodeToken(token: Token, t: Tables, buffered: bool) returns (ok: bool)
      modifies this
      ensures var (p, w) := P.EncodeToken(old(Value()), token, t, buffered);
              Value() == p && ok == w.Ok? && out == old(out) + if w.Ok? then Spell(w.value) else []
    {
      match token
      case Start(name, attrs) => ok := WriteStart(name, attrs, t);
      case End(name) => ok := WriteEnd(name);
      case Other(data) => ok := EncodeData(data, t, buffered);
    }
  }

  /** Some tokens have been written, and the rest is still to come. */
  ghost predicate Encoding(p0: P.Printer, ts: seq<Token>, t: Tables, buffered: nat -> bool, p: P.Printer, done: seq<Token>, rest: seq<Token>) {
    var (p', w) := P.EncodeAll(p, rest, t, buffered);
    P.EncodeAll(p0, ts, t, buffered) == (p', if w.Ok? then P.Ok(done + w.value) else P.Err)
  }

  lemma EncodingStep(p0: P.Printer, ts: seq<Token>, t: Tables, buffered: nat -> bool, p: P.Printer, done: seq<Token>, rest: seq<Token>)
    requires Encoding(p0, ts, t, buffered, p, done, rest) && rest != []
    ensures var (p', w) := P.EncodeToken(p, rest[0], t, buffered(|rest|));
            if w.Err? then P.EncodeAll(p0, ts, t, buffered) == (p', P.Err)
            else Encoding(p0, ts, t, buffered, p', done + [w.value], rest[1..])
  {
    hide P.EncodeToken;
    var (p', w) := P.EncodeToken(p, rest[0], t, buffered(|rest|));
    var (p'', ws) := P.EncodeAll(p', rest[1..], t, buffered);
    assert w.Ok? && ws.Ok? ==> done + ([w.value] + ws.value) == done + [w.value] + ws.value;
  }

  /** A caller that encodes tokens until one fails. */
  method EncodeTokens(e: Encoder, ts: seq<Token>, t: Tables, buffered: nat -> bool) returns (ok: bool)
    modifies e
    ensures var (p, w) := P.EncodeAll(old(e.Value()), ts, t, buffered);
            e.Value() == p && ok == w.Ok? && (ok ==> e.out == old(e.out) + SpellAll(w.value))
  {
    hide P.EncodeToken, Spell;
    ghost var p0 := e.Value();
    ghost var done: seq<Token> := [];
    var rest := ts;
    assert Encoding(p0, ts, t, buffered, p0, [], ts) by {
      assert P.EncodeAll(p0, ts, t, buffered).1.Ok? ==> [] + P.EncodeAll(p0, ts, t, buffered).1.value == P.EncodeAll(p0, ts, t, buffered).1.value;
    }
    while rest != []
      invariant e.out == old(e.out) + SpellAll(done) && Encoding(p0, ts, t, buffered, e.Value(), done, rest)
      decreases |rest|
    {
      EncodingStep(p0, ts, t, buffered, e.Value(), done, rest);
      ghost var w := P.EncodeToken(e.Value(), rest[0], t, buffered(|rest|)).1;
      ok := e.EncodeToken(rest[0], t, buffered(|rest|));
      if !ok {
        return;
      }
      SpellAllSnoc(done, w.value);
      done, rest := done + [w.value], rest[1..];
    }
    assert done + [] == done;
    ok := true;
  }
}
