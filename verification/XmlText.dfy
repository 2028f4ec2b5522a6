/** Character data: how the encoder escapes it and the decoder reads it. */
module XmlText {
  import opened Wrappers
  import opened Utf8

  const TAB := 9
  const NL := 10
  const CR := 13
  const QUOT := 34
  const HASH := 35
  const AMP := 38
  const APOS := 39
  const SEMI := 59
  const LT := 60
  const GT := 62
  const BRACKET := 93

  /** isInCharacterRange. */
  predicate InRange(r: int) {
    r == 0x09 || r == 0x0A || r == 0x0D || 0x20 <= r <= 0xDF77 || 0xE000 <= r <= 0xFFFD || 0x10000 <= r <= 0x10FFFF
  }

  // ---------- Escaping ----------

  /** What is written for a rune in place of its own bytes; None if it is written as it is. */
  function Escape(r: int, width: nat, newline: bool): Option<seq<Byte>> {
    if r == QUOT then Some(Bytes("&#34;"))
    else if r == APOS then Some(Bytes("&#39;"))
    else if r == AMP then Some(Bytes("&amp;"))
    else if r == LT then Some(Bytes("&lt;"))
    else if r == GT then Some(Bytes("&gt;"))
    else if r == TAB then Some(Bytes("&#x9;"))
    else if r == NL then (if newline then Some(Bytes("&#xA;")) else None)
    else if r == CR then Some(Bytes("&#xD;"))
    else if !InRange(r) || (r == BAD_RUNE && width == 1) then Some(BAD)
    else None
  }

  /** What the first rune is written as. */
  function EscapedRune(s: seq<Byte>, newline: bool): seq<Byte>
    requires s != []
  {
    var (r, width) := Decode(s);
    var e := Escape(r, width, newline);
    if e.Some? then e.value else s[..width]
  }

  function Escaped(s: seq<Byte>, newline: bool): seq<Byte>
    decreases |s|
  {
    if s == [] then [] else EscapedRune(s, newline) + Escaped(s[Decode(s).1..], newline)
  }

  /** The text up to `last` has been written, and what follows up to i is to be copied. */
  ghost predicate Written(s: seq<Byte>, w: seq<Byte>, last: nat, i: nat, newline: bool) {
    && last <= i <= |s|
    && Escaped(s, newline) == w + s[last..i] + Escaped(s[i..], newline)
  }

  lemma CopyRune(s: seq<Byte>, w: seq<Byte>, last: nat, i: nat, newline: bool)
    requires Written(s, w, last, i, newline) && i < |s|
    requires Escape(Decode(s[i..]).0, Decode(s[i..]).1, newline).None?
    ensures Written(s, w, last, i + Decode(s[i..]).1, newline)
  {
    hide Decode, Escape, Escaped;
    var j := i + Decode(s[i..]).1;
    CopiedStep(s, i, newline);
    Regroup(w + s[last..i], s[i..j], Escaped(s[j..], newline));
    Regroup(w, s[last..i], s[i..j]);
    assert s[last..i] + s[i..j] == s[last..j];
  }

  lemma CopiedStep(s: seq<Byte>, i: nat, newline: bool)
    requires i < |s| && Escape(Decode(s[i..]).0, Decode(s[i..]).1, newline).None?
    ensures var j := i + Decode(s[i..]).1;
            Escaped(s[i..], newline) == s[i..j] + Escaped(s[j..], newline)
  {
    hide Decode, Escape;
    var j := i + Decode(s[i..]).1;
    assert EscapedRune(s[i..], newline) == s[i..j];
    assert s[i..][Decode(s[i..]).1..] == s[j..];
  }

  lemma ReplaceRune(s: seq<Byte>, w: seq<Byte>, last: nat, i: nat, newline: bool)
    requires Written(s, w, last, i, newline) && i < |s|
    requires Escape(Decode(s[i..]).0, Decode(s[i..]).1, newline).Some?
    ensures var j := i + Decode(s[i..]).1;
            Written(s, w + s[last..i] + EscapedRune(s[i..], newline), j, j, newline)
  {
    var j, e, rest := i + Decode(s[i..]).1, EscapedRune(s[i..], newline), Escaped(s[i..][Decode(s[i..]).1..], newline);
    assert s[i..][Decode(s[i..]).1..] == s[j..];
    assert w + s[last..i] + (e + rest) == w + s[last..i] + e + s[j..j] + rest;
  }

  /** escapeText: stretches of plain bytes are written in one piece. */
  method EscapeText(s: seq<Byte>, newline: bool) returns (w: seq<Byte>)
    ensures w == Escaped(s, newline)
  {
    w := [];
    var last: nat, i: nat := 0, 0;
    assert s[0..] == s;
    while i < |s|
      invariant Written(s, w, last, i, newline)
    {
      w, last, i := WriteRune(s, w, last, i, newline);
    }
    w := w + s[last..];
  }

  /** One round of the loop. */
  method WriteRune(s: seq<Byte>, w0: seq<Byte>, last0: nat, i0: nat, newline: bool) returns (w: seq<Byte>, last: nat, i: nat)
    requires Written(s, w0, last0, i0, newline) && i0 < |s|
    ensures Written(s, w, last, i, newline) && i > i0
  {
    hide Escaped, Escape, Decode;
    w, last := w0, last0;
    var (r, width) := Decode(s[i0..]);
    var esc := Escape(r, width, newline);
    i := i0 + width;
    if esc.None? {
      CopyRune(s, w, last, i0, newline);
      return;
    }
    ReplaceRune(s, w, last, i0, newline);
    w := w + s[last..i0] + esc.value;
    last := i;
  }

  // ---------- Reading ----------

  predicate IsDigit(b: Byte, base: nat) {
    0x30 <= b <= 0x39 || (base == 16 && (0x61 <= b <= 0x66 || 0x41 <= b <= 0x46))
  }

  function DigitValue(b: Byte): nat
    requires IsDigit(b, 16)
  {
    if b <= 0x39 then b - 0x30 else if b <= 0x46 then b - 0x41 + 10 else b - 0x61 + 10
  }

  predicate IsNameByte(b: Byte) {
    0x41 <= b <= 0x5A || 0x61 <= b <= 0x7A || 0x30 <= b <= 0x39 || b == 0x5F || b == 0x3A || b == 0x2E || b == 0x2D || b >= 0x80
  }

  function DigitRun(s: seq<Byte>, base: nat): (n: nat)
    ensures n <= |s| && forall i | 0 <= i < n :: IsDigit(s[i], base)
  {
    if s == [] || !IsDigit(s[0], base) then 0 else 1 + DigitRun(s[1..], base)
  }

  function NameRun(s: seq<Byte>): (n: nat)
    ensures n <= |s|
  {
    if s == [] || !IsNameByte(s[0]) then 0 else 1 + NameRun(s[1..])
  }

  function Value(s: seq<Byte>, base: nat): nat
    requires forall i | 0 <= i < |s| :: IsDigit(s[i], base)
  {
    if s == [] then 0
    else
      assert IsDigit(s[|s| - 1], base);
      Value(s[..|s| - 1], base) * base + DigitValue(s[|s| - 1])
  }

  /** The entities every document has. */
  function Entity(name: seq<Byte>): Option<seq<Byte>> {
    if name == Bytes("lt") then Some([LT])
    else if name == Bytes("gt") then Some([GT])
    else if name == Bytes("amp") then Some([AMP])
    else if name == Bytes("apos") then Some([APOS])
    else if name == Bytes("quot") then Some([QUOT])
    else None
  }

  /** `Cut` if the input ends too early. */
  datatype Reference = Reference(text: seq<Byte>, rest: seq<Byte>) | BadReference | Cut

  /** A character expression, after its ampersand. */
  function ReadReference(s: seq<Byte>): (r: Reference)
    ensures r.Reference? ==> |r.rest| < |s|
  {
    if s == [] then Cut
    else if s[0] == HASH then
      if |s| > 1 && s[1] == 'x' as int then ReadNumber(s[2..], 16) else ReadNumber(s[1..], 10)
    else
      var n := NameRun(s);
      if n == |s| then Cut
      else if s[n] != SEMI || Entity(s[..n]).None? then BadReference
      else Reference(Entity(s[..n]).value, s[n + 1..])
  }

  function ReadNumber(s: seq<Byte>, base: nat): (r: Reference)
    ensures r.Reference? ==> |r.rest| < |s|
  {
    var n := DigitRun(s, base);
    if n == |s| then Cut
    else if s[n] != SEMI || n == 0 || Value(s[..n], base) > 0x10FFFF then BadReference
    else Reference(Encode(Value(s[..n], base)), s[n + 1..])
  }

  /** No quote is looked for. */
  const NO_QUOTE := -1

  datatype Scanned = Scanned(data: seq<Byte>, rest: seq<Byte>) | BadText | CutText

  /** The loop of text: what has been put into the buffer, and the last two bytes read. */
  function Scan(s: seq<Byte>, buf: seq<Byte>, b0: Byte, b1: Byte, quote: int, cdata: bool): (r: Scanned)
    ensures r.Scanned? ==> |r.rest| <= |s|
    decreases |s|
  {
    if s == [] then (if cdata then CutText else Scanned(buf, []))
    else
      var b := s[0];
      if b0 == BRACKET && b1 == BRACKET && b == GT then
        if cdata then Scanned(buf[..if |buf| >= 2 then |buf| - 2 else 0], s[1..]) else BadText
      else if b == LT && !cdata then
        if quote >= 0 then BadText else Scanned(buf, s)
      else if quote >= 0 && b == quote then Scanned(buf, s[1..])
      else if b == AMP && !cdata then
        var r := ReadReference(s[1..]);
        if r.Cut? then CutText else if r.BadReference? then BadText else Scan(r.rest, buf + r.text, 0, 0, quote, cdata)
      else
        var out: seq<Byte> := if b == CR then [NL] else if b1 == CR && b == NL then [] else [b];
        Scan(s[1..], buf + out, b1, b, quote, cdata)
  }

  /** Every rune is one, and in range. */
  predicate AllInRange(s: seq<Byte>)
    decreases |s|
  {
    s == [] || (!IsBad(s) && InRange(Decode(s).0) && AllInRange(s[Decode(s).1..]))
  }

  /** What text returns. */
  function TextOf(s: seq<Byte>, quote: int, cdata: bool): (r: Scanned)
    ensures r.Scanned? ==> |r.rest| <= |s|
  {
    var r := Scan(s, [], 0, 0, quote, cdata);
    if r.Scanned? && !AllInRange(r.data) then BadText else r
  }

  /** The digits of a numeric character expression, read byte by byte. */
  method ReadDigits(s: seq<Byte>, base: nat) returns (n: nat)
    ensures n == DigitRun(s, base) && n <= |s|
  {
    n := 0;
    while n < |s| && IsDigit(s[n], base)
      invariant n <= |s| && DigitRun(s, base) == n + DigitRun(s[n..], base)
    {
      assert s[n..][1..] == s[n + 1..];
      n := n + 1;
    }
  }

  method ReadName(s: seq<Byte>) returns (n: nat)
    ensures n == NameRun(s) && n <= |s|
  {
    n := 0;
    while n < |s| && IsNameByte(s[n])
      invariant n <= |s| && NameRun(s) == n + NameRun(s[n..])
    {
      assert s[n..][1..] == s[n + 1..];
      n := n + 1;
    }
  }

  /** ParseUint, on digits. */
  method ParseUint(s: seq<Byte>, base: nat) returns (v: nat)
    requires forall i | 0 <= i < |s| :: IsDigit(s[i], base)
    ensures v == Value(s, base)
  {
    v := 0;
    var i := 0;
    while i < |s|
      invariant i <= |s| && v == Value(s[..i], base)
    {
      assert s[..i + 1][..i] == s[..i] && IsDigit(s[i], base);
      v := v * base + DigitValue(s[i]);
      i := i + 1;
    }
    assert s[..i] == s;
  }

  method ReadCharacter(s: seq<Byte>) returns (r: Reference)
    ensures r == ReadReference(s)
  {
    if s == [] {
      return Cut;
    }
    if s[0] == HASH {
      var base, t := 10, s[1..];
      if t != [] && t[0] == 'x' as int {
        base, t := 16, s[2..];
      }
      var n := ReadDigits(t, base);
      if n == |t| {
        return Cut;
      }
      if t[n] != SEMI || n == 0 {
        return BadReference;
      }
      var v := ParseUint(t[..n], base);
      r := if v > 0x10FFFF then BadReference else Reference(Encode(v), t[n + 1..]);
    } else {
      var n := ReadName(s);
      if n == |s| {
        return Cut;
      }
      if s[n] != SEMI {
        return BadReference;
      }
      var entity := Entity(s[..n]);
      r := if entity.None? then BadReference else Reference(entity.value, s[n + 1..]);
    }
  }

  /** text: the reading loop, and then a look at every rune. */
  method ReadText(s: seq<Byte>, quote: int, cdata: bool) returns (r: Scanned)
    ensures r == TextOf(s, quote, cdata)
  {
    var rest: seq<Byte>, buf: seq<Byte> := s, [];
    var b0: Byte, b1: Byte := 0, 0;
    var more := true;
    while rest != [] && more
      invariant Scan(s, [], 0, 0, quote, cdata) == if more then Scan(rest, buf, b0, b1, quote, cdata) else Scanned(buf, rest)
      decreases |rest|, more
    {
      var b := rest[0];
      if b0 == BRACKET && b1 == BRACKET && b == GT {
        if !cdata {
          return BadText;
        }
        buf, rest, more := buf[..if |buf| >= 2 then |buf| - 2 else 0], rest[1..], false;
      } else if b == LT && !cdata {
        if quote >= 0 {
          return BadText;
        }
        more := false;
      } else if quote >= 0 && b == quote {
        rest, more := rest[1..], false;
      } else if b == AMP && !cdata {
        var c := ReadCharacter(rest[1..]);
        if c.Cut? {
          return CutText;
        }
        if c.BadReference? {
          return BadText;
        }
        buf, rest := buf + c.text, c.rest;
        b0, b1 := 0, 0;
      } else {
        var out: seq<Byte> := if b == CR then [NL] else if b1 == CR && b == NL then [] else [b];
        buf, rest := buf + out, rest[1..];
        b0, b1 := b1, b;
      }
    }
    if more && cdata {
      return CutText;
    }
    var inspect: seq<Byte> := buf;
    while inspect != []
      invariant AllInRange(buf) == AllInRange(inspect)
      decreases |inspect|
    {
      var (rune, size) := Decode(inspect);
      if (rune == BAD_RUNE && size == 1) || !InRange(rune) {
        return BadText;
      }
      inspect := inspect[size..];
    }
    r := Scanned(buf, rest);
  }

  // ---------- The round trip ----------

  /** The text, with a replacement rune for everything that XML has no room for. */
  function Cleaned(s: seq<Byte>): seq<Byte>
    decreases |s|
  {
    if s == [] then [] else CleanedRune(s) + Cleaned(s[Decode(s).1..])
  }

  function CleanedRune(s: seq<Byte>): seq<Byte>
    requires s != []
  {
    var (r, width) := Decode(s);
    if IsBad(s) || !InRange(r) then BAD else s[..width]
  }

  lemma {:induction false} CleanedInRange(s: seq<Byte>)
    ensures AllInRange(Cleaned(s))
    decreases |s|
  {
    if s != [] {
      var (r, width) := Decode(s);
      var c := Cleaned(s[width..]);
      CleanedInRange(s[width..]);
      if IsBad(s) || !InRange(r) {
        assert (BAD + c)[3..] == c;
        assert Decode(BAD + c) == (BAD_RUNE, 3);
      } else {
        DecodeIsLocal(s, c);
        assert (s[..width] + c)[width..] == c;
      }
    }
  }

  /** Text that is in range already stays as it is. */
  lemma {:induction false} CleanedIsIdentity(s: seq<Byte>)
    ensures Cleaned(s) == s <==> AllInRange(s)
    decreases |s|
  {
    if s != [] {
      CleanedIsIdentity(s[Decode(s).1..]);
      CleanedInRange(s);
    }
  }

  /** Bytes that are copied one by one. */
  predicate Copied(b: Byte, quote: int) {
    b != LT && b != AMP && b != CR && b != GT && b != quote
  }

  lemma {:induction false} ScanCopies(x: seq<Byte>, t: seq<Byte>, buf: seq<Byte>, b0: Byte, b1: Byte, quote: int) returns (c0: Byte, c1: Byte)
    requires (forall i | 0 <= i < |x| :: Copied(x[i], quote)) && b1 != CR
    ensures Scan(x + t, buf, b0, b1, quote, false) == Scan(t, buf + x, c0, c1, quote, false) && c1 != CR
    decreases |x|
  {
    c0, c1 := b0, b1;
    if x == [] {
      assert x + t == t && buf + x == buf;
    } else {
      assert (x + t)[0] == x[0] && (x + t)[1..] == x[1..] + t;
      c0, c1 := ScanCopies(x[1..], t, buf + [x[0]], b1, x[0], quote);
      assert buf + [x[0]] + x[1..] == buf + x;
    }
  }

  /** A reference that reads as a byte. */
  lemma ScanReference(s: seq<Byte>, b: Byte, t: seq<Byte>, buf: seq<Byte>, b0: Byte, b1: Byte, quote: int)
    requires s != [] && s[0] == AMP && quote != AMP && ReadReference(s[1..]) == Reference([b], t)
    ensures Scan(s, buf, b0, b1, quote, false) == Scan(t, buf + [b], 0, 0, quote, false)
  {
  }

  lemma NamedReference(name: seq<Byte>, b: Byte, t: seq<Byte>)
    requires Entity(name) == Some([b])
    ensures ReadReference(name + [SEMI] + t) == Reference([b], t)
  {
    var s := name + [SEMI] + t;
    assert s[..|name|] == name && s[|name| + 1..] == t;
    NameRunIs(name, [SEMI] + t);
    assert s == name + ([SEMI] + t);
  }

  lemma {:induction false} NameRunIs(name: seq<Byte>, t: seq<Byte>)
    requires (forall i | 0 <= i < |name| :: IsNameByte(name[i])) && t != [] && !IsNameByte(t[0])
    ensures NameRun(name + t) == |name|
  {
    if name == [] {
      assert name + t == t;
    } else {
      assert (name + t)[1..] == name[1..] + t;
      NameRunIs(name[1..], t);
    }
  }

  lemma NumberReference(digits: seq<Byte>, base: nat, r: nat, t: seq<Byte>)
    requires (forall i | 0 <= i < |digits| :: IsDigit(digits[i], base)) && digits != [] && Value(digits, base) == r <= 0x10FFFF
    ensures ReadNumber(digits + [SEMI] + t, base) == Reference(Encode(r), t)
  {
    var s := digits + [SEMI] + t;
    DigitRunIs(digits, [SEMI] + t, base);
    assert s == digits + ([SEMI] + t);
    assert s[..|digits|] == digits && s[|digits| + 1..] == t;
  }

  lemma {:induction false} DigitRunIs(digits: seq<Byte>, t: seq<Byte>, base: nat)
    requires (forall i | 0 <= i < |digits| :: IsDigit(digits[i], base)) && t != [] && !IsDigit(t[0], base)
    ensures DigitRun(digits + t, base) == |digits|
  {
    if digits == [] {
      assert digits + t == t;
    } else {
      assert (digits + t)[1..] == digits[1..] + t;
      DigitRunIs(digits[1..], t, base);
    }
  }

  predicate IsEscape(e: seq<Byte>, r: Byte, t: seq<Byte>) {
    e != [] && e[0] == AMP && ReadReference(e[1..] + t) == Reference([r], t)
  }

  lemma NamedEscape(e: seq<Byte>, name: seq<Byte>, r: Byte, t: seq<Byte>)
    requires e == [AMP] + name + [SEMI] && Entity(name) == Some([r])
    ensures IsEscape(e, r, t)
  {
    assert e[1..] + t == name + [SEMI] + t;
    NamedReference(name, r, t);
  }

  lemma DecimalEscape(e: seq<Byte>, d: nat, r: Byte, t: seq<Byte>)
    requires d < 10 && e == [AMP, HASH, 0x33, 0x30 + d, SEMI] && r == 30 + d
    ensures IsEscape(e, r, t)
  {
    var s := e[1..] + t;
    var digits: seq<Byte> := [0x33, 0x30 + d];
    QuoteValue(d);
    assert s[1..] == digits + [SEMI] + t && s[0] == HASH && s[1] == 0x33;
    NumberReference(digits, 10, r, t);
  }

  lemma HexEscape(e: seq<Byte>, digit: Byte, r: Byte, t: seq<Byte>)
    requires e == [AMP, HASH, 'x' as int, digit, SEMI] && IsDigit(digit, 16) && DigitValue(digit) == r
    ensures IsEscape(e, r, t)
  {
    var s := e[1..] + t;
    assert s[2..] == [digit] + [SEMI] + t && s[0] == HASH && s[1] == 'x' as int;
    assert [digit][..0] == [];
    NumberReference([digit], 16, r, t);
  }

  /** Every escape but the replacement rune reads as the byte it stands for. */
  lemma EscapeReads(r: Byte, width: nat, newline: bool, t: seq<Byte>)
    requires Escape(r, width, newline).Some? && r in [QUOT, APOS, AMP, LT, GT, TAB, NL, CR]
    ensures IsEscape(Escape(r, width, newline).value, r, t)
  {
    var e := Escape(r, width, newline).value;
    assert Bytes("lt")[0] == 'l' as int && Bytes("gt")[0] == 'g' as int;
    if r == AMP {
      NamedEscape(e, Bytes("amp"), r, t);
    } else if r == LT {
      NamedEscape(e, Bytes("lt"), r, t);
    } else if r == GT {
      NamedEscape(e, Bytes("gt"), r, t);
    } else if r == QUOT || r == APOS {
      DecimalEscape(e, if r == QUOT then 4 else 9, r, t);
    } else {
      HexEscape(e, if r == TAB then '9' as int else if r == NL then 'A' as int else 'D' as int, r, t);
    }
  }

  lemma QuoteValue(d: nat)
    requires d < 10
    ensures IsDigit(0x33, 10) && IsDigit(0x30 + d, 10) && Value([0x33, 0x30 + d], 10) == 30 + d
  {
    var s: seq<Byte> := [0x33, 0x30 + d];
    assert s[..1] == [0x33] && [0x33][..0] == [];
    assert Value([0x33], 10) == 3;
  }

  /** Reading escaped text puts the text into the buffer. */
  lemma {:induction false} ScanEscaped(s: seq<Byte>, newline: bool, t: seq<Byte>, buf: seq<Byte>, b0: Byte, b1: Byte, quote: int)
      returns (c0: Byte, c1: Byte)
    requires b1 != CR && quote in [NO_QUOTE, QUOT, APOS]
    ensures Scan(Escaped(s, newline) + t, buf, b0, b1, quote, false) == Scan(t, buf + Cleaned(s), c0, c1, quote, false) && c1 != CR
    decreases |s|
  {
    c0, c1 := b0, b1;
    if s == [] {
      assert Escaped(s, newline) + t == t && buf + Cleaned(s) == buf;
    } else {
      var width, x, c := Decode(s).1, EscapedRune(s, newline), CleanedRune(s);
      var rest, more := Escaped(s[width..], newline), Cleaned(s[width..]);
      var a0, a1 := ScanRune(s, newline, rest + t, buf, b0, b1, quote);
      c0, c1 := ScanEscaped(s[width..], newline, t, buf + c, a0, a1, quote);
      Regroup(x, rest, t);
      Regroup(buf, c, more);
    }
  }

  lemma Regroup(a: seq<Byte>, b: seq<Byte>, c: seq<Byte>)
    ensures a + (b + c) == a + b + c
  {
  }

  lemma ScanRune(s: seq<Byte>, newline: bool, t: seq<Byte>, buf: seq<Byte>, b0: Byte, b1: Byte, quote: int)
      returns (c0: Byte, c1: Byte)
    requires s != [] && b1 != CR && quote in [NO_QUOTE, QUOT, APOS]
    ensures Scan(EscapedRune(s, newline) + t, buf, b0, b1, quote, false) == Scan(t, buf + CleanedRune(s), c0, c1, quote, false)
    ensures c1 != CR
  {
    var (r, width) := Decode(s);
    var e := Escape(r, width, newline);
    if e.Some? && r in [QUOT, APOS, AMP, LT, GT, TAB, NL, CR] {
      EscapeReads(r, width, newline, t);
      assert s[..width] == [r];
      ScanEscape(e.value, r, t, buf, b0, b1, quote);
      c0, c1 := 0, 0;
    } else {
      CopiedRune(s, newline, quote);
      c0, c1 := ScanCopies(CleanedRune(s), t, buf, b0, b1, quote);
    }
  }

  lemma ScanEscape(e: seq<Byte>, r: Byte, t: seq<Byte>, buf: seq<Byte>, b0: Byte, b1: Byte, quote: int)
    requires IsEscape(e, r, t) && quote != AMP
    ensures Scan(e + t, buf, b0, b1, quote, false) == Scan(t, buf + [r], 0, 0, quote, false)
  {
    assert (e + t)[0] == e[0] && (e + t)[1..] == e[1..] + t;
    ScanReference(e + t, r, t, buf, b0, b1, quote);
  }

  /** A rune without an escape of its own is written in bytes that are copied. */
  lemma CopiedRune(s: seq<Byte>, newline: bool, quote: int)
    requires s != [] && quote in [NO_QUOTE, QUOT, APOS]
    requires var (r, width) := Decode(s); Escape(r, width, newline).None? || r !in [QUOT, APOS, AMP, LT, GT, TAB, NL, CR]
    ensures CleanedRune(s) == EscapedRune(s, newline) && forall i | 0 <= i < |CleanedRune(s)| :: Copied(CleanedRune(s)[i], quote)
  {
  }

  /** Escaped text in an element, up to the next tag or the end, reads back as the text, cleaned. */
  lemma ContentReadsBack(s: seq<Byte>, newline: bool, t: seq<Byte>)
    requires t == [] || t[0] == LT
    ensures TextOf(Escaped(s, newline) + t, NO_QUOTE, false) == Scanned(Cleaned(s), t)
  {
    var c0, c1 := ScanEscaped(s, newline, t, [], 0, 0, NO_QUOTE);
    assert [] + Cleaned(s) == Cleaned(s);
    CleanedInRange(s);
  }

  /** Escaped text inside either kind of quotes reads back up to the closing quote. */
  lemma QuotedReadsBack(s: seq<Byte>, newline: bool, quote: Byte, t: seq<Byte>)
    requires quote == QUOT || quote == APOS
    ensures TextOf(Escaped(s, newline) + ([quote] + t), quote, false) == Scanned(Cleaned(s), t)
  {
    var c0, c1 := ScanEscaped(s, newline, [quote] + t, [], 0, 0, quote);
    assert [] + Cleaned(s) == Cleaned(s) && ([quote] + t)[1..] == t;
    CleanedInRange(s);
  }

  /** What must be escaped. */
  predicate IsSpecial(b: Byte, newline: bool) {
    b in [QUOT, APOS, AMP, LT, GT, TAB, CR] || (newline && b == NL)
  }

  lemma EscapedRuneGrows(s: seq<Byte>, newline: bool)
    requires s != []
    ensures |EscapedRune(s, newline)| >= Decode(s).1
    ensures EscapedRune(s, newline) == s[..Decode(s).1] <==> !IsBad(s) && InRange(Decode(s).0) && !IsSpecial(s[0], newline)
  {
    var (r, width) := Decode(s);
    assert r < 0x80 ==> r == s[0] && width == 1;
  }

  lemma {:induction false} EscapedGrows(s: seq<Byte>, newline: bool)
    ensures |Escaped(s, newline)| >= |s|
    decreases |s|
  {
    if s != [] {
      EscapedRuneGrows(s, newline);
      EscapedGrows(s[Decode(s).1..], newline);
    }
  }

  /** No byte that must be escaped is left, but for the ampersands of the expressions. */
  lemma {:induction false} NoneLeft(s: seq<Byte>, newline: bool)
    ensures forall b | b in Escaped(s, newline) :: b == AMP || !IsSpecial(b, newline)
    decreases |s|
  {
    hide Decode, Escape, EscapedRune, IsSpecial;
    if s != [] {
      NoneLeftOfRune(s, newline);
      NoneLeft(s[Decode(s).1..], newline);
    }
  }

  lemma NoneLeftOfRune(s: seq<Byte>, newline: bool)
    requires s != []
    ensures forall b | b in EscapedRune(s, newline) :: b == AMP || !IsSpecial(b, newline)
  {
    var (r, width) := Decode(s);
    var e := Escape(r, width, newline);
    if e.Some? {
      EscapesAreClean();
    } else {
      SpecialBytes(s, newline);
      assert s[..width] == [s[0]] + s[1..width];
    }
  }

  predicate IsClean(e: seq<Byte>) {
    forall b | b in e :: b == AMP || !IsSpecial(b, true)
  }

  lemma EscapesAreClean()
    ensures IsClean(Bytes("&#34;")) && IsClean(Bytes("&#39;")) && IsClean(Bytes("&amp;")) && IsClean(Bytes("&lt;")) && IsClean(Bytes("&gt;"))
    ensures IsClean(Bytes("&#x9;")) && IsClean(Bytes("&#xA;")) && IsClean(Bytes("&#xD;")) && IsClean(BAD)
  {
    hide IsClean;
    CleanString("&#34;");
    CleanString("&#39;");
    CleanString("&amp;");
    CleanString("&lt;");
    CleanString("&gt;");
    CleanString("&#x9;");
    CleanString("&#xA;");
    CleanString("&#xD;");
    ReplacementIsClean();
  }

  lemma CleanString(s: string)
    requires forall i | 0 <= i < |s| :: '#' <= s[i] < 0x80 as char && s[i] != '<' && s[i] != '>' && s[i] != '\''
    ensures IsClean(Bytes(s))
  {
  }

  lemma ReplacementIsClean()
    ensures IsClean(BAD)
  {
  }

  /** The bytes of a rune after its first. */
  lemma SpecialBytes(s: seq<Byte>, newline: bool)
    requires s != [] && !IsBad(s)
    ensures forall b | b in s[1..Decode(s).1] :: !IsSpecial(b, newline)
  {
  }

  /** Text is written as it is exactly when XML has room for all of it and there is nothing in it
      that must be escaped; a line end must be in attributes alone. */
  lemma {:induction false} WrittenAsItIs(s: seq<Byte>, newline: bool)
    ensures Escaped(s, newline) == s <==> AllInRange(s) && forall b | b in s :: !IsSpecial(b, newline)
    decreases |s|
  {
    hide Decode, Escape, InRange, EscapedRune, IsSpecial;
    if s != [] {
      var n := Decode(s).1;
      var tail := s[n..];
      EscapedRuneGrows(s, newline);
      EscapedGrows(tail, newline);
      WrittenAsItIs(tail, newline);
      assert s == s[..n] + tail;
      SameParts(EscapedRune(s, newline), Escaped(tail, newline), s[..n], tail);
      if !IsBad(s) {
        SpecialBytes(s, newline);
        assert s == [s[0]] + s[1..n] + tail;
      }
    }
  }

  lemma SameParts(a: seq<Byte>, b: seq<Byte>, c: seq<Byte>, d: seq<Byte>)
    requires |a| >= |c| && |b| >= |d|
    ensures a + b == c + d <==> a == c && b == d
  {
    if a + b == c + d {
      assert (a + b)[..|a|] == a && (c + d)[..|c|] == c && (a + b)[|a|..] == b && (c + d)[|c|..] == d;
    }
  }

  // ---------- Text that was not escaped ----------

  /** Section 2.11 of XML 1.0: CR LF and CR alone read as LF. */
  function Newlines(s: seq<Byte>): seq<Byte>
    decreases |s|
  {
    if s == [] then []
    else if s[0] == CR then [NL] + Newlines(if |s| > 1 && s[1] == NL then s[2..] else s[1..])
    else [s[0]] + Newlines(s[1..])
  }

  /** After the bytes b0 and b1, nothing in s ends the text or stands for something else. */
  predicate Plain(s: seq<Byte>, b0: Byte, b1: Byte, quote: int, cdata: bool)
    decreases |s|
  {
    s == [] ||
    (!(b0 == BRACKET && b1 == BRACKET && s[0] == GT) && (cdata || (s[0] != LT && s[0] != AMP)) && s[0] != quote
     && Plain(s[1..], b1, s[0], quote, cdata))
  }

  lemma {:induction false} ScanPlain(s: seq<Byte>, t: seq<Byte>, buf: seq<Byte>, b0: Byte, b1: Byte, quote: int, cdata: bool)
      returns (c0: Byte, c1: Byte)
    requires Plain(s, b0, b1, quote, cdata) && (b1 == CR && s != [] ==> s[0] != NL)
    ensures Scan(s + t, buf, b0, b1, quote, cdata) == Scan(t, buf + Newlines(s), c0, c1, quote, cdata)
    decreases |s|
  {
    c0, c1 := b0, b1;
    if s == [] {
      assert s + t == t && buf + Newlines(s) == buf;
    } else {
      var x, rest := s[0], s[1..];
      assert (s + t)[0] == x && (s + t)[1..] == rest + t;
      var out := if x == CR then [NL] else [x];
      if x == CR && rest != [] && rest[0] == NL {
        assert (rest + t)[0] == NL && (rest + t)[1..] == rest[1..] + t;
        c0, c1 := ScanPlain(rest[1..], t, buf + out, x, NL, quote, cdata);
        assert buf + out + [] == buf + out;
        assert s[2..] == rest[1..];
        Regroup(buf, out, Newlines(rest[1..]));
      } else {
        c0, c1 := ScanPlain(rest, t, buf + out, b1, x, quote, cdata);
        Regroup(buf, out, Newlines(rest));
      }
    }
  }

  /** Plain text between tags: only its line ends change, and it is refused when it is not text. */
  lemma PlainTextIsNormalised(s: seq<Byte>, t: seq<Byte>)
    requires Plain(s, 0, 0, NO_QUOTE, false) && (t == [] || t[0] == LT)
    ensures TextOf(s + t, NO_QUOTE, false) == if AllInRange(Newlines(s)) then Scanned(Newlines(s), t) else BadText
  {
    var c0, c1 := ScanPlain(s, t, [], 0, 0, NO_QUOTE, false);
    assert [] + Newlines(s) == Newlines(s);
  }

  const CLOSE: seq<Byte> := [BRACKET, BRACKET, GT]

  lemma ScanClose(t: seq<Byte>, buf: seq<Byte>, b0: Byte, b1: Byte, cdata: bool)
    ensures Scan(CLOSE + t, buf, b0, b1, NO_QUOTE, cdata) == if cdata then Scanned(buf, t) else BadText
  {
    var s := CLOSE + t;
    assert s[1..][1..][1..] == t;
    var buf2 := buf + [BRACKET] + [BRACKET];
    assert s[0] == BRACKET && s[1..][0] == BRACKET && s[1..][1..][0] == GT;
    assert Scan(s[1..], buf + [BRACKET], b1, BRACKET, NO_QUOTE, cdata) == Scan(s[1..][1..], buf2, BRACKET, BRACKET, NO_QUOTE, cdata);
    assert buf2[..|buf2| - 2] == buf;
  }

  /** A CDATA section is what stands before the first ]]>, with its line ends changed. */
  lemma CDataIsNormalised(s: seq<Byte>, t: seq<Byte>)
    requires Plain(s, 0, 0, NO_QUOTE, true)
    ensures TextOf(s + (CLOSE + t), NO_QUOTE, true) == if AllInRange(Newlines(s)) then Scanned(Newlines(s), t) else BadText
  {
    var c0, c1 := ScanPlain(s, CLOSE + t, [], 0, 0, NO_QUOTE, true);
    assert [] + Newlines(s) == Newlines(s);
    ScanClose(t, Newlines(s), c0, c1, true);
  }

  /** Elsewhere ]]> is an error; so is < inside quotes. */
  lemma CloseAndLessAreRefused(s: seq<Byte>, t: seq<Byte>, quote: Byte)
    ensures Plain(s, 0, 0, NO_QUOTE, false) ==> TextOf(s + (CLOSE + t), NO_QUOTE, false) == BadText
    ensures Plain(s, 0, 0, quote, false) ==> TextOf(s + ([LT] + t), quote, false) == BadText
  {
    if Plain(s, 0, 0, NO_QUOTE, false) {
      var c0, c1 := ScanPlain(s, CLOSE + t, [], 0, 0, NO_QUOTE, false);
      ScanClose(t, [] + Newlines(s), c0, c1, false);
    }
    if Plain(s, 0, 0, quote, false) {
      var c0, c1 := ScanPlain(s, [LT] + t, [], 0, 0, quote, false);
    }
  }

  // ---------- Character references ----------

  lemma {:induction false} ValueOfDigits(n: nat)
    ensures var d := DecimalDigits(n);
            d != [] && (forall i | 0 <= i < |d| :: IsDigit(d[i], 10)) && Value(d, 10) == n
  {
    if n < 10 {
      assert DecimalDigits(n)[..0] == [];
    } else {
      ValueOfDigits(n / 10);
      ValueSnoc(DecimalDigits(n / 10), 0x30 + n % 10, 10);
    }
  }

  lemma ValueSnoc(d: seq<Byte>, b: Byte, base: nat)
    requires (forall i | 0 <= i < |d| :: IsDigit(d[i], base)) && IsDigit(b, base)
    ensures var e := d + [b];
            (forall i | 0 <= i < |e| :: IsDigit(e[i], base)) && Value(e, base) == Value(d, base) * base + DigitValue(b)
  {
    assert (d + [b])[..|d|] == d;
  }

  function DecimalDigits(n: nat): seq<Byte> {
    (if n < 10 then [] else DecimalDigits(n / 10)) + [0x30 + n % 10]
  }

  /** A decimal reference to any code point reads as the bytes of that code point. */
  lemma DecimalReference(r: nat, t: seq<Byte>)
    requires r <= 0x10FFFF
    ensures ReadReference([HASH] + (DecimalDigits(r) + [SEMI] + t)) == Reference(Encode(r), t)
  {
    var d := DecimalDigits(r);
    ValueOfDigits(r);
    assert IsDigit(d[0], 10);
    NumberReference(d, 10, r, t);
    ReadsDecimal(d + [SEMI] + t);
  }

  function HexDigit(d: nat, lower: bool): (b: Byte)
    requires d < 16
    ensures IsDigit(b, 16) && DigitValue(b) == d
  {
    if d < 10 then 0x30 + d else if lower then 0x61 + (d - 10) else 0x41 + (d - 10)
  }

  /** The digits of n, in lower or upper case as asked for, the last one first. */
  function HexDigits(n: nat, lower: seq<bool>): seq<Byte> {
    if lower == [] then (if n < 16 then [] else HexDigits(n / 16, [])) + [HexDigit(n % 16, false)]
    else (if n < 16 then [] else HexDigits(n / 16, lower[1..])) + [HexDigit(n % 16, lower[0])]
  }

  predicate AreDigits(d: seq<Byte>, base: nat) {
    d != [] && forall i | 0 <= i < |d| :: IsDigit(d[i], base)
  }

  lemma OneDigit(n: nat, b: Byte)
    requires n < 16 && IsDigit(b, 16) && DigitValue(b) == n
    ensures AreDigits([b], 16) && Value([b], 16) == n
  {
    assert [b][..0] == [];
  }

  lemma OneDigitMore(n: nat, d: seq<Byte>, b: Byte)
    requires AreDigits(d, 16) && Value(d, 16) == n / 16 && IsDigit(b, 16) && DigitValue(b) == n % 16
    ensures AreDigits(d + [b], 16) && Value(d + [b], 16) == n
  {
    ValueSnoc(d, b, 16);
  }

  lemma {:induction false} ValueOfHexDigits(n: nat, lower: seq<bool>)
    ensures AreDigits(HexDigits(n, lower), 16) && Value(HexDigits(n, lower), 16) == n
    decreases n
  {
    hide AreDigits, Value, IsDigit, DigitValue, HexDigit;
    var b := HexDigit(n % 16, lower != [] && lower[0]);
    var more := if lower == [] then [] else lower[1..];
    if n < 16 {
      OneDigit(n, b);
      assert HexDigits(n, lower) == [b];
    } else {
      ValueOfHexDigits(n / 16, more);
      OneDigitMore(n, HexDigits(n / 16, more), b);
      assert HexDigits(n, lower) == HexDigits(n / 16, more) + [b];
    }
  }

  /** So does a hexadecimal one, in letters of either case. */
  lemma HexReference(r: nat, lower: seq<bool>, t: seq<Byte>)
    requires r <= 0x10FFFF
    ensures ReadReference([HASH, 'x' as int] + (HexDigits(r, lower) + [SEMI] + t)) == Reference(Encode(r), t)
  {
    ValueOfHexDigits(r, lower);
    NumberReference(HexDigits(r, lower), 16, r, t);
    var u := HexDigits(r, lower) + [SEMI] + t;
    var s := [HASH, 'x' as int] + u;
    assert s[2..] == u && s[0] == HASH && s[1] == 'x' as int;
  }

  /** The five names, and no others. */
  lemma NamesRead(name: seq<Byte>, t: seq<Byte>)
    requires name != [] && forall i | 0 <= i < |name| :: IsNameByte(name[i])
    ensures ReadReference(name + [SEMI] + t) ==
            if name == Bytes("lt") then Reference(Bytes("<"), t)
            else if name == Bytes("gt") then Reference(Bytes(">"), t)
            else if name == Bytes("amp") then Reference(Bytes("&"), t)
            else if name == Bytes("apos") then Reference(Bytes("'"), t)
            else if name == Bytes("quot") then Reference(Bytes("\""), t)
            else BadReference
  {
    var s := name + [SEMI] + t;
    assert s[..|name|] == name && s[|name| + 1..] == t;
    NameRunIs(name, [SEMI] + t);
    assert s == name + ([SEMI] + t);
    assert s[0] == name[0] && IsNameByte(name[0]);
    assert Bytes("<") == [LT] && Bytes(">") == [GT] && Bytes("&") == [AMP] && Bytes("'") == [APOS] && Bytes("\"") == [QUOT];
  }

  /** Which characters there is room for: those of section 2.2 of XML 1.0, and the first of the
      surrogates, which the bytes of a text never spell. */
  lemma CharactersKept(r: nat)
    requires r <= 0x10FFFF
    ensures Cleaned(Encode(r)) ==
            if r in {0x9, 0xA, 0xD} || 0x20 <= r < 0xD800 || 0xE000 <= r <= 0xFFFD || r >= 0x10000 then Encode(r) else Encode(0xFFFD)
  {
    hide Decode;
    if 0xD800 <= r <= 0xDFFF {
      assert Encode(r) == Encode(BAD_RUNE);
      OneCharacter(BAD_RUNE);
    } else {
      OneCharacter(r);
    }
  }

  lemma OneCharacter(r: nat)
    requires r <= 0x10FFFF && !(0xD800 <= r <= 0xDFFF)
    ensures Cleaned(Encode(r)) == if InRange(r) then Encode(r) else Encode(0xFFFD)
  {
    hide Decode, Encode;
    var s := Encode(r);
    DecodeEncode(r, []);
    EncodeLength(r);
    assert s + [] == s && s[|s|..] == [] && s[..|s|] == s;
    assert Cleaned([]) == [];
    assert Cleaned(s) == CleanedRune(s) + [];
  }

  lemma EncodeLength(r: nat)
    requires r <= 0x10FFFF
    ensures Encode(r) != [] && (r == BAD_RUNE ==> |Encode(r)| == 3) && Encode(0xFFFD) == BAD
  {
  }

  lemma ReadsDecimal(u: seq<Byte>)
    requires u != [] && u[0] != 'x' as int
    ensures ReadReference([HASH] + u) == ReadNumber(u, 10)
  {
    var s := [HASH] + u;
    assert s[1] == u[0] && s[1..] == u;
  }
}
