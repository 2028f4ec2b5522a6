/** XML names: which bytes make one, how a prefix and a local name are joined with a colon, and
    how they are split at the first one. */
module XmlNames {
  import opened Utf8
  import opened XmlTypes
  import X = XmlText

  // ---------- Names ----------

  /** The Unicode tables for the first rune of a name and for the others, from 0x80 on. */
  datatype Tables = Tables(first: int -> bool, second: int -> bool)

  predicate IsFirst(t: Tables, r: int) {
    if r < 0x80 then r == COLON || r == UNDERSCORE || 0x41 <= r <= 0x5A || 0x61 <= r <= 0x7A else t.first(r)
  }

  predicate IsLater(t: Tables, r: int) {
    IsFirst(t, r) || if r < 0x80 then r == 0x2D || r == 0x2E || 0x30 <= r <= 0x39 else t.second(r)
  }

  /** isName. */
  predicate IsName(t: Tables, s: Str) {
    s != [] && !IsBad(s) && IsFirst(t, Decode(s).0) && AreLater(t, s[Decode(s).1..])
  }

  predicate AreLater(t: Tables, s: Str)
    decreases |s|
  {
    s == [] || (!IsBad(s) && IsLater(t, Decode(s).0) && AreLater(t, s[Decode(s).1..]))
  }

  /** isName, as a loop over the runes. */
  method CheckName(t: Tables, s: Str) returns (ok: bool)
    ensures ok == IsName(t, s)
  {
    if s == [] {
      return false;
    }
    var (c, n) := Decode(s);
    if (c == BAD_RUNE && n == 1) || !IsFirst(t, c) {
      return false;
    }
    var rest := s[n..];
    while rest != []
      invariant IsName(t, s) == AreLater(t, rest)
      decreases |rest|
    {
      var (later, width) := Decode(rest);
      if (later == BAD_RUNE && width == 1) || !IsLater(t, later) {
        return false;
      }
      rest := rest[width..];
    }
    ok := true;
  }

  lemma {:induction false} LaterAppend(t: Tables, a: Str, b: Str)
    requires AreLater(t, a) && AreLater(t, b)
    ensures AreLater(t, a + b)
    decreases |a|
  {
    if a == [] {
      assert a + b == b;
    } else {
      var (r, n) := Decode(a);
      DecodeMore(a, b);
      assert (a + b)[n..] == a[n..] + b;
      LaterAppend(t, a[n..], b);
    }
  }

  lemma DecodeMore(a: Str, b: Str)
    requires a != [] && !IsBad(a)
    ensures Decode(a + b) == Decode(a)
  {
    var n := Decode(a).1;
    DecodeIsLocal(a, a[n..] + b);
    assert a[..n] + (a[n..] + b) == a + b;
  }

  /** What follows a name may be more name. */
  lemma NameAppend(t: Tables, a: Str, b: Str)
    requires IsName(t, a) && AreLater(t, b)
    ensures IsName(t, a + b)
  {
    var n := Decode(a).1;
    DecodeMore(a, b);
    assert (a + b)[n..] == a[n..] + b;
    LaterAppend(t, a[n..], b);
  }

  lemma LaterOne(t: Tables, b: Byte)
    requires b < 0x80 && IsLater(t, b)
    ensures AreLater(t, [b])
  {
    assert Decode([b]) == (b as int, 1) && [b][1..] == [];
  }

  lemma NameIsLater(t: Tables, s: Str)
    requires IsName(t, s)
    ensures AreLater(t, s)
  {
  }

  /** All bytes of a name are bytes that readName takes. */
  lemma {:induction false} LaterBytes(t: Tables, s: Str)
    requires AreLater(t, s)
    ensures forall b | b in s :: X.IsNameByte(b)
    decreases |s|
  {
    if s != [] {
      var (r, n) := Decode(s);
      LaterBytes(t, s[n..]);
      RuneBytes(s);
      assert s == s[..n] + s[n..];
      assert X.IsNameByte(s[0]);
    }
  }

  /** The bytes of a rune of more than one. */
  lemma RuneBytes(s: Str)
    requires s != [] && !IsBad(s)
    ensures var (r, n) := Decode(s);
            if r < 0x80 then n == 1 && r == s[0] else forall b | b in s[..n] :: b >= 0x80
  {
  }

  predicate AsciiLetter(b: Byte) {
    'A' as int <= b <= 'Z' as int || 'a' as int <= b <= 'z' as int
  }

  predicate AsciiLater(b: Byte) {
    AsciiLetter(b) || '0' as int <= b <= '9' as int || b == '_' as int || b == ':' as int || b == '-' as int || b == '.' as int
  }

  /** Which bytes make a name in ASCII. */
  lemma AsciiNames(t: Tables, s: Str)
    requires forall b | b in s :: b < 0x80
    ensures IsName(t, s) <==>
              s != [] && (AsciiLetter(s[0]) || s[0] == '_' as int || s[0] == ':' as int) && forall b | b in s :: AsciiLater(b)
  {
    if s != [] {
      var b, tail := s[0], s[1..];
      assert s == [b] + tail && b in s && forall c | c in tail :: c in s;
      AsciiLaters(t, tail);
      assert Decode(s) == (b as int, 1);
    }
  }

  lemma {:induction false} AsciiLaters(t: Tables, s: Str)
    requires forall b | b in s :: b < 0x80
    ensures AreLater(t, s) <==> forall b | b in s :: AsciiLater(b)
    decreases |s|
  {
    if s != [] {
      var b, tail := s[0], s[1..];
      assert s == [b] + tail && b in s && forall c | c in tail :: c in s;
      AsciiLaters(t, tail);
      assert Decode(s) == (b as int, 1);
    }
  }

  /** Beyond ASCII the tables decide. */
  lemma RuneNames(t: Tables, r: int)
    requires 0x80 <= r <= 0x10FFFF && !(0xD800 <= r <= 0xDFFF)
    ensures IsName(t, Encode(r)) <==> t.first(r)
    ensures AreLater(t, Encode(r)) <==> t.first(r) || t.second(r)
  {
    hide Decode, Encode;
    DecodeEncode(r, []);
    var s := Encode(r);
    assert s + [] == s;
    EncodeSome(r);
    assert s[|s|..] == [];
  }

  lemma EncodeSome(r: int)
    requires 0x80 <= r
    ensures |Encode(r)| > 1 && Encode(r)[0] >= 0x80
  {
  }

  // ---------- Joining and splitting ----------

  /** writeName. */
  function JoinName(n: Name): Str {
    if n.space == [] then n.local else n.space + [COLON] + n.local
  }

  /** The index of the first colon, or the length. */
  function FirstColon(s: Str): (i: nat)
    ensures i <= |s| && COLON !in s[..i] && (i < |s| ==> s[i] == COLON)
  {
    if s == [] || s[0] == COLON then 0
    else
      var j := FirstColon(s[1..]);
      assert s[..j + 1] == [s[0]] + s[1..][..j];
      j + 1
  }

  /** nsname: what stands before the first colon is the space. */
  function SplitName(s: Str): Name {
    var i := FirstColon(s);
    if i == |s| then Name([], s) else Name(s[..i], s[i + 1..])
  }

  lemma FirstColonUnique(s: Str, i: nat)
    requires i <= |s| && COLON !in s[..i] && (i < |s| ==> s[i] == COLON)
    ensures FirstColon(s) == i
  {
    var j := FirstColon(s);
    assert forall k | 0 <= k < i :: s[k] in s[..i];
    assert forall k | 0 <= k < j :: s[k] in s[..j];
  }

  /** The name can be split where it was joined. */
  predicate Splits(n: Name) {
    COLON !in n.space && (n.space == [] ==> COLON !in n.local)
  }

  /** The two parts come back exactly when the prefix has no colon and, if it is empty, the
      local name has none either. */
  lemma SplitJoinExactly(n: Name)
    ensures SplitName(JoinName(n)) == n <==> Splits(n)
  {
    var s := JoinName(n);
    assert s[..|s|] == s;
    if n.space == [] {
      if COLON !in n.local {
        FirstColonUnique(s, |s|);
      }
    } else {
      var i := |n.space|;
      assert s[..i] == n.space && s[i] == COLON && s[i + 1..] == n.local;
      if COLON !in n.space {
        FirstColonUnique(s, i);
      } else {
        assert COLON !in SplitName(s).space;
      }
    }
  }

  /** A name without a colon in it. */
  predicate IsNcName(t: Tables, s: Str) {
    IsName(t, s) && COLON !in s
  }

  /** The written form is a name that splits where it was joined. */
  predicate IsWrittenName(t: Tables, n: Name) {
    IsName(t, JoinName(n)) && Splits(n)
  }

  lemma LetterIsName(t: Tables, b: Byte)
    requires 0x61 <= b <= 0x7A
    ensures IsNcName(t, [b])
  {
    assert Decode([b]) == (b as int, 1) && [b][1..] == [];
  }

  lemma JoinNcNames(t: Tables, n: Name)
    requires (n.space == [] || IsNcName(t, n.space)) && IsNcName(t, n.local)
    ensures IsWrittenName(t, n)
  {
    if n.space != [] {
      LaterOne(t, COLON);
      NameIsLater(t, n.local);
      LaterAppend(t, [COLON], n.local);
      NameAppend(t, n.space, [COLON] + n.local);
      assert n.space + ([COLON] + n.local) == JoinName(n);
    }
  }

  lemma XmlAreNames(t: Tables)
    ensures IsNcName(t, XML) && IsNcName(t, XMLNS)
  {
    assert XMLNS == XML + [0x6E] + [0x73];
    assert XML == [0x78] + [0x6D] + [0x6C];
    assert IsName(t, [0x78]) by {
      assert Decode([0x78]) == (0x78, 1) && [0x78][1..] == [];
    }
    LaterOne(t, 0x6D);
    LaterOne(t, 0x6C);
    LaterOne(t, 0x6E);
    LaterOne(t, 0x73);
    NameAppend(t, [0x78], [0x6D]);
    NameAppend(t, [0x78] + [0x6D], [0x6C]);
    NameAppend(t, XML, [0x6E]);
    NameAppend(t, XML + [0x6E], [0x73]);
  }
}
