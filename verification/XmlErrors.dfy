/** Errors in markup: bad markup stays bad whatever follows it, and markup that is only cut off can
    still go on, so that the two kinds of error are told apart rightly. */
module XmlErrors {
  import opened Utf8
  import opened XmlTypes
  import opened XmlNames
  import opened XmlRaw
  import opened XmlGrammar
  import X = XmlText
  import S = XmlSpelling

  /** The same, with more bytes behind what has been read. */
  function More<T>(r: Got<T>, more: Str): Got<T> {
    if r.Got? then Got(r.value, r.rest + more) else r
  }

  /** The last byte is ASCII, so the bytes do not end inside a rune. */
  predicate Complete(s: Str) {
    s == [] || s[|s| - 1] < 0x80
  }

  // ---------- Names and spaces ----------

  lemma {:induction false} SkipMore(s: Str, more: Str)
    ensures SkipSpace(s) != [] ==> SkipSpace(s + more) == SkipSpace(s) + more
    ensures SkipSpace(s) == [] ==> SkipSpace(s + more) == SkipSpace(more)
  {
    if s == [] {
      assert s + more == more;
    } else {
      assert (s + more)[0] == s[0] && (s + more)[1..] == s[1..] + more;
      if IsSpace(s[0]) {
        SkipMore(s[1..], more);
      }
    }
  }

  lemma {:induction false} RunMore(s: Str, more: Str)
    ensures X.NameRun(s) < |s| ==> X.NameRun(s + more) == X.NameRun(s)
    ensures X.NameRun(s) == |s| && (more == [] || !X.IsNameByte(more[0])) ==> X.NameRun(s + more) == |s|
  {
    if s == [] {
      assert s + more == more;
    } else {
      assert (s + more)[0] == s[0] && (s + more)[1..] == s[1..] + more;
      if X.IsNameByte(s[0]) {
        RunMore(s[1..], more);
      }
    }
  }

  lemma NameMore(t: Tables, s: Str, more: Str)
    ensures !ReadName(t, s).Ended? ==> ReadName(t, s + more) == More(ReadName(t, s), more)
    ensures !ReadNsName(t, s).Ended? ==> ReadNsName(t, s + more) == More(ReadNsName(t, s), more)
  {
    hide IsName;
    var n := X.NameRun(s);
    RunMore(s, more);
    assert (s + more)[..n] == s[..n] && (s + more)[n..] == s[n..] + more;
  }

  /** A name that is cut off ends at a byte that is not of it. */
  lemma NameCut(t: Tables, s: Str, b: Byte)
    requires ReadName(t, s).Ended? && !X.IsNameByte(b)
    ensures ReadName(t, s + [b]) == Syntax || ReadName(t, s + [b]) == Got(s, [b])
    ensures ReadNsName(t, s + [b]) == Syntax || ReadNsName(t, s + [b]) == Got(SplitName(s), [b])
  {
    hide IsName;
    RunMore(s, [b]);
    assert (s + [b])[..|s|] == s && (s + [b])[|s|..] == [b];
  }

  // ---------- Character expressions ----------

  lemma {:induction false} DigitsMore(s: Str, more: Str, base: nat)
    ensures X.DigitRun(s, base) < |s| ==> X.DigitRun(s + more, base) == X.DigitRun(s, base)
    ensures X.DigitRun(s, base) == |s| && (more == [] || !X.IsDigit(more[0], base)) ==> X.DigitRun(s + more, base) == |s|
  {
    if s == [] {
      assert s + more == more;
    } else {
      assert (s + more)[0] == s[0] && (s + more)[1..] == s[1..] + more;
      if X.IsDigit(s[0], base) {
        DigitsMore(s[1..], more, base);
      }
    }
  }

  lemma NumberBad(s: Str, base: nat, more: Str)
    ensures X.ReadNumber(s, base).BadReference? ==> X.ReadNumber(s + more, base).BadReference?
    ensures X.ReadNumber(s, base).Cut? ==> X.ReadNumber(s + [X.LT], base).BadReference?
  {
    hide X.Value, X.IsDigit;
    var n := X.DigitRun(s, base);
    DigitsMore(s, more, base);
    DigitsMore(s, [X.LT], base);
    LessIsNothing();
    assert n < |s| ==> (s + more)[..n] == s[..n] && (s + more)[n] == s[n];
    assert (s + [X.LT])[|s|] == X.LT;
  }

  lemma LessIsNothing()
    ensures (forall base :: !X.IsDigit(X.LT, base)) && !X.IsNameByte(X.LT) && !IsSpace(X.LT)
  {
  }

  /** A bad character expression stays bad, and one that is cut off is bad with a less-than. */
  lemma ReferenceBad(s: Str, more: Str)
    ensures X.ReadReference(s).BadReference? ==> X.ReadReference(s + more).BadReference?
    ensures X.ReadReference(s).Cut? ==> X.ReadReference(s + [X.LT]).BadReference?
  {
    hide X.ReadNumber, X.Entity, X.IsNameByte;
    LessIsNothing();
    if s == [] {
      assert s + [X.LT] == [X.LT];
      RunMore([], [X.LT]);
      assert [] + [X.LT] == [X.LT];
    } else if s[0] == X.HASH {
      HashBad(s, more);
    } else {
      var n := X.NameRun(s);
      RunMore(s, more);
      RunMore(s, [X.LT]);
      assert (s + more)[0] == s[0] && (s + [X.LT])[0] == s[0] && (s + [X.LT])[|s|] == X.LT;
      assert n < |s| ==> (s + more)[..n] == s[..n] && (s + more)[n] == s[n];
    }
  }

  lemma HashBad(s: Str, more: Str)
    requires s != [] && s[0] == X.HASH
    ensures X.ReadReference(s).BadReference? ==> X.ReadReference(s + more).BadReference?
    ensures X.ReadReference(s).Cut? ==> X.ReadReference(s + [X.LT]).BadReference?
  {
    hide X.ReadNumber;
    var u := s + [X.LT];
    if |s| == 1 {
      assert s == [s[0]] && s[1..] == [];
      assert u[1..] == [] + [X.LT] && u[1] == X.LT;
      NumberBad([], 10, more);
      NothingIsCut();
    } else {
      var hex := s[1] == 'x' as int;
      var k, base := if hex then 2 else 1, if hex then 16 else 10;
      assert (s + more)[1] == s[1] && (s + more)[k..] == s[k..] + more && u[1] == s[1] && u[k..] == s[k..] + [X.LT];
      NumberBad(s[k..], base, more);
    }
  }

  lemma NothingIsCut()
    ensures X.ReadNumber([], 10).Cut?
  {
  }

  // ---------- Values ----------

  /** Every rune is one. */
  predicate WholeRunes(s: Str)
    decreases |s|
  {
    s == [] || (!IsBad(s) && WholeRunes(s[Decode(s).1..]))
  }

  /** What is in range has all its beginnings in range that do not cut a rune. */
  lemma {:induction false} RangeOfBegin(a: Str, b: Str)
    requires WholeRunes(a) && X.AllInRange(a + b)
    ensures X.AllInRange(a)
    decreases |a|
  {
    if a != [] {
      DecodeMore(a, b);
      assert (a + b)[Decode(a).1..] == a[Decode(a).1..] + b;
      RangeOfBegin(a[Decode(a).1..], b);
    }
  }

  lemma AsciiIsWhole(b: Byte)
    requires b < 0x80
    ensures WholeRunes([b])
  {
    assert [b][1..] == [];
  }

  lemma EncodedIsWhole(r: int)
    requires 0 <= r
    ensures WholeRunes(Encode(r))
  {
    hide Decode, Encode;
    var n := if r > 0x10FFFF || 0xD800 <= r <= 0xDFFF then BAD_RUNE else r;
    SameBytes(r);
    DecodeEncode(n, []);
    var s := Encode(n);
    assert s + [] == s && s[|s|..] == [];
    NotShort(n);
  }

  lemma SameBytes(r: int)
    requires 0 <= r
    ensures Encode(r) == Encode(if r > 0x10FFFF || 0xD800 <= r <= 0xDFFF then BAD_RUNE else r)
  {
  }

  lemma NotShort(n: int)
    requires 0 <= n <= 0x10FFFF
    ensures Encode(n) != [] && (n == BAD_RUNE ==> |Encode(n)| == 3)
  {
  }

  /** What a character expression stands for. */
  lemma ReferenceIsWhole(s: Str)
    requires X.ReadReference(s).Reference?
    ensures WholeRunes(X.ReadReference(s).text)
  {
    hide WholeRunes, X.Value, Encode;
    if s[0] == X.HASH {
      var u, base := if |s| > 1 && s[1] == 'x' as int then s[2..] else s[1..], if |s| > 1 && s[1] == 'x' as int then 16 else 10;
      EncodedIsWhole(X.Value(u[..X.DigitRun(u, base)], base));
    } else {
      AsciiIsWhole(X.LT);
      AsciiIsWhole(X.GT);
      AsciiIsWhole(X.AMP);
      AsciiIsWhole(X.APOS);
      AsciiIsWhole(X.QUOT);
    }
  }

  /** What has been read of a value that is still open: the loop goes on with more bytes from there. */
  ghost predicate GoesOn(s: Str, buf: Str, b0: Byte, b1: Byte, quote: Byte, more: Str, data: Str) {
    exists c0, c1 :: X.Scan(s + more, buf, b0, b1, quote, false) == X.Scan(more, data, c0, c1, quote, false)
  }

  /** Reading to the end of the bytes, inside quotes: the quote is the last byte, or more can follow. */
  lemma {:induction false} ScanMore(s: Str, more: Str, buf: Str, b0: Byte, b1: Byte, quote: Byte)
    requires IsQuote(quote)
    ensures var r := X.Scan(s, buf, b0, b1, quote, false);
            && (r.BadText? ==> X.Scan(s + more, buf, b0, b1, quote, false).BadText?)
            && (r.CutText? ==> X.Scan(s + [X.LT], buf, b0, b1, quote, false).BadText?)
            && (r.Scanned? && r.rest != [] ==> X.Scan(s + more, buf, b0, b1, quote, false) == X.Scanned(r.data, r.rest + more))
            && (r.Scanned? && r.rest == [] ==>
                  X.Scan(s + more, buf, b0, b1, quote, false) == X.Scanned(r.data, more) || GoesOn(s, buf, b0, b1, quote, more, r.data))
    decreases |s|
  {
    hide X.Scan, X.ReadReference;
    if s == [] {
      assert s + more == more;
      ScanNothing(buf, b0, b1, quote);
    } else {
      var b, tail := s[0], s[1..];
      SliceAppend(s, more);
      SliceAppend(s, [X.LT]);
      ScanRound(s, buf, b0, b1, quote);
      ScanRound(s + more, buf, b0, b1, quote);
      ScanRound(s + [X.LT], buf, b0, b1, quote);
      if IsRefused(b0, b1, b) || b == quote {
        assert tail == [] ==> tail + more == more;
      } else if b == X.AMP {
        var r := X.ReadReference(tail);
        ReferenceBad(tail, more);
        if r.Reference? {
          var x := ReferenceIsLocal(tail);
          X.Regroup(x, r.rest, more);
          X.Regroup(x, r.rest, [X.LT]);
          ScanMore(r.rest, more, buf + r.text, 0, 0, quote);
        }
      } else {
        ScanMore(tail, more, buf + Taken(b1, b), b1, b, quote);
      }
    }
  }

  /** No more bytes bring it into range. */
  ghost predicate Settled(v: Str) {
    forall w :: X.AllInRange(v + w) ==> X.AllInRange(v)
  }

  lemma TailBytes(s: Str)
    requires s != [] && !IsBad(s)
    ensures forall i | 0 < i < Decode(s).1 :: 0x80 <= s[i] <= 0xBF
  {
  }

  /** Whole runes end what comes before them. */
  lemma {:induction false} SettlesBefore(v: Str, p: Str, w: Str)
    requires WholeRunes(p) && p != [] && !(0x80 <= p[0] <= 0xBF) && X.AllInRange(v + (p + w))
    ensures X.AllInRange(v + p)
    decreases |v|
  {
    hide Decode, WholeRunes;
    var x := v + (p + w);
    if v == [] {
      assert x == p + w && v + p == p;
      RangeOfBegin(p, w);
    } else {
      var n := Decode(x).1;
      TailBytes(x);
      assert x[|v|] == p[0];
      assert n <= |v|;
      DecodeIsLocal(x, (v + p)[n..]);
      assert x[..n] + (v + p)[n..] == v + p;
      assert x[n..] == v[n..] + (p + w) && (v + p)[n..] == v[n..] + p;
      SettlesBefore(v[n..], p, w);
    }
  }

  lemma PieceSettles(v: Str, p: Str)
    requires WholeRunes(p) && p != [] && !(0x80 <= p[0] <= 0xBF)
    ensures Settled(v + p)
  {
    forall w | X.AllInRange(v + p + w) ensures X.AllInRange(v + p) {
      X.Regroup(v, p, w);
      SettlesBefore(v, p, w);
    }
  }

  lemma ReferenceSettles(v: Str, s: Str)
    requires X.ReadReference(s).Reference?
    ensures Settled(v + X.ReadReference(s).text)
  {
    ReferenceIsWhole(s);
    ReferenceBegins(s);
    PieceSettles(v, X.ReadReference(s).text);
  }

  lemma ReferenceBegins(s: Str)
    requires X.ReadReference(s).Reference?
    ensures var x := X.ReadReference(s).text; x != [] && !(0x80 <= x[0] <= 0xBF)
  {
    hide X.Value;
  }

  lemma TakenSettles(buf: Str, b1: Byte, b: Byte)
    requires b < 0x80 && (b1 == X.CR ==> buf != [] && buf[|buf| - 1] == X.NL)
    ensures Settled(buf + Taken(b1, b))
  {
    AsciiIsWhole(b);
    AsciiIsWhole(X.NL);
    var x := Taken(b1, b);
    if x == [] {
      var n := |buf| - 1;
      assert buf + x == buf[..n] + [X.NL];
      PieceSettles(buf[..n], [X.NL]);
    } else {
      PieceSettles(buf, x);
    }
  }

  /** A value that is still open, and does not end inside a rune, is settled. */
  lemma {:induction false} OpenIsSettled(s: Str, more: Str, buf: Str, b0: Byte, b1: Byte, quote: Byte)
    requires IsQuote(quote) && Complete(s) && (s == [] ==> Settled(buf)) && (b1 == X.CR ==> buf != [] && buf[|buf| - 1] == X.NL)
    requires X.Scan(s, buf, b0, b1, quote, false).Scanned? && X.Scan(s, buf, b0, b1, quote, false).rest == []
    ensures var v := X.Scan(s, buf, b0, b1, quote, false).data;
            Settled(v) || X.Scan(s + more, buf, b0, b1, quote, false) == X.Scanned(v, more)
    decreases |s|
  {
    hide X.Scan, X.ReadReference, Settled;
    if s == [] {
      ScanNothing(buf, b0, b1, quote);
    } else {
      var b, tail := s[0], s[1..];
      SliceAppend(s, more);
      ScanRound(s, buf, b0, b1, quote);
      ScanRound(s + more, buf, b0, b1, quote);
      assert tail != [] ==> tail[|tail| - 1] == s[|s| - 1];
      if b == quote {
        assert tail == [] ==> tail + more == more;
      } else if b == X.AMP {
        var r := X.ReadReference(tail);
        var x := ReferenceIsLocal(tail);
        X.Regroup(x, r.rest, more);
        ReferenceSettles(buf, tail);
        assert r.rest != [] ==> r.rest[|r.rest| - 1] == tail[|tail| - 1];
        OpenIsSettled(r.rest, more, buf + r.text, 0, 0, quote);
      } else {
        if tail == [] {
          TakenSettles(buf, b1, b);
        }
        OpenIsSettled(tail, more, buf + Taken(b1, b), b1, b, quote);
      }
    }
  }

  lemma {:induction false} ScanGrows(s: Str, buf: Str, b0: Byte, b1: Byte, quote: Byte)
    requires IsQuote(quote) && X.Scan(s, buf, b0, b1, quote, false).Scanned?
    ensures buf <= X.Scan(s, buf, b0, b1, quote, false).data
    decreases |s|
  {
    hide X.Scan, X.ReadReference;
    if s == [] {
      ScanNothing(buf, b0, b1, quote);
    } else {
      var b, tail := s[0], s[1..];
      ScanRound(s, buf, b0, b1, quote);
      if !IsRefused(b0, b1, b) && b != quote {
        if b == X.AMP {
          var r := X.ReadReference(tail);
          var x := ReferenceIsLocal(tail);
          ScanGrows(r.rest, buf + r.text, 0, 0, quote);
        } else {
          ScanGrows(tail, buf + Taken(b1, b), b1, b, quote);
        }
      }
    }
  }

  /** Bad text inside quotes stays bad; text that is cut off is bad with a less-than, and so is a
      value that is still open. */
  lemma TextMore(s: Str, more: Str, quote: Byte)
    requires IsQuote(quote)
    ensures var r := X.TextOf(s, quote, false);
            && (r.BadText? && Complete(s) ==> !X.TextOf(s + more, quote, false).Scanned?)
            && (r.CutText? ==> X.TextOf(s + [X.LT], quote, false).BadText?)
            && (r.Scanned? && r.rest != [] ==> X.TextOf(s + more, quote, false) == X.Scanned(r.data, r.rest + more))
            && (r.Scanned? && r.rest == [] ==>
                  X.TextOf(s + [X.LT], quote, false).BadText? || X.TextOf(s + [X.LT], quote, false) == X.Scanned(r.data, [X.LT]))
  {
    hide X.Scan;
    ScanMore(s, more, [], 0, 0, quote);
    ScanMore(s, [X.LT], [], 0, 0, quote);
    var r := X.Scan(s, [], 0, 0, quote, false);
    if r.Scanned? && r.rest == [] {
      OpenAndLess(s, r.data, quote);
      if Complete(s) && !X.AllInRange(r.data) {
        NothingIsSettled();
        OpenIsSettled(s, more, [], 0, 0, quote);
        OpenStaysBad(s, more, r.data, quote);
      }
    }
  }

  lemma NothingIsSettled()
    ensures Settled([])
  {
  }

  lemma OpenAndLess(s: Str, data: Str, quote: Byte)
    requires IsQuote(quote)
    ensures GoesOn(s, [], 0, 0, quote, [X.LT], data) ==> X.Scan(s + [X.LT], [], 0, 0, quote, false).BadText?
  {
  }

  lemma OpenStaysBad(s: Str, more: Str, data: Str, quote: Byte)
    requires IsQuote(quote) && !X.AllInRange(data)
    requires Settled(data) || X.Scan(s + more, [], 0, 0, quote, false) == X.Scanned(data, more)
    requires X.Scan(s + more, [], 0, 0, quote, false) == X.Scanned(data, more) || GoesOn(s, [], 0, 0, quote, more, data)
    ensures !X.TextOf(s + more, quote, false).Scanned?
  {
    hide X.Scan;
    var r := X.Scan(s + more, [], 0, 0, quote, false);
    if r.Scanned? {
      if r != X.Scanned(data, more) {
        var c0, c1 :| X.Scan(s + more, [], 0, 0, quote, false) == X.Scan(more, data, c0, c1, quote, false);
        ScanGrows(more, data, c0, c1, quote);
      }
      assert r.data == data + r.data[|data|..];
    }
  }

  // ---------- Tags ----------

  lemma ValueMore(s: Str, more: Str)
    ensures var r := ReadValue(s);
            && (r.Syntax? && Complete(s) ==> !ReadValue(s + more).Got?)
            && (r.Ended? ==> ReadValue(s + [X.LT]).Syntax?)
            && (r.Got? && r.rest != [] ==> ReadValue(s + more) == More(r, more))
            && (r.Got? && r.rest == [] ==> ReadValue(s + [X.LT]).Syntax? || ReadValue(s + [X.LT]) == More(r, [X.LT]))
  {
    hide X.TextOf;
    if s == [] {
      assert s + [X.LT] == [X.LT];
    } else {
      SliceAppend(s, more);
      SliceAppend(s, [X.LT]);
      if IsQuote(s[0]) {
        TextMore(s[1..], more, s[0]);
      }
    }
  }

  lemma LessIsNoSpace()
    ensures SkipSpace([X.LT]) == [X.LT] && ReadValue([X.LT]).Syntax?
  {
  }

  lemma CompleteTail(a: Str, b: Str)
    requires Complete(a + b)
    ensures Complete(b)
  {
    assert b != [] ==> (a + b)[|a + b| - 1] == b[|b| - 1];
  }

  lemma CompleteSkip(s: Str)
    requires Complete(s)
    ensures Complete(SkipSpace(s))
  {
    var sp := SkippedIsBlank(s);
    CompleteTail(sp, SkipSpace(s));
  }

  function SpacedValue(s: Str): Got<Str> {
    ReadValue(SkipSpace(s))
  }

  lemma SpacedValueMore(s: Str, more: Str)
    ensures var r := SpacedValue(s);
            && (r.Syntax? && Complete(s) ==> !SpacedValue(s + more).Got?)
            && (r.Ended? ==> SpacedValue(s + [X.LT]).Syntax?)
            && (r.Got? && r.rest != [] ==> SpacedValue(s + more) == More(r, more))
            && (r.Got? && r.rest == [] ==> SpacedValue(s + [X.LT]).Syntax? || SpacedValue(s + [X.LT]) == More(r, [X.LT]))
  {
    hide ReadValue;
    SkipMore(s, more);
    SkipMore(s, [X.LT]);
    LessIsNoSpace();
    ValueMore(SkipSpace(s), more);
    if Complete(s) {
      CompleteSkip(s);
    }
    NoValue();
  }

  lemma NoValue()
    ensures ReadValue([]).Ended?
  {
  }

  lemma AttrMore(t: Tables, s: Str, more: Str)
    ensures var r := ReadAttr(t, s);
            && (r.Syntax? && Complete(s) ==> !ReadAttr(t, s + more).Got?)
            && (r.Ended? ==> ReadAttr(t, s + [X.LT]).Syntax?)
            && (r.Got? && r.rest != [] ==> ReadAttr(t, s + more) == More(r, more))
            && (r.Got? && r.rest == [] ==> ReadAttr(t, s + [X.LT]).Syntax? || ReadAttr(t, s + [X.LT]) == More(r, [X.LT]))
  {
    hide IsName, ReadValue, ReadName, Complete, SkipSpace, SplitName;
    LessIsNothing();
    NameMore(t, s, more);
    NameMore(t, s, [X.LT]);
    var name := ReadNsName(t, s);
    if name.Ended? {
      NameCut(t, s, X.LT);
      LessIsNoSpace();
    } else if name.Got? {
      var u := SkipSpace(name.rest);
      SkipMore(name.rest, more);
      SkipMore(name.rest, [X.LT]);
      LessIsNoSpace();
      if u != [] && u[0] == EQUALS {
        SliceAppend(u, more);
        SliceAppend(u, [X.LT]);
        SpacedValueMore(u[1..], more);
        if Complete(s) {
          NameIsRead(t, s);
          CompleteTail(ReadName(t, s).value, name.rest);
          CompleteSkip(name.rest);
          assert u == [u[0]] + u[1..];
          CompleteTail([u[0]], u[1..]);
        }
      }
    }
  }

  lemma {:induction false} AttrsMore(t: Tables, s: Str, more: Str)
    ensures var r := ReadAttrs(t, s);
            && (r.Syntax? && Complete(s) ==> !ReadAttrs(t, s + more).Got?)
            && (r.Ended? ==> ReadAttrs(t, s + [X.LT]).Syntax?)
            && (r.Got? ==> ReadAttrs(t, s + more) == More(r, more))
    decreases |s|
  {
    hide ReadAttr, Complete;
    var u := SkipSpace(s);
    SkipMore(s, more);
    SkipMore(s, [X.LT]);
    LessIsNoSpace();
    LessIsNoAttr(t);
    if u != [] {
      SliceAppend(u, more);
      SliceAppend(u, [X.LT]);
      if u[0] == SLASH || u[0] == X.GT {
        ClosedMore(t, s, u, more);
      } else {
        AttrMore(t, u, more);
        AttrMore(t, u, [X.LT]);
        CompleteParts(t, s);
        var a := ReadAttr(t, u);
        assert [] + [X.LT] == [X.LT];
        if a.Got? && a.rest != [] {
          AttrsMore(t, a.rest, more);
        }
      }
    }
  }

  lemma LessIsNoAttr(t: Tables)
    ensures ReadAttrs(t, [X.LT]).Syntax? && ReadAttrs(t, []).Ended?
  {
    LessIsNothing();
  }

  /** At the end of the tag. */
  lemma ClosedMore(t: Tables, s: Str, u: Str, more: Str)
    requires u == SkipSpace(s) && u != [] && (u[0] == SLASH || u[0] == X.GT)
    requires SkipSpace(s + more) == u + more && SkipSpace(s + [X.LT]) == u + [X.LT]
    ensures var r := ReadAttrs(t, s);
            && (r.Syntax? ==> !ReadAttrs(t, s + more).Got?)
            && (r.Ended? ==> ReadAttrs(t, s + [X.LT]).Syntax?)
            && (r.Got? ==> ReadAttrs(t, s + more) == More(r, more))
  {
    hide ReadAttr, SkipSpace;
    SliceAppend(u, more);
    if |u| > 1 {
      assert (u + more)[1] == u[1] && (u + more)[2..] == u[2..] + more && (u + [X.LT])[1] == u[1];
    }
  }

  lemma CompleteParts(t: Tables, s: Str)
    ensures Complete(s) ==> Complete(SkipSpace(s))
    ensures Complete(s) && ReadAttr(t, SkipSpace(s)).Got? && ReadAttr(t, SkipSpace(s)).rest != [] ==> Complete(ReadAttr(t, SkipSpace(s)).rest)
  {
    hide ReadAttr, Complete;
    var u := SkipSpace(s);
    if Complete(s) {
      CompleteSkip(s);
      if ReadAttr(t, u).Got? && ReadAttr(t, u).rest != [] {
        CompleteRest(t, u);
      }
    }
  }

  lemma CompleteRest(t: Tables, s: Str)
    requires Complete(s) && ReadAttr(t, s).Got? && ReadAttr(t, s).rest != []
    ensures Complete(ReadAttr(t, s).rest)
  {
    hide ReadAttr, Complete, NameThen, IsAttr;
    var f := ReadIsAttr(t, s);
    var rest := ReadAttr(t, s).rest;
    var head := AtTheEnd(f, rest);
    CompleteTail(head, rest);
  }

  lemma AtTheEnd(f: AttrForm, rest: Str) returns (head: Str)
    ensures f.name + NameThen(f, rest) == head + rest
  {
    head := f.name + (f.mid + ([EQUALS] + (f.after + ([f.quote] + (f.text + [f.quote])))));
  }

  lemma StartMore(t: Tables, s: Str, more: Str)
    ensures var r := ReadStart(t, s);
            && (r.Syntax? && Complete(s) ==> !ReadStart(t, s + more).Got?)
            && (r.Ended? ==> ReadStart(t, s + [X.LT]).Syntax?)
            && (r.Got? ==> ReadStart(t, s + more) == More(r, more))
  {
    hide IsName, ReadAttrs, ReadName;
    LessIsNothing();
    NameMore(t, s, more);
    NameMore(t, s, [X.LT]);
    var name := ReadNsName(t, s);
    if name.Ended? {
      NameCut(t, s, X.LT);
      LessIsNoAttr(t);
    } else if name.Got? {
      AttrsMore(t, name.rest, more);
      AttrsMore(t, name.rest, [X.LT]);
      if Complete(s) {
        NameIsRead(t, s);
        CompleteTail(ReadName(t, s).value, name.rest);
      }
    }
  }

  lemma EndMore(t: Tables, s: Str, more: Str)
    ensures var r := ReadEnd(t, s);
            && (r.Syntax? ==> ReadEnd(t, s + more).Syntax?)
            && (r.Ended? ==> ReadEnd(t, s + [X.LT]).Syntax?)
            && (r.Got? ==> ReadEnd(t, s + more) == More(r, more))
  {
    hide IsName, ReadName;
    LessIsNothing();
    LessIsNoSpace();
    NameMore(t, s, more);
    NameMore(t, s, [X.LT]);
    var name := ReadNsName(t, s);
    if name.Ended? {
      NameCut(t, s, X.LT);
    } else if name.Got? {
      SkipMore(name.rest, more);
      SkipMore(name.rest, [X.LT]);
      if SkipSpace(name.rest) != [] {
        SliceAppend(SkipSpace(name.rest), more);
      }
    }
  }

  // ---------- What ends with a mark ----------

  lemma FindMore(s: Str, more: Str, mark: Str)
    requires mark != []
    ensures Find(s, mark) < |s| ==> Find(s + more, mark) == Find(s, mark)
    ensures Find(s + mark, mark) < |s + mark|
  {
    var i := Find(s, mark);
    if i < |s| {
      MarkWithin(s, more, mark, i);
      forall j | 0 <= j < i ensures !(mark <= (s + more)[j..]) {
        MarkWithin(s, more, mark, j);
      }
      FindUnique(s + more, mark, i);
    }
    assert (s + mark)[|s|..] == mark;
  }

  lemma MarkWithin(s: Str, more: Str, mark: Str, j: nat)
    requires j + |mark| <= |s|
    ensures mark <= (s + more)[j..] <==> mark <= s[j..]
  {
    assert (s + more)[j..][..|mark|] == s[j..][..|mark|];
  }

  lemma CommentMore(s: Str, more: Str)
    ensures var r := ReadComment(s);
            && !r.Syntax? && (r.Ended? ==> ReadComment(s + END_COMMENT).Got?)
            && (r.Got? ==> ReadComment(s + more) == More(r, more))
  {
    hide Find;
    FindMore(s, more, END_COMMENT);
    var i := Find(s, END_COMMENT);
    if i < |s| {
      assert (s + more)[..i] == s[..i] && (s + more)[i + 3..] == s[i + 3..] + more;
    }
  }

  const SPACE_END: Str := [SPACE] + END_PROC_INST

  lemma ProcInstMore(t: Tables, s: Str, more: Str)
    ensures var r := ReadProcInst(t, s);
            && (r.Syntax? ==> ReadProcInst(t, s + more).Syntax?)
            && (r.Ended? ==> !ReadProcInst(t, s + SPACE_END).Ended?)
            && (r.Got? ==> ReadProcInst(t, s + more) == More(r, more))
  {
    hide IsName, ReadName, DeclarationOk, Find, SkipSpace;
    NameMore(t, s, more);
    NameMore(t, s, SPACE_END);
    var name := ReadName(t, s);
    if name.Ended? {
      TargetCut(t, s);
    } else if name.Got? {
      InstMore(name.rest, more);
      InstEnds(name.rest);
    }
  }

  lemma InstMore(s: Str, more: Str)
    ensures var u := SkipSpace(s);
            var i := Find(u, END_PROC_INST);
            i < |u| ==>
              var w := SkipSpace(s + more);
              Find(w, END_PROC_INST) == i < |w| && w[..i] == u[..i] && w[i + 2..] == u[i + 2..] + more
  {
    hide Find;
    var u := SkipSpace(s);
    SkipMore(s, more);
    FindMore(u, more, END_PROC_INST);
    var i := Find(u, END_PROC_INST);
    if i < |u| {
      assert (u + more)[..i] == u[..i] && (u + more)[i + 2..] == u[i + 2..] + more;
    }
  }

  lemma InstEnds(s: Str)
    ensures var w := SkipSpace(s + SPACE_END); Find(w, END_PROC_INST) < |w|
  {
    hide Find, SkipSpace, SPACE_END;
    var u := SkipSpace(s);
    SkipMore(s, SPACE_END);
    EndAfterSpace();
    EndsWithEnd(u);
  }

  lemma EndsWithEnd(u: Str)
    ensures Find(u + SPACE_END, END_PROC_INST) < |u + SPACE_END| && Find(END_PROC_INST, END_PROC_INST) < |END_PROC_INST|
  {
    hide Find;
    FindMore(u + [SPACE], [], END_PROC_INST);
    FindMore([], [], END_PROC_INST);
    assert u + SPACE_END == u + [SPACE] + END_PROC_INST && [] + END_PROC_INST == END_PROC_INST;
  }

  lemma EndAfterSpace()
    ensures SkipSpace(SPACE_END) == END_PROC_INST && !X.IsNameByte(SPACE)
  {
    assert SPACE_END[1..] == END_PROC_INST;
  }

  lemma TargetCut(t: Tables, s: Str)
    requires ReadName(t, s).Ended?
    ensures !ReadProcInst(t, s + SPACE_END).Ended?
  {
    hide IsName, DeclarationOk, Find, SkipSpace;
    RunMore(s, SPACE_END);
    EndAfterSpace();
    assert (s + SPACE_END)[..|s|] == s && (s + SPACE_END)[|s|..] == SPACE_END;
    InstEnds([]);
    assert [] + SPACE_END == SPACE_END;
  }

  // ---------- Directives and CDATA ----------

  lemma CommentStays(s: Str, more: Str)
    requires s != [] && BEGIN_COMMENT <= s[1..]
    ensures BEGIN_COMMENT <= (s + more)[1..] && (s + more)[1..][3..] == s[1..][3..] + more
  {
    assert (s + more)[1..] == s[1..] + more && (s[1..] + more)[..3] == s[1..][..3];
  }

  lemma {:induction false} NeedsClose(s: Str, buf: Str, quote: Byte, depth: nat)
    ensures Directing(s, buf, quote, depth).Got? ==> X.GT in s
    decreases |s|
  {
    hide Directing, Find, DepthAfter, QuoteAfter;
    DirectingEnds(s, buf, quote, depth);
    if s != [] {
      if CommentNext(s, quote) {
        var c := s[1..][3..];
        var i := Find(c, END_COMMENT);
        if i < |c| {
          NeedsClose(c[i + 3..], buf, quote, depth);
          assert forall b | b in c[i + 3..] :: b in s;
        }
      } else if !EndsDirective(s, quote, depth) {
        DirectingStep(s, buf, quote, depth);
        NeedsClose(s[1..], buf + [s[0]], QuoteAfter(s[0], quote), DepthAfter(s[0], quote, depth));
      }
    }
  }

  /** A comment that the bytes behind complete is only begun in these. */
  lemma CommentStarts(s: Str, more: Str, buf: Str, quote: Byte, depth: nat)
    requires s != [] && !CommentNext(s, quote) && CommentNext(s + more, quote)
    ensures !Directing(s, buf, quote, depth).Got?
  {
    hide Directing;
    var u := (s + more)[1..];
    S.BeginsWithComment(u);
    S.BeginsWithComment(s[1..]);
    assert u == s[1..] + more;
    assert |s| < 4;
    forall b | b in s ensures b != X.GT {
      var i :| 0 <= i < |s| && s[i] == b;
      assert i > 0 ==> u[i - 1] == s[i];
    }
    NeedsClose(s, buf, quote, depth);
  }

  lemma {:induction false} DirectingMore(s: Str, more: Str, buf: Str, quote: Byte, depth: nat)
    ensures !Directing(s, buf, quote, depth).Syntax?
    ensures Directing(s, buf, quote, depth).Got? ==> Directing(s + more, buf, quote, depth) == More(Directing(s, buf, quote, depth), more)
    decreases |s|
  {
    hide Directing, Find, DepthAfter, QuoteAfter;
    DirectingEnds(s, buf, quote, depth);
    DirectingEnds(s + more, buf, quote, depth);
    if s != [] {
      SliceAppend(s, more);
      if CommentNext(s, quote) {
        var c := s[1..][3..];
        var i := Find(c, END_COMMENT);
        CommentStays(s, more);
        FindMore(c, more, END_COMMENT);
        if i < |c| {
          assert (c + more)[i + 3..] == c[i + 3..] + more;
          DirectingMore(c[i + 3..], more, buf, quote, depth);
        }
      } else if !EndsDirective(s, quote, depth) {
        DirectingStep(s, buf, quote, depth);
        DirectingMore(s[1..], more, buf + [s[0]], QuoteAfter(s[0], quote), DepthAfter(s[0], quote, depth));
        if !CommentNext(s + more, quote) {
          DirectingStep(s + more, buf, quote, depth);
        } else {
          CommentStarts(s, more, buf, quote, depth);
        }
      }
    }
  }

  /** Closing the quote and all brackets ends a directive. */
  lemma {:induction false} ClosesAll(buf: Str, quote: Byte, depth: nat) returns (more: Str)
    requires quote == 0 || IsQuote(quote)
    ensures more != [] && more[0] != BANG && more[0] != DASH && Directing(more, buf, quote, depth).Got?
    decreases depth, if quote != 0 then 1 else 0
  {
    if quote != 0 {
      var m := ClosesAll(buf + [quote], 0, depth);
      more := [quote] + m;
      assert more[1..] == m;
    } else if depth == 0 {
      more := [X.GT];
    } else {
      var m := ClosesAll(buf + [X.GT], 0, depth - 1);
      more := [X.GT] + m;
      assert more[1..] == m;
    }
  }

  lemma SameStart(s: Str, more: Str, quote: Byte)
    requires s != [] && !CommentNext(s, quote)
    requires |s| < 4 ==> more != [] && more[0] != BANG && more[0] != DASH
    ensures !CommentNext(s + more, quote)
  {
    var u := s[1..] + more;
    assert (s + more)[1..] == u;
    S.BeginsWithComment(u);
    S.BeginsWithComment(s[1..]);
    if |s| < 4 {
      assert u[|s| - 1] == more[0];
    }
  }

  lemma NextQuote(b: Byte, quote: Byte)
    requires quote == 0 || IsQuote(quote)
    ensures QuoteAfter(b, quote) == 0 || IsQuote(QuoteAfter(b, quote))
  {
  }

  /** A directive that is cut off can be ended. */
  lemma {:induction false} DirectingCut(s: Str, buf: Str, quote: Byte, depth: nat) returns (more: Str)
    requires Directing(s, buf, quote, depth).Ended? && (quote == 0 || IsQuote(quote))
    ensures Directing(s + more, buf, quote, depth).Got?
    ensures |s| < 4 ==> more != [] && more[0] != BANG && more[0] != DASH
    decreases |s|
  {
    hide Directing, Find, DepthAfter, QuoteAfter;
    DirectingEnds(s, buf, quote, depth);
    if s == [] {
      more := ClosesAll(buf, quote, depth);
      assert s + more == more;
    } else if CommentNext(s, quote) {
      more := CommentCut(s, buf, quote, depth);
    } else {
      DirectingStep(s, buf, quote, depth);
      NextQuote(s[0], quote);
      more := DirectingCut(s[1..], buf + [s[0]], QuoteAfter(s[0], quote), DepthAfter(s[0], quote, depth));
      SliceAppend(s, more);
      SameStart(s, more, quote);
      DirectingStep(s + more, buf, quote, depth);
    }
  }

  lemma {:induction false} CommentCut(s: Str, buf: Str, quote: Byte, depth: nat) returns (more: Str)
    requires CommentNext(s, quote) && Directing(s, buf, quote, depth).Ended?
    ensures |s| >= 4 && Directing(s + more, buf, quote, depth).Got?
    decreases |s|, 0
  {
    hide Directing, Find;
    DirectingEnds(s, buf, quote, depth);
    var c := s[1..][3..];
    var i := Find(c, END_COMMENT);
    if i < |c| {
      more := DirectingCut(c[i + 3..], buf, quote, depth);
      CommentStays(s, more);
      FindMore(c, more, END_COMMENT);
      assert (c + more)[i + 3..] == c[i + 3..] + more;
    } else {
      var m := ClosesAll(buf, quote, depth);
      more := END_COMMENT + m;
      CommentStays(s, more);
      NoneIn(c, END_COMMENT);
      EndsOnceOnly();
      S.MarkAfter(c, END_COMMENT, m);
      assert (c + more)[i + 3..] == m;
    }
    SliceAppend(s, more);
    DirectingEnds(s + more, buf, quote, depth);
  }

  lemma NoneIn(s: Str, mark: Str)
    requires mark != []
    ensures Contains(s, mark) <==> Find(s, mark) < |s|
  {
  }

  lemma EndsOnceOnly()
    ensures S.EndsOnce(END_COMMENT)
  {
  }

  /** CDATA is only ended by its end, and never bad before. */
  lemma {:induction false} CDataMore(s: Str, more: Str, buf: Str, b0: Byte, b1: Byte)
    ensures var r := X.Scan(s, buf, b0, b1, X.NO_QUOTE, true);
            && !r.BadText?
            && (r.Scanned? ==> X.Scan(s + more, buf, b0, b1, X.NO_QUOTE, true) == X.Scanned(r.data, r.rest + more))
            && (r.CutText? ==> X.Scan(s + X.CLOSE, buf, b0, b1, X.NO_QUOTE, true).Scanned?)
    decreases |s|
  {
    if s == [] {
      X.ScanClose([], buf, b0, b1, true);
      assert X.CLOSE + [] == X.CLOSE && s + X.CLOSE == X.CLOSE;
    } else {
      var b, tail := s[0], s[1..];
      SliceAppend(s, more);
      SliceAppend(s, X.CLOSE);
      if !(b0 == X.BRACKET && b1 == X.BRACKET && b == X.GT) {
        CDataMore(tail, more, buf + Taken(b1, b), b1, b);
      }
    }
  }

  lemma SectionMore(s: Str, more: Str)
    ensures var r := ReadCData(s);
            && (r.Syntax? ==> ReadCData(s + more).Syntax?)
            && (r.Got? ==> ReadCData(s + more) == More(r, more))
  {
    hide X.Scan;
    if CDATA <= s {
      CDataMore(s[6..], more, [], 0, 0);
      assert (s + more)[6..] == s[6..] + more && (s + more)[..6] == s[..6];
    } else if !(s < CDATA) {
      var i :| 0 <= i < |s| && i < 6 && s[i] != CDATA[i] by {
        Differs(s, CDATA);
      }
      assert (s + more)[i] == s[i];
      OtherByte(s + more, CDATA, i);
    }
  }

  lemma Differs(s: Str, t: Str)
    requires !(t <= s) && !(s < t)
    ensures exists i :: 0 <= i < |s| && i < |t| && s[i] != t[i]
  {
    var n := if |s| < |t| then |s| else |t|;
    assert s[..|s|] == s && t[..|t|] == t;
    assert s[..n] != t[..n];
  }

  lemma SectionCut(s: Str) returns (more: Str)
    requires ReadCData(s).Ended?
    ensures !ReadCData(s + more).Ended?
  {
    hide X.Scan;
    if CDATA <= s {
      more := X.CLOSE;
      CDataMore(s[6..], [], [], 0, 0);
      assert (s + more)[6..] == s[6..] + more && (s + more)[..6] == s[..6];
    } else {
      more := [X.LT];
      assert (s + more)[|s|] == X.LT && CDATA[|s|] != X.LT;
      OtherByte(s + more, CDATA, |s|);
    }
  }

  lemma DeclarationMore(s: Str, more: Str)
    ensures var r := ReadDeclaration(s);
            && (r.Syntax? ==> ReadDeclaration(s + more).Syntax?)
            && (r.Got? ==> ReadDeclaration(s + more) == More(r, more))
  {
    hide ReadComment, ReadCData, Directing;
    if s != [] {
      SliceAppend(s, more);
      if s[0] == DASH {
        if |s| > 1 {
          assert (s + more)[1] == s[1] && (s + more)[2..] == s[2..] + more;
          CommentMore(s[2..], more);
        }
      } else if s[0] == OPEN_BRACKET {
        SectionMore(s[1..], more);
      } else {
        DirectingMore(s[1..], more, [s[0]], 0, 0);
      }
    }
  }

  lemma DeclarationCut(s: Str) returns (more: Str)
    requires ReadDeclaration(s).Ended?
    ensures !ReadDeclaration(s + more).Ended?
  {
    hide ReadComment, ReadCData, Directing;
    if s == [] {
      more := [DASH, SPACE];
      assert s + more == more;
    } else if s[0] == DASH {
      if |s| == 1 {
        more := [SPACE];
        assert (s + more)[0] == DASH && (s + more)[1] == SPACE;
      } else {
        more := END_COMMENT;
        CommentMore(s[2..], []);
        assert (s + more)[0] == s[0] && (s + more)[1] == s[1] && (s + more)[2..] == s[2..] + more;
      }
    } else if s[0] == OPEN_BRACKET {
      more := SectionCut(s[1..]);
      SliceAppend(s, more);
    } else {
      more := DirectingCut(s[1..], [s[0]], 0, 0);
      SliceAppend(s, more);
    }
  }

  // ---------- Markup ----------

  /** What has been read of markup does not depend on what follows, and bad markup that ends
      in an ASCII byte is never mended by it. */
  lemma BadStaysBad(t: Tables, s: Str, more: Str)
    requires s != [] && s[0] == X.LT
    ensures ReadRaw(t, s).Got? ==> ReadRaw(t, s + more) == More(ReadRaw(t, s), more)
    ensures ReadRaw(t, s).Syntax? && Complete(s) ==> !ReadRaw(t, s + more).Got?
  {
    hide ReadStart, ReadEnd, ReadProcInst, ReadDeclaration, X.TextOf;
    if |s| > 1 {
      var u := s + more;
      assert u[0] == s[0] && u[1] == s[1] && u[1..] == s[1..] + more && u[2..] == s[2..] + more;
      StartMore(t, s[1..], more);
      EndMore(t, s[2..], more);
      ProcInstMore(t, s[2..], more);
      DeclarationMore(s[2..], more);
      if Complete(s) {
        assert s == [s[0]] + s[1..];
        CompleteTail([s[0]], s[1..]);
      }
    }
  }

  /** Markup that is reported as cut off can go on so that it is not. */
  lemma CutGoesOn(t: Tables, s: Str) returns (more: Str)
    requires s != [] && s[0] == X.LT && ReadRaw(t, s).Ended?
    ensures !ReadRaw(t, s + more).Ended?
  {
    hide ReadStart, ReadEnd, ReadProcInst, ReadDeclaration, X.TextOf;
    if |s| == 1 {
      more := [X.LT];
      LessIsNoName(t, s + more);
    } else {
      if s[1] == SLASH {
        more := [X.LT];
        EndMore(t, s[2..], more);
      } else if s[1] == QUESTION {
        more := SPACE_END;
        ProcInstMore(t, s[2..], more);
      } else if s[1] == BANG {
        more := DeclarationCut(s[2..]);
      } else {
        more := [X.LT];
        StartMore(t, s[1..], more);
      }
      var u := s + more;
      assert u[0] == s[0] && u[1] == s[1] && u[1..] == s[1..] + more && u[2..] == s[2..] + more;
    }
  }

  lemma LessIsNoName(t: Tables, s: Str)
    requires |s| == 2 && s[0] == X.LT && s[1] == X.LT
    ensures ReadRaw(t, s).Syntax?
  {
    LessIsNothing();
    assert s[1..][0] == X.LT;
  }

  // ---------- Where a rune is cut ----------

  const A: Str := [0x61]
  const E_ACUTE: Str := [0xC3, 0xA9]

  /** <a a="\u00E9"/> */
  const ACCENTED := TagForm(A, [AttrForm([SPACE], A, [], [], X.QUOT, E_ACUTE)], [], true)

  /** The bytes before the last one of its rune. */
  const CUT: Str := [X.LT] + (A + ([SPACE] + (A + ([EQUALS] + ([X.QUOT] + [0xC3])))))

  /** It happens: cut off inside the rune of a value, a good tag is reported as bad, and not as cut off. */
  lemma CutRuneIsMended(t: Tables, rest: Str)
    ensures CUT <= TagThen(ACCENTED, rest) && ReadRaw(t, CUT) == Syntax
    ensures ReadRaw(t, TagThen(ACCENTED, rest)) == Got(Raw(Start(Name([], A), [Attr(Name([], A), E_ACUTE)]), true), rest)
  {
    AccentedIsTag(t);
    TagIsRead(t, ACCENTED, Name([], A), [Attr(Name([], A), E_ACUTE)], rest);
    CutIsBad(t);
    CutBegins(rest);
  }

  lemma CutBegins(rest: Str)
    ensures CUT <= TagThen(ACCENTED, rest)
  {
    var f := ACCENTED.attrs[0];
    var more := AttrsThen(ACCENTED.attrs[1..], ACCENTED.end + (Close(true) + rest));
    assert AttrsThen(ACCENTED.attrs, ACCENTED.end + (Close(true) + rest)) == AttrThen(f, more);
    assert TagThen(ACCENTED, rest) == CUT + ([0xA9] + ([X.QUOT] + more));
  }

  lemma AccentedIsTag(t: Tables)
    ensures IsTag(t, ACCENTED, Name([], A), [Attr(Name([], A), E_ACUTE)])
  {
    LetterIsName(t, 0x61);
    FirstColonUnique(A, 1);
    assert A[..1] == A;
    var f := ACCENTED.attrs[0];
    assert IsQuoted(X.QUOT, E_ACUTE, E_ACUTE) by {
      AccentIsRead();
    }
    assert IsAttr(t, f, Attr(Name([], A), E_ACUTE));
  }

  lemma AccentIsRead()
    ensures X.TextOf(E_ACUTE + [X.QUOT], X.QUOT, false) == X.Scanned(E_ACUTE, [])
  {
    var parts := [Chars(E_ACUTE)];
    assert E_ACUTE[1..] == [0xA9] && E_ACUTE[1..][1..] == [];
    assert X.Newlines([]) == [] && X.Newlines([0xA9]) == [0xA9] && X.Newlines(E_ACUTE) == E_ACUTE;
    assert Meaning(parts[1..]) == [] && Meaning(parts) == E_ACUTE;
    assert PartsThen(parts, [X.QUOT] + []) == E_ACUTE + [X.QUOT];
    assert Decode(E_ACUTE) == (0xE9, 2) && E_ACUTE[2..] == [];
    assert X.AllInRange(E_ACUTE);
    assert X.Plain(E_ACUTE[1..][1..], 0xC3, 0xA9, X.QUOT, false) && X.Plain(E_ACUTE[1..], 0, 0xC3, X.QUOT, false);
    assert parts[1..] == [] && AreParts(parts, X.QUOT);
    PartsAreRead(parts, [], X.QUOT);
  }

  lemma CutIsBad(t: Tables)
    ensures ReadRaw(t, CUT) == Syntax
  {
    hide IsName, ReadAttr, X.NameRun;
    var attr := A + ([EQUALS] + ([X.QUOT] + [0xC3]));
    LetterIsName(t, 0x61);
    S.NameReads(t, A, [SPACE] + attr);
    FirstColonUnique(A, 1);
    CutAttrIsBad(t);
    assert CUT[1..] == A + ([SPACE] + attr) && CUT[1] == 0x61;
    assert ([SPACE] + attr)[1..] == attr && SkipSpace([SPACE] + attr) == attr;
    StartFollows(t, CUT);
  }

  lemma CutAttrIsBad(t: Tables)
    ensures ReadAttr(t, A + ([EQUALS] + ([X.QUOT] + [0xC3]))) == Syntax
  {
    hide IsName, ReadValue, X.NameRun;
    var value: Str := [X.QUOT] + [0xC3];
    LetterIsName(t, 0x61);
    S.NameReads(t, A, [EQUALS] + value);
    HalfIsBad(value);
    assert ([EQUALS] + value)[1..] == value && SkipSpace(value) == value && SkipSpace([EQUALS] + value) == [EQUALS] + value;
  }

  lemma HalfIsBad(value: Str)
    requires value == [X.QUOT] + [0xC3]
    ensures ReadValue(value) == Syntax
  {
    var s: Str := [0xC3];
    assert value[1..] == s && s[1..] == [];
    ScanRound(s, [], 0, 0, X.QUOT);
    ScanNothing([] + s, 0, 0xC3, X.QUOT);
    assert [] + s == s;
  }
}
