/** Which directives the encoder accepts, said without a loop: those that are made of plain bytes,
    quoted texts, comments, and brackets around such pieces. */
module XmlDirective {
  import opened Utf8
  import opened XmlTypes
  import opened XmlNames
  import opened XmlRaw
  import opened XmlPrinter
  import X = XmlText

  /** A comment is given by what follows its `<!`, up to and with its end. */
  datatype Piece =
    | Plain(b: Byte)
    | Quoted(quote: Byte, text: Str)
    | Remark(text: Str)
    | Nested(inner: seq<Piece>)

  /** The bytes of the pieces, and then more. */
  function PiecesThen(ps: seq<Piece>, more: Str): Str
    decreases ps
  {
    if ps == [] then more else PieceThen(ps[0], PiecesThen(ps[1..], more))
  }

  function PieceThen(p: Piece, more: Str): Str
    decreases p
  {
    match p
    case Plain(b) => [b] + more
    case Quoted(quote, text) => [quote] + (text + ([quote] + more))
    case Remark(text) => [X.LT, BANG] + (text + more)
    case Nested(inner) => [X.LT] + PiecesThen(inner, [X.GT] + more)
  }

  /** Two dashes, and the end of a comment at the end and not before; it may share the dashes. */
  predicate IsRemark(text: Str) {
    |text| >= 3 && text[0] == DASH && text[1] == DASH && Find(text, END_COMMENT) == |text| - 3
  }

  predicate IsGood(p: Piece) {
    match p
    case Plain(b) => b != X.LT && b != X.GT && b != X.QUOT && b != X.APOS
    case Quoted(quote, text) => (quote == X.QUOT || quote == X.APOS) && quote !in text
    case Remark(text) => IsRemark(text)
    case Nested(inner) => AreGood(inner) && !(BEGIN_COMMENT <= PiecesThen(inner, [X.GT]))
  }

  predicate AreGood(ps: seq<Piece>) {
    ps != [] ==> IsGood(ps[0]) && AreGood(ps[1..])
  }

  predicate Valid(dir: Str, i: nat, depth: nat)
    requires i <= |dir|
  {
    ValidFrom(dir, i, depth, 0, false)
  }

  // ---------- Single pieces ----------

  /** A quoted text is passed over. */
  lemma {:induction false} QuotedPasses(dir: Str, i: nat, j: nat, depth: nat, quote: Byte)
    requires i <= j < |dir| && quote != 0 && dir[j] == quote && forall k | i <= k < j :: dir[k] != quote
    ensures ValidFrom(dir, i, depth, quote, false) == Valid(dir, j + 1, depth)
    decreases j - i
  {
    if i < j {
      QuotedPasses(dir, i + 1, j, depth, quote);
    }
  }

  lemma {:induction false} QuotedCloses(dir: Str, i: nat, depth: nat, quote: Byte) returns (j: nat)
    requires i <= |dir| && quote != 0 && ValidFrom(dir, i, depth, quote, false)
    ensures i <= j < |dir| && dir[j] == quote && forall k | i <= k < j :: dir[k] != quote
    decreases |dir| - i
  {
    if dir[i] == quote {
      j := i;
    } else {
      j := QuotedCloses(dir, i + 1, depth, quote);
    }
  }

  predicate EndsAt(dir: Str, j: nat) {
    j < |dir| && EndsComment(dir, j)
  }

  /** So is a comment. */
  lemma {:induction false} RemarkPasses(dir: Str, i: nat, j: nat, depth: nat)
    requires i <= j < |dir| && EndsAt(dir, j) && forall k | i <= k < j :: !EndsAt(dir, k)
    ensures ValidFrom(dir, i, depth, 0, true) == Valid(dir, j + 1, depth)
    decreases j - i
  {
    hide EndsComment;
    EndIsClose(dir, j);
    if i < j {
      assert !EndsAt(dir, i);
      RemarkPasses(dir, i + 1, j, depth);
    }
  }

  lemma EndIsClose(dir: Str, j: nat)
    requires EndsAt(dir, j)
    ensures 2 <= j < |dir| && dir[j] == X.GT && dir[j - 1] == DASH && dir[j - 2] == DASH
  {
    assert dir[j - 2..j + 1][2] == dir[j] && dir[j - 2..j + 1][1] == dir[j - 1] && dir[j - 2..j + 1][0] == dir[j - 2];
  }

  lemma {:induction false} RemarkCloses(dir: Str, i: nat, depth: nat) returns (j: nat)
    requires i <= |dir| && ValidFrom(dir, i, depth, 0, true)
    ensures i <= j < |dir| && EndsAt(dir, j) && forall k | i <= k < j :: !EndsAt(dir, k)
    decreases |dir| - i
  {
    hide EndsComment;
    if EndsAt(dir, i) {
      j := i;
    } else {
      j := RemarkCloses(dir, i + 1, depth);
    }
  }

  /** Where a comment ends in its directive and in its own text. */
  lemma SameEnds(dir: Str, i: nat, text: Str, k: nat)
    requires i + 2 + |text| <= |dir| && dir[i + 2..i + 2 + |text|] == text && dir[i] == X.LT && dir[i + 1] == BANG
    requires i < k < i + 2 + |text|
    ensures EndsAt(dir, k) <==> k >= i + 4 && END_COMMENT <= text[k - i - 4..]
  {
    if EndsAt(dir, k) {
      EndIsClose(dir, k);
    }
    if k >= i + 4 {
      var a := k - i - 4;
      assert text[a..][..3] == dir[k - 2..k + 1];
    }
  }

  lemma RemarkEnds(dir: Str, i: nat, text: Str)
    requires IsRemark(text) && i + 2 + |text| <= |dir| && dir[i + 2..i + 2 + |text|] == text && dir[i] == X.LT && dir[i + 1] == BANG
    ensures EndsAt(dir, i + 1 + |text|) && forall k | i < k < i + 1 + |text| :: !EndsAt(dir, k)
  {
    hide EndsAt;
    SameEnds(dir, i, text, i + 1 + |text|);
    forall k | i < k < i + 1 + |text| ensures !EndsAt(dir, k) {
      SameEnds(dir, i, text, k);
    }
  }

  lemma EndsRemark(dir: Str, i: nat, j: nat)
    requires i + 4 < |dir| && BeginsComment(dir, i) && i < j && EndsAt(dir, j) && forall k | i < k < j :: !EndsAt(dir, k)
    ensures j >= i + 4 && IsRemark(dir[i + 2..j + 1])
  {
    hide EndsAt;
    BeginIsOpen(dir, i);
    EndIsClose(dir, j);
    assert j != i + 1 && j != i + 2 && j != i + 3;
    var text := dir[i + 2..j + 1];
    SameEnds(dir, i, text, j);
    forall a | 0 <= a < |text| - 3 ensures !(END_COMMENT <= text[a..]) {
      SameEnds(dir, i, text, a + i + 4);
    }
    FindUnique(text, END_COMMENT, |text| - 3);
  }

  lemma BeginIsOpen(dir: Str, i: nat)
    requires i < |dir| && BeginsComment(dir, i)
    ensures i + 4 < |dir| && dir[i] == X.LT && dir[i + 1] == BANG && dir[i + 2] == DASH && dir[i + 3] == DASH
  {
    var s := dir[i..i + 4];
    assert s[0] == dir[i] && s[1] == dir[i + 1] && s[2] == dir[i + 2] && s[3] == dir[i + 3];
  }

  /** A bracket that begins no comment is not followed by `!--`. */
  lemma BeginsExactly(dir: Str, i: nat)
    requires i < |dir| && dir[i] == X.LT
    ensures BeginsComment(dir, i) <==> BEGIN_COMMENT <= dir[i + 1..] && i + 4 < |dir|
  {
    if BEGIN_COMMENT <= dir[i + 1..] {
      assert dir[i + 1..][..3] == dir[i + 1..i + 4];
      assert dir[i..i + 4] == [dir[i]] + dir[i + 1..i + 4];
    }
    if BeginsComment(dir, i) {
      BeginIsOpen(dir, i);
      assert dir[i + 1..][..3] == [dir[i + 1], dir[i + 2], dir[i + 3]];
    }
  }

  /** It makes no difference what comes behind the closing bracket. */
  lemma {:induction false} PiecesEnd(ps: seq<Piece>, more: Str)
    ensures PiecesThen(ps, more) == PiecesThen(ps, []) + more
    decreases ps
  {
    if ps == [] {
      assert [] + more == more;
    } else {
      var rest, all := PiecesThen(ps[1..], []), PiecesThen(ps[1..], more);
      PiecesEnd(ps[1..], more);
      match ps[0]
      case Plain(b) => Regroup3([b], [], [], rest, more);
      case Quoted(quote, text) => Regroup3([quote], text, [quote], rest, more);
      case Remark(text) => Regroup3([X.LT, BANG], text, [], rest, more);
      case Nested(inner) =>
        PiecesEnd(inner, [X.GT] + rest);
        PiecesEnd(inner, [X.GT] + all);
        Regroup3([X.LT], PiecesThen(inner, []), [X.GT], rest, more);
    }
  }

  lemma Regroup3(a: Str, b: Str, c: Str, rest: Str, more: Str)
    ensures a + (b + (c + (rest + more))) == a + (b + (c + rest)) + more
    ensures a + (b + (rest + more)) == a + (b + rest) + more
    ensures a + (rest + more) == a + rest + more
  {
  }

  lemma BracketCounts(ps: seq<Piece>, rest: Str)
    ensures BEGIN_COMMENT <= PiecesThen(ps, [X.GT] + rest) <==> BEGIN_COMMENT <= PiecesThen(ps, [X.GT])
  {
    var s := PiecesThen(ps, []);
    PiecesEnd(ps, [X.GT] + rest);
    PiecesEnd(ps, [X.GT]);
    var t, u := s + [X.GT], s + ([X.GT] + rest);
    assert u == t + rest;
    assert |t| < 3 ==> u[|t| - 1] == X.GT;
    if |t| >= 3 {
      assert u[..3] == t[..3];
    }
  }

  // ---------- All pieces ----------

  /** The loop goes through good pieces, whatever the depth. */
  lemma {:induction false} PiecesPass(dir: Str, i: nat, depth: nat, ps: seq<Piece>, more: Str)
    requires i <= |dir| && dir[i..] == PiecesThen(ps, more) && AreGood(ps)
    ensures |more| <= |dir| - i && dir[|dir| - |more|..] == more && Valid(dir, i, depth) == Valid(dir, |dir| - |more|, depth)
    decreases ps
  {
    hide IsGood, PieceThen, Valid;
    if ps != [] {
      var rest := PiecesThen(ps[1..], more);
      PiecePasses(dir, i, depth, ps[0], rest);
      PiecesPass(dir, |dir| - |rest|, depth, ps[1..], more);
    }
  }

  lemma {:induction false} PiecePasses(dir: Str, i: nat, depth: nat, p: Piece, rest: Str)
    requires i <= |dir| && dir[i..] == PieceThen(p, rest) && IsGood(p)
    ensures |rest| <= |dir| - i && dir[|dir| - |rest|..] == rest && Valid(dir, i, depth) == Valid(dir, |dir| - |rest|, depth)
    decreases p
  {
    hide IsRemark, ValidFrom, BeginsComment;
    match p
    case Plain(b) => PlainFirst(dir, i, depth, b, rest);
    case Quoted(quote, text) => QuotedFirst(dir, i, depth, quote, text, rest);
    case Remark(text) => RemarkFirst(dir, i, depth, text, rest);
    case Nested(inner) =>
      OneFirst(dir, i, X.LT, PiecesThen(inner, [X.GT] + rest));
      BracketCounts(inner, rest);
      BeginsExactly(dir, i);
      PiecesPass(dir, i + 1, depth + 1, inner, [X.GT] + rest);
      OneFirst(dir, |dir| - |rest| - 1, X.GT, rest);
      Brackets(dir, i, |dir| - |rest| - 1, depth);
  }

  lemma PlainFirst(dir: Str, i: nat, depth: nat, b: Byte, rest: Str)
    requires i <= |dir| && dir[i..] == [b] + rest && IsGood(Plain(b))
    ensures |rest| <= |dir| - i && dir[|dir| - |rest|..] == rest && Valid(dir, i, depth) == Valid(dir, |dir| - |rest|, depth)
  {
    OneFirst(dir, i, b, rest);
  }

  /** An opening bracket and its closing one. */
  lemma Brackets(dir: Str, i: nat, j: nat, depth: nat)
    requires i < j < |dir| && dir[i] == X.LT && !BeginsComment(dir, i) && dir[j] == X.GT
    requires Valid(dir, i + 1, depth + 1) == Valid(dir, j, depth + 1)
    ensures Valid(dir, i, depth) == Valid(dir, j + 1, depth)
  {
    hide BeginsComment;
  }

  lemma OneFirst(dir: Str, i: nat, b: Byte, rest: Str)
    requires i <= |dir| && dir[i..] == [b] + rest
    ensures i < |dir| && dir[i] == b && dir[i + 1..] == rest && |rest| == |dir| - i - 1
  {
    assert dir[i..][0] == dir[i] && dir[i..][1..] == dir[i + 1..];
  }

  lemma QuotedFirst(dir: Str, i: nat, depth: nat, quote: Byte, text: Str, rest: Str)
    requires i <= |dir| && dir[i..] == [quote] + (text + ([quote] + rest)) && (quote == X.QUOT || quote == X.APOS) && quote !in text
    ensures |rest| <= |dir| - i && dir[|dir| - |rest|..] == rest && Valid(dir, i, depth) == Valid(dir, |dir| - |rest|, depth)
  {
    var u, j := dir[i..], i + 1 + |text|;
    assert u[0] == dir[i] && u[1 + |text|] == dir[j] && u[2 + |text|..] == dir[j + 1..] && u[2 + |text|..] == rest;
    forall k | i + 1 <= k < j ensures dir[k] != quote {
      assert u[k - i] == dir[k] && u[k - i] == text[k - i - 1];
    }
    QuotedPasses(dir, i + 1, j, depth, quote);
  }

  lemma TwoThen(dir: Str, i: nat, text: Str, rest: Str)
    requires i <= |dir| && dir[i..] == [X.LT, BANG] + (text + rest)
    ensures |dir| == i + 2 + |text| + |rest| && dir[i] == X.LT && dir[i + 1] == BANG
    ensures dir[i + 2..i + 2 + |text|] == text && dir[i + 2 + |text|..] == rest
  {
    var u := dir[i..];
    assert |u| == |dir| - i && u[0] == dir[i] && u[1] == dir[i + 1];
    assert dir[i + 2..] == u[2..] && u[2..] == text + rest;
    assert dir[i + 2..i + 2 + |text|] == dir[i + 2..][..|text|];
    assert dir[i + 2 + |text|..] == dir[i + 2..][|text|..];
  }

  lemma RemarkFirst(dir: Str, i: nat, depth: nat, text: Str, rest: Str)
    requires i <= |dir| && dir[i..] == [X.LT, BANG] + (text + rest) && IsRemark(text)
    ensures |rest| <= |dir| - i && dir[|dir| - |rest|..] == rest && Valid(dir, i, depth) == Valid(dir, |dir| - |rest|, depth)
  {
    hide EndsComment, Find;
    var j := i + 1 + |text|;
    TwoThen(dir, i, text, rest);
    assert text[0] == dir[i + 2] && text[1] == dir[i + 3];
    assert dir[i..i + 4] == [dir[i], dir[i + 1], dir[i + 2], dir[i + 3]];
    RemarkEnds(dir, i, text);
    RemarkPasses(dir, i + 1, j, depth);
  }

  /** What is still open when the loop has come to a place: the pieces up to the closing bracket of
      each level, the innermost first. */
  function LevelsThen(levels: seq<seq<Piece>>): Str {
    if levels == [] then []
    else PiecesThen(levels[0], if |levels| == 1 then [] else [X.GT] + LevelsThen(levels[1..]))
  }

  predicate GoodLevels(levels: seq<seq<Piece>>) {
    forall i | 0 <= i < |levels| :: AreGood(levels[i])
  }

  /** Put a piece in front of the innermost level. */
  function Before(p: Piece, levels: seq<seq<Piece>>): seq<seq<Piece>>
    requires levels != []
  {
    [[p] + levels[0]] + levels[1..]
  }

  lemma BeforeThen(p: Piece, levels: seq<seq<Piece>>)
    requires levels != [] && GoodLevels(levels) && IsGood(p)
    ensures |Before(p, levels)| == |levels| && GoodLevels(Before(p, levels))
    ensures LevelsThen(Before(p, levels)) == PieceThen(p, LevelsThen(levels))
  {
    hide IsGood, PieceThen;
    var l := Before(p, levels);
    assert l[0][0] == p && l[0][1..] == levels[0] && l[1..] == levels[1..];
    assert AreGood(levels[0]);
  }

  /** What the loop accepts is made of good pieces. */
  lemma {:induction false} ValidIsPieces(dir: Str, i: nat, depth: nat) returns (levels: seq<seq<Piece>>)
    requires i <= |dir| && Valid(dir, i, depth)
    ensures |levels| == depth + 1 && GoodLevels(levels) && dir[i..] == LevelsThen(levels)
    decreases |dir| - i
  {
    hide EndsComment, BeginsComment, IsRemark, LevelsThen, GoodLevels, Before, EndsAt;
    if i == |dir| {
      levels := [[]];
      NothingOpen();
    } else {
      var c := dir[i];
      assert dir[i..] == [c] + dir[i + 1..];
      if c == X.APOS || c == X.QUOT {
        var j := QuotedCloses(dir, i + 1, depth, c);
        QuotedPasses(dir, i + 1, j, depth, c);
        var more := ValidIsPieces(dir, j + 1, depth);
        var p := Quoted(c, dir[i + 1..j]);
        levels := Before(p, more);
        BeforeThen(p, more);
        SplitAt(dir, i, j);
      } else if c == X.LT && BeginsComment(dir, i) {
        BeginIsOpen(dir, i);
        var j := RemarkCloses(dir, i + 1, depth);
        RemarkPasses(dir, i + 1, j, depth);
        EndsRemark(dir, i, j);
        var more := ValidIsPieces(dir, j + 1, depth);
        var p := Remark(dir[i + 2..j + 1]);
        levels := Before(p, more);
        BeforeThen(p, more);
        SplitAfter(dir, i, j);
      } else if c == X.LT {
        var more := ValidIsPieces(dir, i + 1, depth + 1);
        levels := Wrapped(dir, i, more);
      } else if c == X.GT {
        var more := ValidIsPieces(dir, i + 1, depth - 1);
        levels := [[]] + more;
        Closing(more);
      } else {
        var more := ValidIsPieces(dir, i + 1, depth);
        levels := Before(Plain(c), more);
        BeforeThen(Plain(c), more);
      }
    }
  }

  lemma SplitAt(dir: Str, i: nat, j: nat)
    requires i < j < |dir|
    ensures dir[i..] == [dir[i]] + (dir[i + 1..j] + ([dir[j]] + dir[j + 1..]))
  {
  }

  lemma SplitAfter(dir: Str, i: nat, j: nat)
    requires i + 1 < j < |dir|
    ensures dir[i..] == [dir[i], dir[i + 1]] + (dir[i + 2..j + 1] + dir[j + 1..])
  {
  }

  lemma NothingOpen()
    ensures LevelsThen([[]]) == [] && GoodLevels([[]])
  {
  }

  lemma Closing(levels: seq<seq<Piece>>)
    requires levels != [] && GoodLevels(levels)
    ensures LevelsThen([[]] + levels) == [X.GT] + LevelsThen(levels) && GoodLevels([[]] + levels)
  {
    var l: seq<seq<Piece>> := [[]] + levels;
    assert l[1..] == levels && l[0] == [];
  }

  /** The innermost level becomes a piece of the next. */
  lemma Wrapped(dir: Str, i: nat, more: seq<seq<Piece>>) returns (levels: seq<seq<Piece>>)
    requires i < |dir| && dir[i] == X.LT && !BeginsComment(dir, i)
    requires |more| >= 2 && GoodLevels(more) && dir[i + 1..] == LevelsThen(more)
    ensures |levels| == |more| - 1 && GoodLevels(levels) && dir[i..] == LevelsThen(levels)
  {
    hide BeginsComment;
    var p, outer := Nested(more[0]), more[1..];
    var rest := LevelsThen(outer);
    assert LevelsThen(more) == PiecesThen(more[0], [X.GT] + rest);
    BeginsExactly(dir, i);
    BracketCounts(more[0], rest);
    BracketShort(more[0], rest, |dir| - i - 1);
    assert AreGood(more[0]) && GoodLevels(outer);
    levels := Before(p, outer);
    BeforeThen(p, outer);
    assert dir[i..] == [dir[i]] + dir[i + 1..];
  }

  /** There is a closing bracket after what would begin a comment. */
  lemma BracketShort(ps: seq<Piece>, rest: Str, n: nat)
    requires n == |PiecesThen(ps, [X.GT] + rest)|
    ensures BEGIN_COMMENT <= PiecesThen(ps, [X.GT] + rest) ==> n > 3
  {
    var s := PiecesThen(ps, []);
    PiecesEnd(ps, [X.GT] + rest);
    var u := s + ([X.GT] + rest);
    assert u[|s|] == X.GT;
    assert BEGIN_COMMENT <= u ==> u[0] == BANG && u[1] == DASH && u[2] == DASH;
  }

  lemma OneLevel(levels: seq<seq<Piece>>)
    requires |levels| == 1
    ensures LevelsThen(levels) == PiecesThen(levels[0], [])
  {
  }

  /** The encoder accepts exactly the directives that are made of good pieces. */
  lemma DirectiveIsGrammar(t: Tables, text: Str, buffered: bool)
    ensures Encodes(t, Directive(text), buffered) <==> exists ps :: AreGood(ps) && text == PiecesThen(ps, [])
  {
    hide AreGood, PiecesThen, LevelsThen;
    assert text[0..] == text && Encodes(t, Directive(text), buffered) == Valid(text, 0, 0);
    if Valid(text, 0, 0) {
      var levels := ValidIsPieces(text, 0, 0);
      OneLevel(levels);
    }
    forall ps | AreGood(ps) && text == PiecesThen(ps, []) ensures Valid(text, 0, 0) {
      PiecesPass(text, 0, 0, ps, []);
    }
  }
}
