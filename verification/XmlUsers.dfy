/** Users of a fence: an UnmarshalXML that reads tokens, skips elements, and has children
    unmarshalled in turn, each behind a fence of its own. */
module XmlUsers {
  import opened Wrappers
  import opened XmlTypes
  import opened XmlDecoder
  import opened XmlRaw
  import opened XmlFence

  /** What a user does with the decoder. `Child` reads a token and, if it is a start tag, has the
      element unmarshalled by a user who does `uses` and then reports a failure or not. */
  datatype Use = ReadToken | SkipElement | Child(uses: Uses, fails: bool)

  datatype Uses = NoMore | Do(use: Use, more: Uses)

  /** A user does one thing after the other and gives up at the first error. */
  function UseAll(d: Decoder, uses: Uses): (Decoder, bool)
    decreases uses
  {
    match uses
    case NoMore => (d, true)
    case Do(use, more) =>
      var (d', ok) := UseOne(d, use);
      if ok then UseAll(d', more) else (d', false)
  }

  function UseOne(d: Decoder, use: Use): (Decoder, bool)
    decreases use
  {
    match use
    case ReadToken => (NextToken(d).0, NextToken(d).1.Ok?)
    case SkipElement => (Skip(d).0, Skip(d).1.None?)
    case Child(uses, fails) =>
      var (d', r) := NextToken(d);
      if r.Err? then (d', false)
      else if r.value.Start? then
        StartIsOpen(d);
        var f := UseAll(PushEOF(d'), uses);
        var (d'', popped) := PopEOF(f.0);
        (d'', f.1 && !fails && popped)
      else (d', true)
  }

  /** How many tokens the user takes, as long as there is no error: its own, those that Skip reads,
      and those that the users of children take. */
  function TokensOfAll(d: Decoder, uses: Uses): nat
    decreases uses
  {
    match uses
    case NoMore => 0
    case Do(use, more) => TokensOfOne(d, use) + if UseOne(d, use).1 then TokensOfAll(UseOne(d, use).0, more) else 0
  }

  function TokensOfOne(d: Decoder, use: Use): nat
    decreases use
  {
    match use
    case ReadToken => 1
    case SkipElement => TokensOfSkip(d)
    case Child(uses, _) =>
      var (d', r) := NextToken(d);
      if r.Ok? && r.value.Start? then
        StartIsOpen(d);
        1 + TokensOfAll(PushEOF(d'), uses)
      else 1
  }

  function TokensOfSkip(d: Decoder): nat
    decreases Left(d)
  {
    var (d', r) := NextToken(d);
    if r.Err? then 0
    else
      TokenShortens(d);
      match r.value
      case Start(_, _) => 1 + TokensOfSkip(d') + if Skip(d').1.None? then TokensOfSkip(Skip(d').0) else 0
      case End(_) => 1
      case Other(_) => 1 + TokensOfSkip(d')
  }

  lemma StartIsOpen(d: Decoder)
    requires NextToken(d).1.Ok? && NextToken(d).1.value.Start?
    ensures InOpenElement(NextToken(d).0.stk)
  {
    assert NextToken(d).0.stk[0].StkStart?;
  }

  /** unmarshalInterface with such a user. */
  function Unmarshal(d: Decoder, uses: Uses, fails: bool): (Decoder, Unmarshalled)
    requires InOpenElement(d.stk)
  {
    var f := UseAll(PushEOF(d), uses);
    var (d', popped) := PopEOF(f.0);
    (d', if fails || !f.1 then UserError else if popped then Fine else NotConsumed)
  }

  // ---------- Reading ----------

  datatype Place = Place(d: Decoder, depth: nat)

  /** k tokens further on; None if there is an error before, or the element ends. */
  function Further(p: Place, k: nat): Option<Place>
    decreases k
  {
    if k == 0 then Some(p)
    else if p.depth == 0 || NextToken(p.d).1.Err? then None
    else Further(Place(NextToken(p.d).0, Depth(p.depth, NextToken(p.d).1.value)), k - 1)
  }

  lemma {:induction false} FurtherThen(p: Place, j: nat, q: Place, k: nat)
    requires Further(p, j) == Some(q)
    ensures Further(p, j + k) == Further(q, k)
    decreases j
  {
    hide NextToken;
    if j > 0 {
      FurtherThen(Place(NextToken(p.d).0, Depth(p.depth, NextToken(p.d).1.value)), j - 1, q, k);
    }
  }

  lemma {:induction false} FurtherIsReading(p: Place, k: nat, q: Place)
    requires Further(p, k) == Some(q)
    ensures ReadElement(p.d, p.depth, k).0 == q.d && ReadElement(p.d, p.depth, k).2 == if q.depth == 0 then Outcome.Done else More
    decreases k
  {
    if k > 0 {
      FurtherIsReading(Place(NextToken(p.d).0, Depth(p.depth, NextToken(p.d).1.value)), k - 1, q);
    }
  }

  /** Skip reads on to the end of the innermost element. */
  lemma {:induction false} SkipIsFurther(d: Decoder, depth: nat)
    requires depth > 0 && Skip(d).1.None?
    ensures Further(Place(d, depth), TokensOfSkip(d)) == Some(Place(Skip(d).0, depth - 1))
    decreases Left(d)
  {
    hide NextToken, Left;
    TokenShortens(d);
    var (d', r) := NextToken(d);
    match r.value
    case Start(_, _) =>
      SkipIsFurther(d', depth + 1);
      SkipIsFurther(Skip(d').0, depth);
      var j := TokensOfSkip(d');
      FurtherThen(Place(d', depth + 1), j, Place(Skip(d').0, depth), TokensOfSkip(Skip(d').0));
    case End(_) =>
      assert Further(Place(d', depth - 1), 0) == Some(Place(d', depth - 1));
    case Other(_) => SkipIsFurther(d', depth);
  }

  // ---------- Through the fence ----------

  /** Where the user is: inside the element, as without the fence; or at its end, with only the
      fence left to take off. */
  ghost predicate At(p: Place, f: Decoder, e: Element, upper: seq<Frame>) {
    if p.depth == 0 then PopEOF(f) == (p.d, true) && p.d.stk == e.rest
    else Fenced(p.d, f, e, upper) && p.depth == 1 + Opened(upper)
  }

  lemma TokenFurther(p: Place, f: Decoder, e: Element, upper: seq<Frame>) returns (q: Place, upper': seq<Frame>)
    requires IsElement(e) && At(p, f, e, upper) && NextToken(f).1.Ok?
    ensures p.depth > 0 && Further(p, 1) == Some(q) && At(q, NextToken(f).0, e, upper')
    ensures NextToken(p.d).1 == NextToken(f).1 && q.d == NextToken(p.d).0
  {
    upper' := FencedToken(p.d, f, e, upper);
    OpenedIsNothing(upper);
    q := Place(NextToken(p.d).0, Depth(p.depth, NextToken(p.d).1.value));
    assert Further(q, 0) == Some(q);
  }

  lemma OpenedIsNothing(upper: seq<Frame>)
    requires NoFence(upper) && Settled(upper)
    ensures Opened(upper) == 0 <==> upper == []
  {
  }

  /** Reading on behind the fence is reading on without it. */
  lemma {:induction false} FurtherFenced(p: Place, f: Decoder, e: Element, upper: seq<Frame>, depth: nat, k: nat, g: Place)
      returns (q: Place, upper': seq<Frame>)
    requires IsElement(e) && At(p, f, e, upper) && Further(Place(f, depth), k) == Some(g) && depth <= p.depth
    ensures Further(p, k) == Some(q) && At(q, g.d, e, upper') && q.depth == p.depth - depth + g.depth
    decreases k
  {
    q, upper' := p, upper;
    if k > 0 {
      var q1, u1 := TokenFurther(p, f, e, upper);
      var f1 := NextToken(f).0;
      q, upper' := FurtherFenced(q1, f1, e, u1, Depth(depth, NextToken(f).1.value), k - 1, g);
      FurtherThen(p, 1, q1, k - 1);
    }
  }

  lemma NotAtFence(p: Place, f: Decoder, e: Element, upper: seq<Frame>)
    requires IsElement(e) && At(p, f, e, upper)
    ensures PopEOF(f).1 <==> p.depth == 0
    ensures p.depth > 0 ==> Settled(f.stk) && f.err.None? && f.tail != Mismatch
  {
    if p.depth > 0 {
      OpenedIsNothing(upper);
      assert f.stk[0].StkStart?;
    }
  }

  /** Whatever a user does without an error is reading on in the element. */
  lemma {:induction false} UsesAreReading(p: Place, f: Decoder, e: Element, upper: seq<Frame>, uses: Uses) returns (q: Place, upper': seq<Frame>)
    requires IsElement(e) && At(p, f, e, upper) && UseAll(f, uses).1
    ensures Further(p, TokensOfAll(f, uses)) == Some(q) && At(q, UseAll(f, uses).0, e, upper')
    decreases uses, 0
  {
    hide Fenced, NextToken;
    match uses
    case NoMore => q, upper' := p, upper;
    case Do(use, more) =>
      var q1, u1 := UseIsReading(p, f, e, upper, use);
      q, upper' := UsesAreReading(q1, UseOne(f, use).0, e, u1, more);
      FurtherThen(p, TokensOfOne(f, use), q1, TokensOfAll(UseOne(f, use).0, more));
  }

  lemma SkipIsReading(p: Place, f: Decoder, e: Element, upper: seq<Frame>) returns (q: Place, upper': seq<Frame>)
    requires IsElement(e) && At(p, f, e, upper) && Skip(f).1.None?
    ensures Further(p, TokensOfSkip(f)) == Some(q) && At(q, Skip(f).0, e, upper')
  {
    hide Fenced, ReadRaw;
    NotAtFence(p, f, e, upper);
    SkipNeedsMore(f);
    SkipIsFurther(f, 1);
    hide At, Skip, TokensOfSkip, Further, NextToken;
    q, upper' := FurtherFenced(p, f, e, upper, 1, TokensOfSkip(f), Place(Skip(f).0, 0));
  }

  lemma SkipNeedsMore(f: Decoder)
    requires Skip(f).1.None?
    ensures !PopEOF(f).1
  {
    hide ReadRaw;
  }

  lemma {:induction false} UseIsReading(p: Place, f: Decoder, e: Element, upper: seq<Frame>, use: Use) returns (q: Place, upper': seq<Frame>)
    requires IsElement(e) && At(p, f, e, upper) && UseOne(f, use).1
    ensures Further(p, TokensOfOne(f, use)) == Some(q) && At(q, UseOne(f, use).0, e, upper')
    decreases use
  {
    hide Fenced, At, Skip, TokensOfSkip, Further, NextToken;
    match use
    case ReadToken => q, upper' := TokenFurther(p, f, e, upper);
    case SkipElement => q, upper' := SkipIsReading(p, f, e, upper);
    case Child(uses, fails) => q, upper' := ChildUseIsReading(p, f, e, upper, uses, fails);
  }

  lemma {:induction false} ChildUseIsReading(p: Place, f: Decoder, e: Element, upper: seq<Frame>, uses: Uses, fails: bool)
      returns (q: Place, upper': seq<Frame>)
    requires IsElement(e) && At(p, f, e, upper) && UseOne(f, Child(uses, fails)).1
    ensures Further(p, TokensOfOne(f, Child(uses, fails))) == Some(q) && At(q, UseOne(f, Child(uses, fails)).0, e, upper')
    decreases uses, 2
  {
    hide Fenced, At, Further, NextToken, PushEOF, PopEOF, InOpenElement;
    var q0, u0 := TokenFurther(p, f, e, upper);
    q, upper' := q0, u0;
    if NextToken(f).1.value.Start? {
      StartIsOpen(f);
      var f1 := NextToken(f).0;
      var g := ChildIsReading(p, f, e, upper, uses);
      ChildIsInside(p, q0, f);
      q, upper' := ChildFurther(p, f1, e, q0, u0, g, TokensOfAll(PushEOF(f1), uses));
    }
  }

  lemma ChildIsInside(p: Place, q: Place, f: Decoder)
    requires Further(p, 1) == Some(q) && NextToken(p.d).1 == NextToken(f).1 && NextToken(f).1.Ok? && NextToken(f).1.value.Start?
    ensures q.depth > 0
  {
    hide NextToken;
  }

  lemma ChildFurther(p: Place, f: Decoder, e: Element, q0: Place, u0: seq<Frame>, g: Place, j: nat)
      returns (q: Place, upper': seq<Frame>)
    requires IsElement(e) && Further(p, 1) == Some(q0) && At(q0, f, e, u0) && q0.depth > 0
    requires Further(Place(f, 1), j) == Some(g) && g.depth == 0
    ensures Further(p, 1 + j) == Some(q) && At(q, g.d, e, upper')
  {
    q, upper' := FurtherFenced(q0, f, e, u0, 1, j, g);
    FurtherThen(p, 1, q0, j);
  }

  /** A child that has been unmarshalled has been read to its end. */
  lemma {:induction false} ChildIsReading(p: Place, f: Decoder, e: Element, upper: seq<Frame>, uses: Uses) returns (q: Place)
    requires IsElement(e) && At(p, f, e, upper) && NextToken(f).1.Ok? && NextToken(f).1.value.Start?
    requires InOpenElement(NextToken(f).0.stk)
    requires UseAll(PushEOF(NextToken(f).0), uses).1 && PopEOF(UseAll(PushEOF(NextToken(f).0), uses).0).1
    ensures Further(Place(NextToken(f).0, 1), TokensOfAll(PushEOF(NextToken(f).0), uses)) == Some(q) && q.depth == 0
    ensures PopEOF(UseAll(PushEOF(NextToken(f).0), uses).0).0 == q.d
    decreases uses, 1
  {
    NotAtFence(p, f, e, upper);
    var f1 := NextToken(f).0;
    var e1 := FencedAfterStart(f);
    var u1;
    q, u1 := UsesAreReading(Place(f1, 1), PushEOF(f1), e1, [], uses);
    NotAtFence(q, UseAll(PushEOF(f1), uses).0, e1, u1);
  }

  /** For a user that gives up at errors, the unmarshalling of an element succeeds exactly when the
      user has no error and the tokens it takes in all, by reading, skipping and unmarshalling
      children, are the rest of the element to its end. The decoder is then where it would be had
      it skipped the element. */
  lemma UsersAreExact(d0: Decoder, uses: Uses, fails: bool)
    requires Settled(d0.stk) && d0.err.None? && d0.tail != Mismatch
    requires NextToken(d0).1.Ok? && NextToken(d0).1.value.Start?
    ensures var d := NextToken(d0).0;
            && InOpenElement(d.stk)
            && var (u, r) := Unmarshal(d, uses, fails);
               var ok := UseAll(PushEOF(d), uses).1;
               var (d', _, o) := ReadElement(d, 1, TokensOfAll(PushEOF(d), uses));
               && (r == Fine <==> !fails && ok && o.Done?)
               && (ok ==> !o.Failed?)
               && (r == Fine ==> u == d' && Skip(d) == (u, None) && LevelOf(u) == LevelOf(d0))
  {
    hide NextToken, Skip, ReadElement, UseAll, TokensOfAll, LevelOf, At, PushEOF, PopEOF;
    var d := NextToken(d0).0;
    StartIsOpen(d0);
    var f := PushEOF(d);
    if UseAll(f, uses).1 {
      var e := FencedAfterStart(d0);
      AtStart(d, f, e);
      var q, upper := UsesAreReading(Place(d, 1), f, e, [], uses);
      NotAtFence(q, UseAll(f, uses).0, e, upper);
      FurtherIsReading(Place(d, 1), TokensOfAll(f, uses), q);
      if q.depth == 0 {
        AtEnd(q, UseAll(f, uses).0, e, upper);
        SkipAgrees(d, TokensOfAll(f, uses));
        ElementRestores(d0, TokensOfAll(f, uses));
      }
    }
  }

  lemma AtStart(d: Decoder, f: Decoder, e: Element)
    requires Fenced(d, f, e, [])
    ensures At(Place(d, 1), f, e, [])
  {
  }

  lemma AtEnd(p: Place, f: Decoder, e: Element, upper: seq<Frame>)
    requires At(p, f, e, upper) && p.depth == 0
    ensures PopEOF(f) == (p.d, true)
  {
  }
}
