/** What a compiled expression matches, in terms of the expression alone. */
module AwkMeaning {
  import opened AwkRegex
  import opened AwkSearch
  import opened AwkDfa
  import opened AwkDollar
  import opened AwkMatch

  /** Can a word begin with '^'? */
  predicate HatFirst(r: Re) {
    match r
    case Leaf(_, s) => s == Char(HAT)
    case Star(e) => HatFirst(e)
    case Plus(e) => HatFirst(e)
    case Quest(e) => HatFirst(e)
    case Cat(a, b) => HatFirst(a) || (Nullable(a) && HatFirst(b))
    case Or(a, b) => HatFirst(a) || HatFirst(b)
  }

  /** Can every word end right after each of its '$'s? last says so for the end of r itself. */
  predicate DollarLast(r: Re, last: bool) {
    match r
    case Leaf(_, s) => s == Char(0) ==> last
    case Star(e) => DollarLast(e, last)
    case Plus(e) => DollarLast(e, last)
    case Quest(e) => DollarLast(e, last)
    case Cat(a, b) => DollarLast(a, Nullable(b) && last) && DollarLast(b, last)
    case Or(a, b) => DollarLast(a, last) && DollarLast(b, last)
  }

  lemma {:induction false} HatFirstIsInitial(p: Re)
    requires Ordered(p)
    ensures HatFirst(p) <==> Anchored(p)
  {
    FirstBounds(p);
    match p
    case Leaf(i, _) =>
      assert i in First(p);
    case Star(e) => HatFirstIsInitial(e); SameAnchors(p, e);
    case Plus(e) => HatFirstIsInitial(e); SameAnchors(p, e);
    case Quest(e) => HatFirstIsInitial(e); SameAnchors(p, e);
    case Cat(a, b) =>
      LoIsBase(b, Lo(a) + Leaves(a));
      HatFirstIsInitial(a);
      HatFirstIsInitial(b);
      PartAnchors(p, a);
      PartAnchors(p, b);
    case Or(a, b) =>
      LoIsBase(b, Lo(a) + Leaves(a));
      HatFirstIsInitial(a);
      HatFirstIsInitial(b);
      PartAnchors(p, a);
      PartAnchors(p, b);
  }

  lemma SameAnchors(p: Re, e: Re)
    requires Ordered(p) && p in {Star(e), Plus(e), Quest(e)}
    ensures Anchored(p) <==> Anchored(e)
  {
    if q :| q in First(p) && Has(p, q) && SymAt(p, q) == Char(HAT) {
      assert q in First(e) && Has(e, q);
    }
    if q :| q in First(e) && Has(e, q) && SymAt(e, q) == Char(HAT) {
      assert q in First(p) && Has(p, q);
    }
  }

  lemma PartAnchors(p: Re, e: Re)
    requires Ordered(p) && (p.Cat? || p.Or?) && e in {p.left, p.right} && Ordered(p.left) && Ordered(p.right)
    ensures Anchored(e) ==> Anchored(p) || (p.Cat? && e != p.left)
    ensures Anchored(e) && p.Cat? && Nullable(p.left) ==> Anchored(p)
    ensures Anchored(p) ==> Anchored(p.left) || ((p.Cat? ==> Nullable(p.left)) && Anchored(p.right))
  {
    var a, b := p.left, p.right;
    LoIsBase(b, Lo(a) + Leaves(a));
    FirstBounds(a);
    FirstBounds(b);
    if q :| q in First(e) && Has(e, q) && SymAt(e, q) == Char(HAT) {
      assert Has(p, q) && SymAt(p, q) == Char(HAT);
    }
    if q :| q in First(p) && Has(p, q) && SymAt(p, q) == Char(HAT) {
      if q in First(a) {
        assert SymAt(a, q) == Char(HAT);
      } else {
        assert q in First(b) && SymAt(b, q) == Char(HAT);
      }
    }
  }

  /** The '$'s of r, standing in ctx, can all be followed by the end marker. */
  ghost predicate DollarsEnd(r: Re, ctx: Ctx, fin: int)
    requires Ordered(r)
  {
    forall q | Has(r, q) && SymAt(r, q) == Char(0) :: fin in FollowCtx(CtxAt(r, ctx, q), fin)
  }

  lemma DollarsPart(r: Re, e: Re, ctx: Ctx, inner: Ctx, fin: int)
    requires Ordered(r)
    requires
      || (r == Star(e) && inner == UnderStar(e, ctx))
      || (r == Plus(e) && inner == UnderPlus(e, ctx))
      || (r == Quest(e) && inner == UnderQuest(ctx))
    ensures DollarsEnd(r, ctx, fin) <==> DollarsEnd(e, inner, fin)
  {
    hide FollowCtx;
    forall q | Has(r, q)
      ensures Has(e, q) && SymAt(e, q) == SymAt(r, q) && CtxAt(e, inner, q) == CtxAt(r, ctx, q)
    {
    }
    assert forall q | Has(e, q) :: Has(r, q);
  }

  lemma DollarsPair(r: Re, ctx: Ctx, ca: Ctx, cb: Ctx, fin: int)
    requires (r.Cat? || r.Or?) && Ordered(r) && Ordered(r.left) && Ordered(r.right)
    requires ca == if r.Cat? then CatLeft(r.right, ctx) else OrLeft(r.right, ctx)
    requires cb == if r.Cat? then CatRight(r.left, ctx) else OrRight(r.left, ctx)
    ensures DollarsEnd(r, ctx, fin) <==> DollarsEnd(r.left, ca, fin) && DollarsEnd(r.right, cb, fin)
  {
    hide FollowCtx;
    var a, b := r.left, r.right;
    LoIsBase(b, Lo(a) + Leaves(a));
    forall q | Has(a, q)
      ensures Has(r, q) && SymAt(a, q) == SymAt(r, q) && CtxAt(a, ca, q) == CtxAt(r, ctx, q)
    {
    }
    forall q | Has(b, q)
      ensures Has(r, q) && SymAt(b, q) == SymAt(r, q) && CtxAt(b, cb, q) == CtxAt(r, ctx, q)
    {
    }
    assert forall q | Has(r, q) :: Has(a, q) || Has(b, q);
  }

  /** Where the follow positions of a context include fin exactly when last holds, the '$'s of
      an expression in that context all have fin among theirs exactly when it is DollarLast. */
  lemma {:induction false} DollarLastIsFollow(r: Re, ctx: Ctx, fin: int, last: bool)
    requires Fits(r, ctx) && Rooted(Plug(r, ctx), fin) && (fin in FollowCtx(ctx, fin) <==> last)
    ensures DollarLast(r, last) <==> DollarsEnd(r, ctx, fin)
    decreases r
  {
    FollowCtxBounds(r, ctx, fin);
    FirstBounds(r);
    if r.Leaf? {
      assert Has(r, r.index);
      return;
    }
    hide DollarsEnd;
    match r
    case Star(e) =>
      DollarLastIsFollow(e, UnderStar(e, ctx), fin, last);
      DollarsPart(r, e, ctx, UnderStar(e, ctx), fin);
    case Plus(e) =>
      DollarLastIsFollow(e, UnderPlus(e, ctx), fin, last);
      DollarsPart(r, e, ctx, UnderPlus(e, ctx), fin);
    case Quest(e) =>
      DollarLastIsFollow(e, UnderQuest(ctx), fin, last);
      DollarsPart(r, e, ctx, UnderQuest(ctx), fin);
    case Cat(a, b) =>
      LoIsBase(b, Lo(a) + Leaves(a));
      FollowCtxBounds(b, CatRight(a, ctx), fin);
      FirstBounds(b);
      DollarLastIsFollow(a, CatLeft(b, ctx), fin, Nullable(b) && last);
      DollarLastIsFollow(b, CatRight(a, ctx), fin, last);
      DollarsPair(r, ctx, CatLeft(b, ctx), CatRight(a, ctx), fin);
    case Or(a, b) =>
      LoIsBase(b, Lo(a) + Leaves(a));
      DollarLastIsFollow(a, OrLeft(b, ctx), fin, last);
      DollarLastIsFollow(b, OrRight(a, ctx), fin, last);
      DollarsPair(r, ctx, OrLeft(b, ctx), OrRight(a, ctx), fin);
  }

  lemma {:induction false} NumberKeepsShape(r: Re, lo: int, last: bool)
    ensures Nullable(Number(r, lo)) == Nullable(r)
    ensures HatFirst(Number(r, lo)) == HatFirst(r)
    ensures DollarLast(Number(r, lo), last) == DollarLast(r, last)
    decreases r
  {
    match r
    case Leaf(_, _) =>
    case Star(e) => NumberKeepsShape(e, lo, last);
    case Plus(e) => NumberKeepsShape(e, lo, last);
    case Quest(e) => NumberKeepsShape(e, lo, last);
    case Cat(a, b) =>
      NumberKeepsShape(b, lo + Leaves(a), last);
      NumberKeepsShape(a, lo, Nullable(b) && last);
    case Or(a, b) =>
      NumberKeepsShape(a, lo, last);
      NumberKeepsShape(b, lo + Leaves(a), last);
  }

  /** What a match of text reads before the terminating NUL. */
  function Before(r: Re, text: seq<int>): seq<int> {
    (if HatFirst(r) then [HAT] else []) + text
  }

  /** The characters that a match of text goes by. */
  function Reading(r: Re, text: seq<int>): seq<int> {
    Before(r, text) + [0]
  }

  lemma NumberKeepsOccurs(r: Re, lo: int, w: seq<int>)
    ensures Occurs(Number(r, lo), w) <==> Occurs(r, w)
  {
    hide In, Number;
    if i, j :| 0 <= i <= j <= |w| && In(Number(r, lo), w[i..j]) {
      NumberKeepsLanguage(r, lo, w[i..j]);
    }
    if i, j :| 0 <= i <= j <= |w| && In(r, w[i..j]) {
      NumberKeepsLanguage(r, lo, w[i..j]);
    }
  }

  /** Before the NUL a word can go on with a dollar, and another end with any one character. */
  ghost predicate Astray(r: Re, text: seq<int>) {
    GoesOn(r, Before(r, text), 0) && EndsWild(r, Before(r, text))
  }

  lemma ReadingIsInput(r: Re, p: Re, fin: int, text: seq<int>)
    requires p == Number(r, 1) && fin == Leaves(r) + 1 && Rooted(p, fin)
    requires WellFormed(r) && WellFormed(p) && Plain(text)
    ensures Occurs(p, Input(p, text)) <==> Occurs(r, Reading(r, text))
    ensures Slips(p, fin, text) <==> Astray(r, text)
  {
    hide Occurs, Slips, Number, Leaves, WellFormed, Numbered, GoesOn, EndsWild, Anchored, HatFirst;
    NumberKeepsShape(r, 1, true);
    HatFirstIsInitial(p);
    assert Front(p, text) == Before(r, text);
    assert Input(p, text) == Reading(r, text);
    NumberKeepsOccurs(r, 1, Reading(r, text));
    SlipsIs(p, fin, text);
    NumberGoesOn(r, 1, Before(r, text));
  }

  /** A machine compiled from r, run on a text, finds exactly the texts in which a word of r
      occurs, and those at whose end it goes astray: with '^' before the first character when a
      word can begin with it, and with the terminating NUL, which is what '$' stands for, after
      the last. */
  method MatchText(mc: Machine, ghost r: Re, t: Option<seq<int>>) returns (res: int)
    requires Compiled(mc, r) && WellFormed(r) && Stops(mc.table, mc.start)
    requires t.Some? ==> Plain(t.value)
    ensures res in {0, 1}
    ensures res == 1 <==> t.Some? && (Occurs(r, Reading(r, t.value)) || Astray(r, t.value))
  {
    hide *;
    ghost var sets := TableOf(mc, r);
    ghost var p, fin := Number(r, 1), Leaves(r) + 1;
    CompiledFacts(mc, r, sets);
    NumberWellFormed(r, 1);
    if t.Some? {
      ReadingIsInput(r, p, fin, t.value);
    }
    res := Match(mc.table, mc.start, t, sets, p, fin);
  }

  lemma TableOf(mc: Machine, r: Re) returns (sets: seq<set<int>>)
    requires Compiled(mc, r)
    ensures CompiledBy(mc, r, sets)
  {
    hide CompiledBy;
    sets :| CompiledBy(mc, r, sets);
  }

  lemma CompiledFacts(mc: Machine, r: Re, sets: seq<set<int>>)
    requires CompiledBy(mc, r, sets)
    ensures Ordered(Number(r, 1)) && Rooted(Number(r, 1), Leaves(r) + 1)
    ensures Works(mc.table, sets, Number(r, 1), Leaves(r) + 1) && |mc.table| > 0
    ensures mc.start == Lookup(mc.table[0].edges, HAT)
  {
    hide Number, Numbered, Lo, Leaves, RowOk, Initial, Rooted, Lookup;
    RootedAbove(r);
  }

  lemma RootedAbove(r: Re)
    requires Ordered(Number(r, 1))
    ensures Rooted(Number(r, 1), Leaves(r) + 1)
  {
    hide Numbered, Lo, Leaves, Number;
    assert Lo(Number(r, 1)) == 1 && Leaves(Number(r, 1)) == Leaves(r);
  }

  /** An expression whose words can end after each of their dollars is searched for as it stands:
      no text leads its machine astray, nor past the end. */
  lemma DollarsLastSearch(mc: Machine, r: Re, text: seq<int>)
    requires Compiled(mc, r) && WellFormed(r) && DollarLast(r, true) && Plain(text)
    ensures Stops(mc.table, mc.start)
    ensures Astray(r, text) ==> Occurs(r, Reading(r, text))
  {
    hide *;
    var sets := TableOf(mc, r);
    var p, fin := Number(r, 1), Leaves(r) + 1;
    CompiledFacts(mc, r, sets);
    NumberWellFormed(r, 1);
    ReadingIsInput(r, p, fin, text);
    LastEnds(r, p, fin);
    DollarEndsStops(mc.table, sets, p, fin);
    if Slips(p, fin, text) {
      DollarEndsNoSlip(p, fin, text);
    }
  }

  lemma LastEnds(r: Re, p: Re, fin: int)
    requires p == Number(r, 1) && fin == Leaves(r) + 1 && Rooted(p, fin) && DollarLast(r, true)
    ensures DollarEnds(p, fin)
  {
    hide Number, Numbered, Lo, Leaves, DollarLast;
    NumberWhole(r);
    NumberKeepsShape(r, 1, true);
    DollarLastIsFollow(p, Top, fin, true);
  }

  /** A word can begin with an ordinary character. */
  ghost predicate Begins(r: Re) {
    exists c | Listed(Dot, c) :: GoesOn(r, [], c)
  }

  /** Words can begin with dollars, and with nothing else, and none is just that. */
  ghost predicate RunsOn(r: Re) {
    !HatFirst(r) && !Nullable(r) && GoesOn(r, [], 0) && !Begins(r) && !In(r, [0]) && !EndsWild(r, [])
  }

  lemma NoTransitions(m: seq<Fa>, sets: seq<set<int>>, p: Re, fin: int)
    requires Ordered(p) && Works(m, sets, p, fin) && fin in Initial(p, fin)
    ensures |m| > 0 && Lookup(m[0].edges, HAT) == 0 && Stops(m, 0)
  {
    assert RowOk(m[0], sets, 0, p, fin);
  }

  lemma StartFull(m: seq<Fa>, sets: seq<set<int>>, p: Re, fin: int) returns (full: set<int>)
    requires Rooted(p, fin) && WellFormed(p) && Works(m, sets, p, fin) && |m| > 0
    ensures 0 <= Lookup(m[0].edges, HAT) < |m|
    ensures Holds(m, sets, p, fin, Lookup(m[0].edges, HAT), full) && Initial(p, fin) <= full
  {
    hide Works, Step, Initial;
    FirstHolds(m, sets, p, fin);
    if fin in Initial(p, fin) {
      NoTransitions(m, sets, p, fin);
      full := Initial(p, fin);
    } else {
      full := Initial(p, fin) + Step(p, fin, Initial(p, fin), HAT);
      LookupSteps(m, sets, p, fin, 0, Initial(p, fin), HAT);
    }
  }

  /** The transitions from the initial positions, in terms of words. */
  lemma FirstTransitions(r: Re, p: Re, fin: int, c: int)
    requires p == Number(r, 1) && Rooted(p, fin) && WellFormed(p) && (c == 0 || Listed(Dot, c))
    ensures SomeLists(p, Initial(p, fin), c) <==> GoesOn(r, [], c)
  {
    hide SomeLists, GoesOn, Number, WellFormed, Numbered, Initial;
    FreeOrdered(p);
    GoesOnIs(p, fin, [], c);
    NumberGoesOn(r, 1, []);
    assert AcceptReach(p, fin, []) == Initial(p, fin);
  }

  /** There is just one, on the NUL. */
  ghost predicate NulAlone(p: Re, fin: int)
    requires Ordered(p)
  {
    forall c :: SomeLists(p, Initial(p, fin), c) <==> c == 0
  }

  lemma NulAloneIs(r: Re, p: Re, fin: int)
    requires p == Number(r, 1) && Rooted(p, fin) && WellFormed(p)
    ensures NulAlone(p, fin) <==> !HatFirst(r) && GoesOn(r, [], 0) && !Begins(r)
  {
    hide SomeLists, GoesOn, Number, WellFormed, Numbered, Initial, HatFirst, Anchored;
    NumberKeepsShape(r, 1, true);
    HatFirstIsInitial(p);
    AnchoredLists(p, fin);
    var init := Initial(p, fin);
    forall c
      ensures SomeLists(p, init, c) ==> c == 0 || c == HAT || Listed(Dot, c)
      ensures c == 0 || Listed(Dot, c) ==> (SomeLists(p, init, c) <==> GoesOn(r, [], c))
    {
      if SomeLists(p, init, c) {
        SomeBounds(p, init, c);
      }
      if c == 0 || Listed(Dot, c) {
        FirstTransitions(r, p, fin, c);
      }
    }
    assert HAT != 0 && !Listed(Dot, 0);
  }

  /** Where it leads to is final. */
  lemma NulLeads(r: Re, p: Re, fin: int)
    requires p == Number(r, 1) && Rooted(p, fin) && WellFormed(p) && !Nullable(r) && NulAlone(p, fin)
    ensures fin in Initial(p, fin) + Step(p, fin, Initial(p, fin), 0) <==> In(r, [0]) || EndsWild(r, [])
  {
    hide In, SomeLists, SomeDollar, SomeWild, Number, WellFormed, Numbered, AcceptStep, Step, EndsWild, First;
    var init := Initial(p, fin);
    FreeOrdered(p);
    NumberKeepsShape(r, 1, true);
    FirstBounds(p);
    assert SomeLists(p, init, 0);
    StepNul(p, fin, init);
    assert AcceptReach(p, fin, []) == init;
    EndsWildIs(p, fin, []);
    NumberGoesOn(r, 1, []);
    ReachSnoc(p, fin, [], 0);
    assert [] + [0] == [0];
    AcceptReachFinal(p, fin, [0]);
    NullableIsEmptyWord(p);
    NumberKeepsLanguage(r, 1, [0]);
    assert [0][0..] == [0] && [0][1..] == [];
  }

  lemma NullableFinal(r: Re, p: Re, fin: int)
    requires p == Number(r, 1) && Rooted(p, fin)
    ensures fin in Initial(p, fin) <==> Nullable(r)
  {
    hide Number, Numbered;
    NumberKeepsShape(r, 1, true);
    FirstBounds(p);
  }

  /** A row with a transition on the NUL and no other. */
  lemma RowAlone(m: seq<Fa>, sets: seq<set<int>>, p: Re, fin: int)
    requires Ordered(p) && Works(m, sets, p, fin) && fin !in Initial(p, fin) && |m| > 0
    ensures var row := m[0]; row.cch == |row.edges|
    ensures var row := m[0]; NulAlone(p, fin) <==> |row.edges| == 1 && row.edges[0].0 == 0
  {
    hide SomeLists, Initial;
    var edges := m[0].edges;
    assert RowOk(m[0], sets, 0, p, fin);
    assert sets[0] + Initial(p, fin) == Initial(p, fin);
    assert |edges| > 1 ==> edges[0].0 != edges[1].0;
    if NulAlone(p, fin) {
      assert HasEdge(edges, 0);
      forall i | 0 <= i < |edges|
        ensures edges[i].0 == 0
      {
        assert HasEdge(edges, edges[i].0);
      }
    }
    if |edges| == 1 && edges[0].0 == 0 {
      forall c
        ensures HasEdge(edges, c) <==> c == 0
      {
        if c == 0 { assert edges[0].0 == c; }
      }
    }
  }

  /** From state 0. */
  lemma StopsAtStart(m: seq<Fa>, sets: seq<set<int>>, r: Re, p: Re, fin: int)
    requires p == Number(r, 1) && Rooted(p, fin) && WellFormed(p) && !Nullable(r) && Works(m, sets, p, fin) && |m| > 0
    ensures Stops(m, 0) <==> !(NulAlone(p, fin) && !In(r, [0]) && !EndsWild(r, []))
  {
    hide In, NulAlone, Number, WellFormed, Numbered, Works, Step, Initial, EndsWild;
    var init := Initial(p, fin);
    NullableFinal(r, p, fin);
    FirstHolds(m, sets, p, fin);
    FinalMeans(m, sets, p, fin, 0, init);
    RowAlone(m, sets, p, fin);
    if NulAlone(p, fin) {
      NulLeads(r, p, fin);
      LookupSteps(m, sets, p, fin, 0, init, 0);
      OneEdge(m[0].edges);
      FinalMeans(m, sets, p, fin, m[0].edges[0].1, init + Step(p, fin, init, 0));
    }
  }

  lemma OneEdge(edges: seq<(int, int)>)
    requires |edges| == 1
    ensures Lookup(edges, edges[0].0) == edges[0].1
  {
  }

  lemma StopsAnchored(m: seq<Fa>, sets: seq<set<int>>, p: Re, fin: int)
    requires Rooted(p, fin) && WellFormed(p) && Works(m, sets, p, fin) && |m| > 0 && Anchored(p)
    ensures Stops(m, Lookup(m[0].edges, HAT))
  {
    hide Works, Step, Initial, Anchored, SomeLists, WellFormed;
    var start := Lookup(m[0].edges, HAT);
    var full := StartFull(m, sets, p, fin);
    AnchoredLists(p, fin);
    if m[start].cch == 1 {
      SingleEdge(m, sets, p, fin, start, full);
      SomeMonotone(p, Initial(p, fin), full, HAT);
      assert m[start].edges[0].0 == HAT;
    }
  }

  lemma StartsAtFirst(m: seq<Fa>, sets: seq<set<int>>, p: Re, fin: int)
    requires Rooted(p, fin) && WellFormed(p) && Works(m, sets, p, fin) && |m| > 0 && !Anchored(p)
    requires fin !in Initial(p, fin)
    ensures Lookup(m[0].edges, HAT) == 0
  {
    hide Initial, Anchored, SomeLists, WellFormed;
    AnchoredLists(p, fin);
    assert RowOk(m[0], sets, 0, p, fin);
    assert sets[0] + Initial(p, fin) == Initial(p, fin);
    LookupFinds(m[0].edges, HAT);
  }

  /** A machine would go on behind a text exactly when its expression RunsOn. */
  lemma StopsUnless(mc: Machine, r: Re)
    requires Compiled(mc, r) && WellFormed(r)
    ensures Stops(mc.table, mc.start) <==> !RunsOn(r)
  {
    hide *;
    var sets := TableOf(mc, r);
    var p, fin := Number(r, 1), Leaves(r) + 1;
    CompiledFacts(mc, r, sets);
    NumberWellFormed(r, 1);
    NumberKeepsShape(r, 1, true);
    HatFirstIsInitial(p);
    NullableFinal(r, p, fin);
    NulAloneIs(r, p, fin);
    RunsOnIs(r);
    if Nullable(r) {
      NoTransitions(mc.table, sets, p, fin);
    } else if HatFirst(r) {
      StopsAnchored(mc.table, sets, p, fin);
    } else {
      StartsAtFirst(mc.table, sets, p, fin);
      StopsAtStart(mc.table, sets, r, p, fin);
    }
  }

  lemma RunsOnIs(r: Re)
    ensures RunsOn(r) <==>
      !HatFirst(r) && !Nullable(r) && GoesOn(r, [], 0) && !Begins(r) && !In(r, [0]) && !EndsWild(r, [])
  {
    hide In, GoesOn, Begins, EndsWild, HatFirst, Nullable;
  }

  predicate DollarB(r: Re, x: Re, y: Re) {
    x == Leaf(1, Char(0)) && y == Leaf(2, Char(98)) && r == Cat(x, y)
  }

  lemma DollarBShape(r: Re, x: Re, y: Re)
    requires DollarB(r, x, y)
    ensures WellFormed(r) && !HatFirst(r) && !Nullable(r) && Free(r) == r
  {
    assert !Nullable(x) && !HatFirst(x);
  }

  lemma DollarBGoesOn(r: Re, x: Re, y: Re, u: seq<int>)
    requires DollarB(r, x, y) && u == [] && Free(r) == r
    ensures GoesOn(r, u, 0)
  {
    hide Free;
    InCat(x, y, [0], [98]);
    assert u[0..] + ([0] + [98]) == [0] + [98];
  }

  lemma DollarBOnly(r: Re, x: Re, y: Re, u: seq<int>)
    requires DollarB(r, x, y) && u == [] && Free(r) == r
    ensures !Begins(r) && !In(r, [0]) && !EndsWild(r, u)
  {
    hide In, Free;
    forall w | In(r, w)
      ensures w == [0, 98]
    {
      DollarThenB(x, y, w);
    }
    forall c, v | Listed(Dot, c)
      ensures !In(r, u[0..] + ([c] + v))
    {
      assert (u[0..] + ([c] + v))[0] == c;
    }
    assert u[0..] + [NONE] == [NONE];
  }

  /** $b is such an expression. */
  lemma DollarRunsOn(r: Re, x: Re, y: Re)
    requires DollarB(r, x, y)
    ensures WellFormed(r) && RunsOn(r)
  {
    hide *;
    DollarBShape(r, x, y);
    DollarBGoesOn(r, x, y, []);
    DollarBOnly(r, x, y, []);
    RunsOnIs(r);
  }

  lemma DollarThenB(x: Re, y: Re, w: seq<int>)
    requires x == Leaf(1, Char(0)) && y == Leaf(2, Char(98)) && In(Cat(x, y), w)
    ensures w == [0, 98]
  {
    var u, v := SplitCat(x, y, w);
  }

  /** r is ($b|.), the dollar being the terminating NUL. */
  predicate DollarOrDot(r: Re, x: Re, y: Re, d: Re) {
    x == Leaf(1, Char(0)) && y == Leaf(2, Char(98)) && d == Leaf(3, Dot) && r == Or(Cat(x, y), d)
  }

  lemma DollarDotShape(r: Re, x: Re, y: Re, d: Re)
    requires DollarOrDot(r, x, y, d)
    ensures WellFormed(r) && !DollarLast(r, true) && !HatFirst(r)
  {
    assert !Nullable(y) && !Nullable(x);
    assert !HatFirst(x) && !HatFirst(y);
  }

  lemma DollarDotAstray(r: Re, x: Re, y: Re, d: Re)
    requires DollarOrDot(r, x, y, d)
    ensures GoesOn(r, [], 0) && EndsWild(r, [])
  {
    hide UpTo;
    InCat(Free(x), Free(y), [0], [98]);
    assert In(Free(d), [NONE]);
    var u: seq<int> := [];
    assert u[0..] + ([0] + [98]) == [0] + [98] && u[0..] + [NONE] == [NONE];
    assert In(Free(r), u[0..] + ([0] + [98])) && In(Free(r), u[0..] + [NONE]);
  }

  lemma DollarDotWords(r: Re, x: Re, y: Re, d: Re, u: seq<int>)
    requires DollarOrDot(r, x, y, d) && |u| <= 1 && forall c | c in u :: c == 0
    ensures !In(r, u)
  {
    if In(r.left, u) {
      var v, w := SplitCat(x, y, u);
    }
    assert |u| == 1 ==> u[0] in u;
  }

  /** Where a word cannot end after one of its dollars the machine can find what is not there: with a
      transition on the NUL for the dollar it takes the dot on it too, and so finds ($b|.) in the
      empty text. */
  lemma DollarDotDeparts(r: Re, x: Re, y: Re, d: Re)
    requires DollarOrDot(r, x, y, d)
    ensures WellFormed(r) && !DollarLast(r, true)
    ensures forall mc | Compiled(mc, r) :: Stops(mc.table, mc.start)
    ensures Astray(r, []) && !Occurs(r, Reading(r, []))
  {
    hide *;
    DollarDotShape(r, x, y, d);
    DollarDotAstray(r, x, y, d);
    RunsOnIs(r);
    forall mc | Compiled(mc, r)
      ensures Stops(mc.table, mc.start)
    {
      StopsUnless(mc, r);
    }
    forall i, j | 0 <= i <= j <= 1
      ensures !In(r, [0][i..j])
    {
      DollarDotWords(r, x, y, d, [0][i..j]);
    }
    NothingRead(r);
  }

  lemma NothingRead(r: Re)
    requires !HatFirst(r) && GoesOn(r, [], 0) && EndsWild(r, [])
    requires forall i, j | 0 <= i <= j <= 1 :: !In(r, [0][i..j])
    ensures Astray(r, []) && !Occurs(r, Reading(r, []))
  {
    hide In, HatFirst, GoesOn, EndsWild;
    assert Before(r, []) == [];
    assert Reading(r, []) == [0];
  }
}
