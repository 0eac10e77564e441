/** From an expression to a verdict on a text: makedfa and match. */
module AwkMatch {
  import opened AwkRegex
  import opened AwkSearch
  import opened AwkTree
  import opened AwkCompiler
  import opened AwkDfa
  import opened AwkStates

  /** The expression with awk's leading dot-star, whose dot has position 0. */
  function Whole(p: Re): Re {
    Cat(Star(Leaf(0, Dot)), p)
  }

  /** Two contexts with the same follow positions give the positions below them the same ones. */
  lemma {:induction false} FollowShifts(r: Re, c: Ctx, d: Ctx, q: int, fin: int)
    requires Ordered(r) && Has(r, q) && FollowCtx(c, fin) == FollowCtx(d, fin)
    ensures FollowCtx(CtxAt(r, c, q), fin) == FollowCtx(CtxAt(r, d, q), fin)
    decreases r
  {
    match r
    case Leaf(_, _) =>
    case Star(e) => FollowShifts(e, UnderStar(e, c), UnderStar(e, d), q, fin);
    case Plus(e) => FollowShifts(e, UnderPlus(e, c), UnderPlus(e, d), q, fin);
    case Quest(e) => FollowShifts(e, UnderQuest(c), UnderQuest(d), q, fin);
    case Cat(a, b) =>
      LoIsBase(b, Lo(a) + Leaves(a));
      if Has(a, q) {
        FollowShifts(a, CatLeft(b, c), CatLeft(b, d), q, fin);
      } else {
        FollowShifts(b, CatRight(a, c), CatRight(a, d), q, fin);
      }
    case Or(a, b) =>
      LoIsBase(b, Lo(a) + Leaves(a));
      if Has(a, q) {
        FollowShifts(a, OrLeft(b, c), OrLeft(b, d), q, fin);
      } else {
        FollowShifts(b, OrRight(a, c), OrRight(a, d), q, fin);
      }
  }

  /** The positions of p keep their symbols and follow sets behind the dot-star, and the dot is
      followed by itself and by the initial positions of p. */
  lemma WholeFollows(p: Re, fin: int)
    requires Ordered(p) && Lo(p) == 1
    ensures Ordered(Whole(p)) && Lo(Whole(p)) == 0 && Leaves(Whole(p)) == Leaves(p) + 1
    ensures AwkRegex.Follow(Whole(p), 0, fin) == {0} + Initial(p, fin)
    ensures forall q | Has(p, q) :: Has(Whole(p), q) && SymAt(Whole(p), q) == SymAt(p, q)
    ensures forall q | Has(p, q) :: AwkRegex.Follow(Whole(p), q, fin) == AwkRegex.Follow(p, q, fin)
  {
    var dots := Star(Leaf(0, Dot));
    var up := CatLeft(p, Top);
    assert Leaves(Leaf(0, Dot)) == 1 && Leaves(dots) == 1;
    assert Ordered(Whole(p));
    assert CtxAt(Whole(p), Top, 0) == UnderStar(Leaf(0, Dot), up);
    assert FollowCtx(up, fin) == Initial(p, fin);
    assert FollowCtx(UnderStar(Leaf(0, Dot), up), fin) == {0} + FollowCtx(up, fin);
    forall q | Has(p, q)
      ensures Has(Whole(p), q) && SymAt(Whole(p), q) == SymAt(p, q)
      ensures AwkRegex.Follow(Whole(p), q, fin) == AwkRegex.Follow(p, q, fin)
    {
      assert CtxAt(Whole(p), Top, q) == CtxAt(p, CatRight(dots, Top), q);
      FollowShifts(p, CatRight(dots, Top), Top, q, fin);
    }
  }

  // Running the machine.

  /** State s of a working table, with the initial positions, holds exactly the positions full. */
  ghost predicate Holds(m: seq<Fa>, sets: seq<set<int>>, p: Re, fin: int, s: int, full: set<int>)
    requires Ordered(p)
  {
    Works(m, sets, p, fin) && 0 <= s < |m| && sets[s] + Initial(p, fin) == full
  }

  lemma FinalMeans(m: seq<Fa>, sets: seq<set<int>>, p: Re, fin: int, s: int, full: set<int>)
    requires Ordered(p) && Holds(m, sets, p, fin, s, full)
    ensures m[s].cch < 0 <==> fin in full
    ensures m[s].cch >= 0 ==> m[s].cch == |m[s].edges|
  {
    assert RowOk(m[s], sets, s, p, fin);
  }

  /** Looking c up leads to the state that holds what the search automaton reaches on c. */
  lemma LookupSteps(m: seq<Fa>, sets: seq<set<int>>, p: Re, fin: int, s: int, full: set<int>, c: int)
    requires Ordered(p) && Holds(m, sets, p, fin, s, full) && fin !in full
    ensures Holds(m, sets, p, fin, Lookup(m[s].edges, c), Initial(p, fin) + Step(p, fin, full, c))
  {
    assert RowOk(m[s], sets, s, p, fin);
    LookupFinds(m[s].edges, c);
    var t := Lookup(m[s].edges, c);
    if SomeLists(p, full, c) {
      assert (c, t) in m[s].edges;
    }
  }

  lemma SomeMonotone(p: Re, s: set<int>, t: set<int>, c: int)
    requires Ordered(p) && s <= t && SomeLists(p, s, c)
    ensures SomeLists(p, t, c)
  {
    var q :| q in s && Has(p, q) && Listed(SymAt(p, q), c);
    assert q in t;
  }

  lemma AnchoredLists(p: Re, fin: int)
    requires Rooted(p, fin) && WellFormed(p)
    ensures SomeLists(p, Initial(p, fin), HAT) <==> Anchored(p)
  {
    FirstBounds(p);
    if SomeLists(p, Initial(p, fin), HAT) {
      var q :| q in Initial(p, fin) && Has(p, q) && Listed(SymAt(p, q), HAT);
      SymAtOk(p, q);
      assert q in First(p);
    }
    if Anchored(p) {
      var q :| q in First(p) && Has(p, q) && SymAt(p, q) == Char(HAT);
      assert q in Initial(p, fin) && Listed(SymAt(p, q), HAT);
    }
  }

  /** The machine does not run on behind the text: a single transition in the state it starts in, if
      it is for the NUL, leads to a final state. */
  predicate Stops(m: seq<Fa>, start: int) {
    0 <= start < |m| && m[start].cch == 1 && |m[start].edges| == 1 && m[start].edges[0].0 == 0 ==>
      0 <= m[start].edges[0].1 < |m| && m[m[start].edges[0].1].cch < 0
  }

  /** The positions reached after the first n characters of a match's input. */
  ghost function After(p: Re, fin: int, text: seq<int>, n: int): set<int>
    requires Ordered(p) && 0 <= n <= |Input(p, text)|
  {
    Reach(p, fin, Input(p, text)[..n])
  }

  ghost function Hats(p: Re): (h: int)
    requires Ordered(p)
    ensures 0 <= h <= 1
  {
    if Anchored(p) then 1 else 0
  }

  /** The character at index i of a NUL-terminated text. */
  function At(text: seq<int>, i: int): int
    requires 0 <= i <= |text|
  {
    if i == |text| then 0 else text[i]
  }

  lemma AfterStep(p: Re, fin: int, text: seq<int>, n: int)
    requires Ordered(p) && 0 <= n < |Input(p, text)|
    ensures After(p, fin, text, n + 1) == Initial(p, fin) + Step(p, fin, After(p, fin, text, n), Input(p, text)[n])
    ensures After(p, fin, text, 0) == Initial(p, fin)
    ensures |Input(p, text)| == Hats(p) + |text| + 1
    ensures n >= Hats(p) ==> Input(p, text)[n] == At(text, n - Hats(p))
    ensures n < Hats(p) ==> Input(p, text)[n] == HAT
  {
    var w := Input(p, text);
    assert w[..n + 1][..n] == w[..n];
    assert w[..0] == [];
  }

  /** No prefix of the input up to n characters reaches the end marker. */
  ghost predicate Quiet(p: Re, fin: int, text: seq<int>, n: int)
    requires Ordered(p) && n <= |Input(p, text)|
  {
    forall k | 0 <= k <= n :: fin !in After(p, fin, text, k)
  }

  ghost predicate Setting(m: seq<Fa>, sets: seq<set<int>>, p: Re, fin: int, text: seq<int>) {
    Rooted(p, fin) && WellFormed(p) && Plain(text) && Works(m, sets, p, fin)
  }

  lemma Verdict(p: Re, fin: int, text: seq<int>)
    requires Rooted(p, fin) && WellFormed(p) && Plain(text)
    ensures Occurs(p, Input(p, text)) || Slips(p, fin, text) <==> !Quiet(p, fin, text, |Input(p, text)|)
  {
    hide Reach, Occurs, Slips;
    SearchFindsOccurrences(p, fin, text);
    if n :| 0 <= n <= |Input(p, text)| && fin in Reach(p, fin, Input(p, text)[..n]) {
      assert fin in After(p, fin, text, n);
    }
    if !Quiet(p, fin, text, |Input(p, text)|) {
      var k :| 0 <= k <= |Input(p, text)| && fin in After(p, fin, text, k);
    }
  }

  /** Where the machine starts: it has read '^' if there is a transition for it. */
  lemma StartHolds(m: seq<Fa>, sets: seq<set<int>>, p: Re, fin: int, text: seq<int>)
    requires Setting(m, sets, p, fin, text) && fin !in Initial(p, fin)
    ensures Hats(p) <= |Input(p, text)|
    ensures Holds(m, sets, p, fin, Lookup(m[0].edges, HAT), After(p, fin, text, Hats(p)))
    ensures Lookup(m[0].edges, HAT) != 0 ==> Anchored(p)
    ensures Quiet(p, fin, text, Hats(p) - 1)
  {
    AnchoredLists(p, fin);
    AfterStep(p, fin, text, 0);
    assert Holds(m, sets, p, fin, 0, Initial(p, fin));
    assert RowOk(m[0], sets, 0, p, fin);
    LookupFinds(m[0].edges, HAT);
    LookupSteps(m, sets, p, fin, 0, Initial(p, fin), HAT);
    assert sets[0] + Initial(p, fin) == Initial(p, fin);
  }

  /** The machine in state s stands for what has been read up to index i of the text. When p
      matches the empty word, state 0 says so before anything is read. */
  ghost predicate Standing(m: seq<Fa>, sets: seq<set<int>>, p: Re, fin: int, text: seq<int>, s: int, i: int)
    requires Ordered(p)
  {
    && 0 <= i <= |text| + 1 && Hats(p) + i <= |Input(p, text)|
    && if fin in Initial(p, fin) then s == 0
       else
         && Holds(m, sets, p, fin, s, After(p, fin, text, Hats(p) + i))
         && Quiet(p, fin, text, Hats(p) + i - 1)
         && (i == |text| + 1 ==> fin in After(p, fin, text, Hats(p) + i))
  }

  /** A final state gives the verdict. */
  lemma StandingFinal(m: seq<Fa>, sets: seq<set<int>>, p: Re, fin: int, text: seq<int>, s: int, i: int)
    requires Setting(m, sets, p, fin, text) && Standing(m, sets, p, fin, text, s, i)
    ensures 0 <= s < |m| && 0 <= i
    ensures m[s].cch < 0 ==> !Quiet(p, fin, text, |Input(p, text)|)
    ensures m[s].cch >= 0 ==>
      i <= |text| && Holds(m, sets, p, fin, s, After(p, fin, text, Hats(p) + i)) && Quiet(p, fin, text, Hats(p) + i)
  {
    hide Works, Input, After, Reach, Step, Initial;
    if fin in Initial(p, fin) {
      FirstHolds(m, sets, p, fin);
      FinalMeans(m, sets, p, fin, 0, Initial(p, fin));
      InputLength(p, text);
      AfterStep(p, fin, text, 0);
    } else {
      FinalMeans(m, sets, p, fin, s, After(p, fin, text, Hats(p) + i));
    }
  }

  lemma FirstHolds(m: seq<Fa>, sets: seq<set<int>>, p: Re, fin: int)
    requires Ordered(p) && Works(m, sets, p, fin)
    ensures Holds(m, sets, p, fin, 0, Initial(p, fin))
  {
  }

  /** The main loop of match, from the character at index i0 on: each character is looked up,
      and the run stops at a final state or after the terminating NUL. */
  method Advance(m: seq<Fa>, start: int, text: seq<int>, i0: int, ghost sets: seq<set<int>>, ghost p: Re,
                 ghost fin: int)
    returns (r: int)
    requires Setting(m, sets, p, fin, text) && Standing(m, sets, p, fin, text, start, i0)
    ensures r in {0, 1} && (r == 1 <==> !Quiet(p, fin, text, |Input(p, text)|))
  {
    hide Works, Input, After, WellFormed, Reach, Step, Initial, Standing;
    StandingFinal(m, sets, p, fin, text, start, i0);
    InputLength(p, text);
    var s, i := start, i0;
    if m[s].cch < 0 {
      return 1;
    }
    while true
      invariant 0 <= i <= |text|
      invariant Holds(m, sets, p, fin, s, After(p, fin, text, Hats(p) + i))
      invariant Quiet(p, fin, text, Hats(p) + i)
      decreases |text| - i
    {
      ghost var n := Hats(p) + i;
      AfterStep(p, fin, text, n);
      LookupSteps(m, sets, p, fin, s, After(p, fin, text, n), At(text, i));
      s := Scan(m[s].edges, At(text, i));
      FinalMeans(m, sets, p, fin, s, After(p, fin, text, n + 1));
      if m[s].cch < 0 {
        return 1;
      }
      if At(text, i) == 0 {
        assert i == |text|;
        return 0;
      }
      i := i + 1;
    }
  }

  lemma InputLength(p: Re, text: seq<int>)
    requires Ordered(p)
    ensures |Input(p, text)| == Hats(p) + |text| + 1
  {
  }

  /** The fast test for the first character: with a single transition, on c, all other characters
      are skipped. Returns the index after c, or -1 when there is no c. */
  method Skip(m: seq<Fa>, start: int, text: seq<int>, ghost sets: seq<set<int>>, ghost p: Re, ghost fin: int)
    returns (next: int)
    requires Setting(m, sets, p, fin, text) && fin !in Initial(p, fin)
    requires start == Lookup(m[0].edges, HAT) && 0 <= start < |m| && m[start].cch == 1 && Stops(m, start)
    ensures next == -1 ==> Quiet(p, fin, text, |Input(p, text)|)
    ensures next != -1 ==> |m[start].edges| == 1 && Standing(m, sets, p, fin, text, m[start].edges[0].1, next)
  {
    hide Works, Input, After, WellFormed, Reach, Step, Initial, SomeLists;
    StartHolds(m, sets, p, fin, text);
    InputLength(p, text);
    ghost var full := After(p, fin, text, Hats(p));
    FinalMeans(m, sets, p, fin, start, full);
    var c := m[start].edges[0].0;
    SingleEdge(m, sets, p, fin, start, full);
    FirstHolds(m, sets, p, fin);
    var i := 0;
    while true
      invariant 0 <= i <= |text| && Hats(p) + i <= |Input(p, text)|
      invariant After(p, fin, text, Hats(p) + i) == if i == 0 then full else Initial(p, fin)
      invariant Quiet(p, fin, text, Hats(p) + i)
      decreases |text| - i
    {
      ghost var n := Hats(p) + i;
      AfterStep(p, fin, text, n);
      if c == At(text, i) {
        if i > 0 && start != 0 {
          HatEdge(m, sets, p, fin, start, full);
          assert false;
        }
        SkipEnds(m, sets, p, fin, start, After(p, fin, text, n), c);
        return i + 1;
      }
      SkipStays(m, sets, p, fin, start, full, c, At(text, i));
      if At(text, i) == 0 {
        return -1;
      }
      i := i + 1;
    }
  }

  lemma SingleEdge(m: seq<Fa>, sets: seq<set<int>>, p: Re, fin: int, s: int, full: set<int>)
    requires Ordered(p) && Holds(m, sets, p, fin, s, full) && m[s].cch == 1
    ensures |m[s].edges| == 1
    ensures forall x :: SomeLists(p, full, x) ==> x == m[s].edges[0].0
  {
    assert RowOk(m[s], sets, s, p, fin);
  }

  /** A state entered on '^' still has a transition for it, and '^' is not in the text. */
  lemma HatEdge(m: seq<Fa>, sets: seq<set<int>>, p: Re, fin: int, s: int, full: set<int>)
    requires Rooted(p, fin) && WellFormed(p) && Holds(m, sets, p, fin, s, full) && m[s].cch == 1
    requires Anchored(p)
    ensures m[s].edges[0].0 == HAT
  {
    AnchoredLists(p, fin);
    SomeMonotone(p, Initial(p, fin), full, HAT);
    SingleEdge(m, sets, p, fin, s, full);
  }

  /** On the one character with a transition. */
  lemma SkipEnds(m: seq<Fa>, sets: seq<set<int>>, p: Re, fin: int, s: int, full: set<int>, c: int)
    requires Rooted(p, fin) && WellFormed(p) && Stops(m, s)
    requires Holds(m, sets, p, fin, s, full) && fin !in full
    requires |m[s].edges| == 1 && m[s].cch == 1 && c == m[s].edges[0].0
    ensures Holds(m, sets, p, fin, m[s].edges[0].1, Initial(p, fin) + Step(p, fin, full, c))
    ensures c == 0 ==> fin in Initial(p, fin) + Step(p, fin, full, c)
  {
    LookupSteps(m, sets, p, fin, s, full, c);
    LookupFinds(m[s].edges, c);
    assert HasEdge(m[s].edges, c);
    assert RowOk(m[s], sets, s, p, fin);
    if c == 0 {
      FinalMeans(m, sets, p, fin, m[s].edges[0].1, Initial(p, fin) + Step(p, fin, full, c));
    }
  }

  /** On any other character nothing is taken, from this state or from state 0. */
  lemma SkipStays(m: seq<Fa>, sets: seq<set<int>>, p: Re, fin: int, s: int, full: set<int>, c: int, x: int)
    requires Ordered(p) && Holds(m, sets, p, fin, s, full) && m[s].cch == 1
    requires |m[s].edges| == 1 && c == m[s].edges[0].0 && x != c
    ensures Step(p, fin, full, x) == {} && Step(p, fin, Initial(p, fin), x) == {}
  {
    SingleEdge(m, sets, p, fin, s, full);
    if SomeLists(p, Initial(p, fin), x) {
      SomeMonotone(p, Initial(p, fin), full, x);
    }
  }

  /** match: 1 exactly when a word of the expression occurs in the text, with '^' before its
      first character and NUL after its last, or the machine slips. A missing text does not match. */
  method Match(m: seq<Fa>, start: int, t: Option<seq<int>>, ghost sets: seq<set<int>>, ghost p: Re, ghost fin: int)
    returns (r: int)
    requires Rooted(p, fin) && WellFormed(p) && Stops(m, start)
    requires Works(m, sets, p, fin) && start == Lookup(m[0].edges, HAT)
    requires t.Some? ==> Plain(t.value)
    ensures r in {0, 1}
    ensures r == 1 <==> t.Some? && (Occurs(p, Input(p, t.value)) || Slips(p, fin, t.value))
  {
    if t == None {
      return 0;
    }
    hide WellFormed, Slips, Stops, Reach, Step, Occurs, In, Initial, Standing, Works;
    var text := t.value;
    Verdict(p, fin, text);
    StartStanding(m, sets, p, fin, text);
    if m[start].cch == 1 {
      var next := Skip(m, start, text, sets, p, fin);
      if next == -1 {
        return 0;
      }
      r := Advance(m, m[start].edges[0].1, text, next, sets, p, fin);
    } else {
      r := Advance(m, start, text, 0, sets, p, fin);
    }
  }

  lemma StartStanding(m: seq<Fa>, sets: seq<set<int>>, p: Re, fin: int, text: seq<int>)
    requires Setting(m, sets, p, fin, text)
    ensures |m| > 0
    ensures var start := Lookup(m[0].edges, HAT);
      Standing(m, sets, p, fin, text, start, 0) && 0 <= start < |m| &&
      (fin in Initial(p, fin) ==> m[start].cch == -1)
  {
    hide Input, After, Reach, Step;
    InputLength(p, text);
    if fin in Initial(p, fin) {
      assert RowOk(m[0], sets, 0, p, fin);
    } else {
      StartHolds(m, sets, p, fin, text);
    }
  }

  /** Where nothing need follow a '$' the machine stops in time, and does not slip. */
  lemma DollarEndsStops(m: seq<Fa>, sets: seq<set<int>>, p: Re, fin: int)
    requires Rooted(p, fin) && WellFormed(p) && DollarEnds(p, fin) && Works(m, sets, p, fin)
    ensures Stops(m, Lookup(m[0].edges, HAT))
  {
    hide Reach, Step, Initial, WellFormed, DollarEnds, SomeLists, SomeDollar, SomeWild, AcceptStep;
    var start := Lookup(m[0].edges, HAT);
    FirstHolds(m, sets, p, fin);
    FinalMeans(m, sets, p, fin, 0, Initial(p, fin));
    if fin in Initial(p, fin) {
      assert RowOk(m[0], sets, 0, p, fin);
    } else {
      LookupSteps(m, sets, p, fin, 0, Initial(p, fin), HAT);
      var full := Initial(p, fin) + Step(p, fin, Initial(p, fin), HAT);
      FinalMeans(m, sets, p, fin, start, full);
      if m[start].cch == 1 && m[start].edges[0].0 == 0 {
        assert RowOk(m[start], sets, start, p, fin) && HasEdge(m[start].edges, 0);
        StepNul(p, fin, full);
        DollarEndsStep(p, fin, full);
        LookupSteps(m, sets, p, fin, start, full, 0);
        FinalMeans(m, sets, p, fin, m[start].edges[0].1, Initial(p, fin) + Step(p, fin, full, 0));
      }
    }
  }

  lemma DollarEndsNoSlip(p: Re, fin: int, text: seq<int>)
    requires Rooted(p, fin) && WellFormed(p) && DollarEnds(p, fin) && Slips(p, fin, text)
    ensures Occurs(p, Input(p, text))
  {
    hide In, AcceptReach, AcceptStep, DollarEnds, SomeDollar, SomeWild;
    var w := Input(p, text);
    var front := Front(p, text);
    DollarEndsStep(p, fin, AcceptReach(p, fin, front));
    ReachSnoc(p, fin, front, 0);
    AcceptReachFinal(p, fin, w);
    var i :| 0 <= i <= |w| && In(p, w[i..]);
    assert w[i..|w|] == w[i..];
  }

  /** The compiled machine: its table and its starting state. */
  datatype Machine = Machine(table: seq<Fa>, start: int)

  /** A machine that matches r. */
  ghost predicate Compiled(mc: Machine, r: Re) {
    exists sets: seq<set<int>> :: CompiledBy(mc, r, sets)
  }

  ghost predicate CompiledBy(mc: Machine, r: Re, sets: seq<set<int>>) {
    var p := Number(r, 1);
    && Ordered(p)
    && Works(mc.table, sets, p, Leaves(r) + 1)
    && mc.start == Lookup(mc.table[0].edges, HAT)
  }

  lemma {:induction false} NumberWellFormed(r: Re, lo: int)
    requires WellFormed(r)
    ensures WellFormed(Number(r, lo))
  {
    match r
    case Leaf(_, _) =>
    case Star(e) => NumberWellFormed(e, lo);
    case Plus(e) => NumberWellFormed(e, lo);
    case Quest(e) => NumberWellFormed(e, lo);
    case Cat(a, b) => NumberWellFormed(a, lo); NumberWellFormed(b, lo + Leaves(a));
    case Or(a, b) => NumberWellFormed(a, lo); NumberWellFormed(b, lo + Leaves(a));
  }

  lemma NumberWhole(r: Re)
    ensures Number(Whole(r), 0) == Whole(Number(r, 1))
    ensures Leaves(Whole(r)) == Leaves(r) + 1
    ensures Ordered(Whole(Number(r, 1))) && Lo(Whole(Number(r, 1))) == 0 && Leaves(Whole(Number(r, 1))) == Leaves(r) + 1
    ensures Ordered(Number(r, 1)) && Lo(Number(r, 1)) == 1
    ensures Fits(Whole(Number(r, 1)), Top) && Plug(Whole(Number(r, 1)), Top) == Whole(Number(r, 1))
  {
    assert Leaves(Leaf(0, Dot)) == 1 && Leaves(Star(Leaf(0, Dot))) == 1;
    WholeFollows(Number(r, 1), 0);
  }

  lemma WholeTree(dot: Node, star: Node, p1: Node, p: Node, r: Re)
    requires Tree(p, r)
    requires dot.kind == LEAF && dot.sym == Dot && dot.left == null && dot.right == null
    requires star.kind == STAR && star.left == dot && star.right == null
    requires p1.kind == CAT && p1.left == star && p1.right == p
    requires dot != star && dot != p1 && star != p1
    requires dot !in Nodes(p, r) && star !in Nodes(p, r) && p1 !in Nodes(p, r)
    ensures Tree(p1, Whole(r)) && Nodes(p1, Whole(r)) == {dot, star, p1} + Nodes(p, r)
  {
    assert Tree(dot, Leaf(0, Dot)) && Nodes(dot, Leaf(0, Dot)) == {dot};
    assert Tree(star, Star(Leaf(0, Dot))) && Nodes(star, Star(Leaf(0, Dot))) == {star, dot};
  }

  lemma ReadyFacts(g: Compiler)
    requires g.Ready()
    ensures g.Sized() && 0 < g.line < g.maxlin && g.point.Length == g.marks.setvec.Length == g.foll.Length == g.maxlin
    ensures Ordered(g.root) && Lo(g.root) == 0 && Leaves(g.root) == g.line
    ensures g.top in g.nodes && g.top.re == g.root
  {
  }

  /** Follow sets and leaves entered for the whole tree hold those of the expression itself. */
  lemma WholeTabulated(g: Compiler, r: Re)
    requires WellFormed(r)
    requires g.Ready() && g.root == Whole(Number(r, 1))
    requires forall i | 0 <= i < g.line :: g.FollOk(i)
    requires forall i | 0 <= i < g.line :: g.IsPoint(i, g.root)
    requires g.point[g.line] != null && g.point[g.line].kind == FINAL
    ensures Tabulated(g, Number(r, 1)) && g.line == Leaves(r) + 1
  {
    hide Compiler.Ready, Whole, Number, Numbered, Lo, Leaves, AwkRegex.Follow, SymAt, Wired, Initial, IsVec;
    hide Members, WellFormed;
    var p := Number(r, 1);
    ReadyFacts(g);
    NumberWhole(r);
    NumberWellFormed(r, 1);
    WholeFollows(p, g.line);
    InitialBounds(p, g.line);
    assert g.FollOk(0);
    assert Members(g.foll[0]) == Initial(p, g.line);
    forall q | Has(p, q)
      ensures PosOk(g, p, q)
    {
      assert g.FollOk(q) && g.IsPoint(q, g.root);
      FollowBounds(p, q, g.line);
    }
  }

  /** Compiles the tree at p, which forms the expression r: puts a dot-star in front and an end
      marker on top, enters parents and positions, then follow sets, and builds the table. The
      test for room lets a state with number nstates through; here there is room for it. Fails
      exactly when the machine has more states than that. */
  method Makedfa(p: Node, ghost r: Re, ghost below: set<Node>, maxlin: nat, nstates: nat) returns (res: Option<Machine>)
    requires Tree(p, r) && below == Nodes(p, r) && WellFormed(r)
    requires Leaves(r) + 1 < maxlin
    modifies below
    ensures res.Some? ==> Compiled(res.value, r)
    ensures res.Some? ==> |res.value.table| == |States(Number(r, 1), Leaves(r) + 1)|
    ensures res.None? <==> |States(Number(r, 1), Leaves(r) + 1)| > nstates + 1
  {
    hide *;
    NumberWhole(r);
    var g := EnterTree(p, r, below, maxlin, nstates + 1);
    ReadyFacts(g);
    g.marks.setvec[0] := 1;
    g.Cfoll(g.root1);
    WholeTabulated(g, r);
    var t;
    ghost var sets;
    t, sets := Cgotofn(g, Number(r, 1));
    if t == None {
      return None;
    }
    var mc := Machine(t.value.0, t.value.1);
    CompiledIntro(mc, r, sets);
    res := Some(mc);
  }

  lemma CompiledIntro(mc: Machine, r: Re, sets: seq<set<int>>)
    requires Ordered(Number(r, 1)) && Works(mc.table, sets, Number(r, 1), Leaves(r) + 1)
    requires mc.start == Lookup(mc.table[0].edges, HAT)
    ensures Compiled(mc, r)
  {
    hide Works, Number, Numbered, Lo, Leaves, Lookup;
    assert CompiledBy(mc, r, sets);
  }

  /** The part of makedfa up to the positions. */
  method EnterTree(p: Node, ghost r: Re, ghost below: set<Node>, maxlin: nat, nstates: nat) returns (g: Compiler)
    requires Tree(p, r) && below == Nodes(p, r)
    requires Leaves(r) + 1 < maxlin
    modifies below
    ensures fresh(g) && fresh(g.marks) && fresh(g.marks.setvec) && fresh(g.foll) && fresh(g.state)
    ensures g.state.Length == nstates
    ensures g.Ready() && g.root == Whole(Number(r, 1)) && g.top in g.nodes && g.root1 == g.top
    ensures forall i | 0 <= i < g.line :: g.IsPoint(i, g.root)
    ensures g.point[g.line] != null && g.point[g.line].kind == FINAL
  {
    hide *;
    ghost var nodes;
    var p1;
    p1, nodes := PutDotStar(p, r, below);
    var final := new Node(FINAL, Dot, p1, null);
    NumberWhole(r);
    TreeKids(p1, Whole(r));
    g := new Compiler(maxlin, nstates, p1);
    g.Penter(p1, Whole(r), Top, Whole(Number(r, 1)), nodes);
    g.Adopt(final, p1, Whole(Number(r, 1)), Top, Whole(Number(r, 1)), nodes);
    g.Close(final, Whole(Number(r, 1)), nodes);
  }

  /** Puts the dot-star in front of the tree. */
  method PutDotStar(p: Node, ghost r: Re, ghost below: set<Node>) returns (p1: Node, ghost nodes: set<Node>)
    requires Tree(p, r) && below == Nodes(p, r)
    ensures p1 in nodes && fresh(nodes - below)
    ensures Tree(p1, Whole(r)) && nodes == Nodes(p1, Whole(r))
  {
    hide Tree, Nodes;
    var dot := new Node(LEAF, Dot, null, null);
    var star := new Node(STAR, Dot, dot, null);
    p1 := new Node(CAT, Dot, star, p);
    WholeTree(dot, star, p1, p, r);
    nodes := {dot, star, p1} + below;
  }
}
