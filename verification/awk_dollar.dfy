/** When the machine slips at the end of a text, in terms of words. */
module AwkDollar {
  import opened AwkRegex
  import opened AwkSearch

  function UpTo(n: nat): (s: seq<int>)
    ensures forall c :: c in s <==> 1 <= c <= n
  {
    if n == 0 then [] else UpTo(n - 1) + [n]
  }

  function Without(s: seq<int>, cs: seq<int>): (r: seq<int>)
    ensures forall c :: c in r <==> c in s && c !in cs
  {
    if s == [] then [] else Without(s[..|s| - 1], cs) + if s[|s| - 1] in cs then [] else [s[|s| - 1]]
  }

  /** The same leaf, except that a dot or a negated class also takes NONE. */
  function FreeSym(s: Sym): Sym {
    match s
    case Dot => Ccl([NONE] + UpTo(NCHARS - 1))
    case Nccl(cs) => Ccl([NONE] + Without(UpTo(NCHARS - 1), cs))
    case _ => s
  }

  function Free(r: Re): Re {
    match r
    case Leaf(i, s) => Leaf(i, FreeSym(s))
    case Star(e) => Star(Free(e))
    case Plus(e) => Plus(Free(e))
    case Quest(e) => Quest(Free(e))
    case Cat(a, b) => Cat(Free(a), Free(b))
    case Or(a, b) => Or(Free(a), Free(b))
  }

  /** A word of r, with NONE allowed, can go on with c after u, begun anywhere in it. */
  ghost predicate GoesOn(r: Re, u: seq<int>, c: int) {
    exists i, v | 0 <= i <= |u| :: In(Free(r), u[i..] + ([c] + v))
  }

  /** One more character than u has, which only a dot or a negated class can be, ends a word. */
  ghost predicate EndsWild(r: Re, u: seq<int>) {
    exists i | 0 <= i <= |u| :: In(Free(r), u[i..] + [NONE])
  }

  lemma FreeAccepts(s: Sym, c: int)
    requires SymOk(s)
    ensures Accepts(FreeSym(s), c) <==> Accepts(s, c) || (c == NONE && (s.Dot? || s.Nccl?))
    ensures EmptyClass(FreeSym(s)) <==> EmptyClass(s)
    ensures 0 <= c < NCHARS && c != HAT ==> (Accepts(FreeSym(s), c) <==> Listed(s, c))
  {
  }

  // The same expression but for that.

  lemma {:induction false} FreeSize(r: Re, lo: int)
    ensures Lo(Free(r)) == Lo(r) && Leaves(Free(r)) == Leaves(r)
    ensures Numbered(r, lo) ==> Numbered(Free(r), lo)
  {
    hide FreeSym;
    match r
    case Leaf(_, _) =>
    case Star(e) => FreeSize(e, lo);
    case Plus(e) => FreeSize(e, lo);
    case Quest(e) => FreeSize(e, lo);
    case Cat(a, b) => FreeSize(a, lo); FreeSize(b, lo + Leaves(a));
    case Or(a, b) => FreeSize(a, lo); FreeSize(b, lo + Leaves(a));
  }

  lemma {:induction false} FreeNumber(r: Re, lo: int)
    ensures Free(Number(r, lo)) == Number(Free(r), lo)
    decreases r, 1
  {
    hide FreeSym, Leaves;
    match r
    case Leaf(_, _) =>
    case Star(e) => FreeNumber(e, lo);
    case Plus(e) => FreeNumber(e, lo);
    case Quest(e) => FreeNumber(e, lo);
    case Cat(a, b) => FreeNumberPair(r, a, b, lo);
    case Or(a, b) => FreeNumberPair(r, a, b, lo);
  }

  lemma {:induction false} FreeNumberPair(r: Re, a: Re, b: Re, lo: int)
    requires r == Cat(a, b) || r == Or(a, b)
    ensures Leaves(Free(a)) == Leaves(a)
    ensures Free(Number(a, lo)) == Number(Free(a), lo)
    ensures Free(Number(b, lo + Leaves(a))) == Number(Free(b), lo + Leaves(a))
    decreases r, 0
  {
    hide *;
    FreeSize(a, lo);
    FreeNumber(a, lo);
    FreeNumber(b, lo + Leaves(a));
  }

  lemma FreeEmpty(s: Sym)
    ensures EmptyClass(FreeSym(s)) <==> EmptyClass(s)
  {
  }

  lemma {:induction false} FreeFirst(r: Re)
    ensures Nullable(Free(r)) == Nullable(r) && First(Free(r)) == First(r)
  {
    hide FreeSym, EmptyClass;
    match r
    case Leaf(_, s) => FreeEmpty(s);
    case Star(e) => FreeFirst(e);
    case Plus(e) => FreeFirst(e);
    case Quest(e) => FreeFirst(e);
    case Cat(a, b) => FreeFirst(a); FreeFirst(b);
    case Or(a, b) => FreeFirst(a); FreeFirst(b);
  }

  lemma FreeOrdered(r: Re)
    requires Ordered(r)
    ensures Ordered(Free(r)) && forall q :: Has(Free(r), q) <==> Has(r, q)
  {
    FreeSize(r, Lo(r));
  }

  function FreeCtx(c: Ctx): Ctx {
    match c
    case Top => Top
    case UnderStar(e, up) => UnderStar(Free(e), FreeCtx(up))
    case UnderPlus(e, up) => UnderPlus(Free(e), FreeCtx(up))
    case UnderQuest(up) => UnderQuest(FreeCtx(up))
    case CatLeft(b, up) => CatLeft(Free(b), FreeCtx(up))
    case CatRight(a, up) => CatRight(Free(a), FreeCtx(up))
    case OrLeft(b, up) => OrLeft(Free(b), FreeCtx(up))
    case OrRight(a, up) => OrRight(Free(a), FreeCtx(up))
  }

  /** A position has the freed symbol, in the freed context. */
  lemma {:induction false} FreeAt(r: Re, c: Ctx, q: int)
    requires Ordered(r) && Has(r, q)
    ensures Ordered(Free(r)) && Has(Free(r), q)
    ensures SymAt(Free(r), q) == FreeSym(SymAt(r, q))
    ensures CtxAt(Free(r), FreeCtx(c), q) == FreeCtx(CtxAt(r, c, q))
    decreases r, 1
  {
    hide FreeSym;
    FreeOrdered(r);
    match r
    case Leaf(_, _) =>
    case Star(e) => FreeAt(e, UnderStar(e, c), q);
    case Plus(e) => FreeAt(e, UnderPlus(e, c), q);
    case Quest(e) => FreeAt(e, UnderQuest(c), q);
    case Cat(a, b) => FreeAtPair(r, a, b, c, CatLeft(b, c), CatRight(a, c), q);
    case Or(a, b) => FreeAtPair(r, a, b, c, OrLeft(b, c), OrRight(a, c), q);
  }

  lemma {:induction false} FreeAtPair(r: Re, a: Re, b: Re, c: Ctx, ca: Ctx, cb: Ctx, q: int)
    requires (r == Cat(a, b) && ca == CatLeft(b, c) && cb == CatRight(a, c)) ||
             (r == Or(a, b) && ca == OrLeft(b, c) && cb == OrRight(a, c))
    requires Ordered(r) && Has(r, q) && Ordered(Free(r)) && Has(Free(r), q)
    ensures SymAt(Free(r), q) == FreeSym(SymAt(r, q))
    ensures CtxAt(Free(r), FreeCtx(c), q) == FreeCtx(CtxAt(r, c, q))
    decreases r, 0
  {
    hide FreeSym;
    LoIsBase(b, Lo(a) + Leaves(a));
    FreeOrdered(a);
    FreeOrdered(b);
    FreeSize(a, Lo(a));
    if Has(a, q) {
      FreeAt(a, ca, q);
    } else {
      FreeAt(b, cb, q);
    }
  }

  lemma {:induction false} FreeFollowCtx(c: Ctx, fin: int)
    ensures FollowCtx(FreeCtx(c), fin) == FollowCtx(c, fin)
  {
    match c
    case Top =>
    case UnderStar(e, up) => FreeFirst(e); FreeFollowCtx(up, fin);
    case UnderPlus(e, up) => FreeFirst(e); FreeFollowCtx(up, fin);
    case UnderQuest(up) => FreeFollowCtx(up, fin);
    case CatLeft(b, up) => FreeFirst(b); FreeFollowCtx(up, fin);
    case CatRight(_, up) => FreeFollowCtx(up, fin);
    case OrLeft(_, up) => FreeFollowCtx(up, fin);
    case OrRight(_, up) => FreeFollowCtx(up, fin);
  }

  lemma FreeFollow(r: Re, q: int, fin: int)
    requires Ordered(r) && Has(r, q)
    ensures Ordered(Free(r)) && Has(Free(r), q)
    ensures SymAt(Free(r), q) == FreeSym(SymAt(r, q)) && Follow(Free(r), q, fin) == Follow(r, q, fin)
  {
    hide FollowCtx, SymAt, FreeSym;
    FreeAt(r, Top, q);
    FreeFollowCtx(CtxAt(r, Top, q), fin);
  }

  // What is reached with it.

  lemma FreeStep(r: Re, fin: int, s: set<int>, c: int)
    requires Ordered(r) && Ordered(Free(r)) && WellFormed(r) && c != NONE
    ensures AcceptStep(Free(r), fin, s, c) == AcceptStep(r, fin, s, c)
  {
    hide FreeSym, Follow, SymAt, Numbered, Has, WellFormed, SymOk;
    FreeOrdered(r);
    forall q | Has(r, q)
      ensures Has(Free(r), q) && Follow(Free(r), q, fin) == Follow(r, q, fin)
      ensures Accepts(SymAt(Free(r), q), c) <==> Accepts(SymAt(r, q), c)
    {
      FreeFollow(r, q, fin);
      SymAtOk(r, q);
      FreeAccepts(SymAt(r, q), c);
    }
  }

  lemma {:induction false} FreeReach(r: Re, fin: int, u: seq<int>)
    requires Ordered(r) && Ordered(Free(r)) && WellFormed(r) && NONE !in u
    ensures AcceptReach(Free(r), fin, u) == AcceptReach(r, fin, u)
    decreases |u|
  {
    hide AcceptStep, WellFormed, Numbered, First, Nullable;
    FreeFirst(r);
    assert Initial(Free(r), fin) == Initial(r, fin);
    if u != [] {
      var n := |u| - 1;
      assert forall c | c in u[..n] :: c in u;
      FreeReach(r, fin, u[..n]);
      FreeStep(r, fin, AcceptReach(r, fin, u[..n]), u[n]);
    }
  }

  lemma WildRun(r: Re, fin: int, q: int)
    requires Rooted(r, fin) && Rooted(Free(r), fin) && WellFormed(r)
    ensures Run(Free(r), fin, q, [NONE]) <==>
      Has(r, q) && (SymAt(r, q).Dot? || SymAt(r, q).Nccl?) && fin in Follow(r, q, fin)
  {
    hide FreeSym, Follow, SymAt, Numbered, WellFormed, FreeCtx;
    FreeOrdered(r);
    assert [NONE][1..] == [];
    if Has(r, q) {
      FreeFollow(r, q, fin);
      SymAtOk(r, q);
      FreeAccepts(SymAt(r, q), NONE);
      FollowBounds(r, q, fin);
      assert fin in Follow(r, q, fin) <==> exists p :: p in Follow(r, q, fin) && Run(Free(r), fin, p, []) by {
        assert Run(Free(r), fin, fin, []);
      }
    }
  }

  /** The wild positions that nothing need follow are where NONE ends a word. */
  lemma WildRuns(r: Re, fin: int, s: set<int>)
    requires Rooted(r, fin) && Rooted(Free(r), fin) && WellFormed(r)
    ensures SomeWild(r, fin, s) <==> exists q :: q in s && Run(Free(r), fin, q, [NONE])
  {
    hide Run, FreeSym, Follow, SymAt, Numbered, Has, WellFormed, FreeCtx;
    forall q
      ensures Run(Free(r), fin, q, [NONE]) <==>
        Has(r, q) && (SymAt(r, q).Dot? || SymAt(r, q).Nccl?) && fin in Follow(r, q, fin)
    {
      WildRun(r, fin, q);
    }
  }

  // Every position can be gone on from.

  predicate ListsOnly(r: Re) {
    match r
    case Leaf(_, s) => s.Char? || s.Ccl?
    case Star(e) => ListsOnly(e)
    case Plus(e) => ListsOnly(e)
    case Quest(e) => ListsOnly(e)
    case Cat(a, b) => ListsOnly(a) && ListsOnly(b)
    case Or(a, b) => ListsOnly(a) && ListsOnly(b)
  }

  lemma {:induction false} FreeLists(r: Re)
    ensures ListsOnly(Free(r))
  {
    match r
    case Leaf(_, _) =>
    case Star(e) => FreeLists(e);
    case Plus(e) => FreeLists(e);
    case Quest(e) => FreeLists(e);
    case Cat(a, b) => FreeLists(a); FreeLists(b);
    case Or(a, b) => FreeLists(a); FreeLists(b);
  }

  lemma {:induction false} WordOf(r: Re) returns (w: seq<int>)
    requires ListsOnly(r)
    ensures In(r, w)
  {
    match r
    case Leaf(_, s) => w := if s.Char? then [s.k] else if s.cs == [] then [] else [s.cs[0]];
    case Star(e) => w := [];
    case Plus(e) =>
      w := WordOf(e);
      InPlus(e, w, []);
      assert w + [] == w;
    case Quest(e) => w := [];
    case Cat(a, b) =>
      var u := WordOf(a);
      w := WordOf(b);
      InCat(a, b, u, w);
      w := u + w;
    case Or(a, b) => w := WordOf(a);
  }

  predicate CtxLists(c: Ctx) {
    match c
    case Top => true
    case UnderStar(e, up) => CtxLists(up)
    case UnderPlus(e, up) => CtxLists(up)
    case UnderQuest(up) => CtxLists(up)
    case CatLeft(b, up) => ListsOnly(b) && CtxLists(up)
    case CatRight(_, up) => CtxLists(up)
    case OrLeft(_, up) => CtxLists(up)
    case OrRight(_, up) => CtxLists(up)
  }

  lemma {:induction false} RestOf(c: Ctx) returns (w: seq<int>)
    requires CtxLists(c)
    ensures Rest(c, w)
  {
    match c
    case Top => w := [];
    case UnderStar(e, up) => w := RestOf(up); RestLoop(e, up, [], w); assert [] + w == w;
    case UnderPlus(e, up) => w := RestOf(up); RestLoop(e, up, [], w); assert [] + w == w;
    case UnderQuest(up) => w := RestOf(up);
    case CatLeft(b, up) =>
      var u := WordOf(b);
      w := RestOf(up);
      RestCatLeft(b, up, u, w);
      w := u + w;
    case CatRight(_, up) => w := RestOf(up);
    case OrLeft(_, up) => w := RestOf(up);
    case OrRight(_, up) => w := RestOf(up);
  }

  lemma {:induction false} CtxAtLists(r: Re, c: Ctx, q: int)
    requires Ordered(r) && Has(r, q) && ListsOnly(r) && CtxLists(c)
    ensures CtxLists(CtxAt(r, c, q))
    decreases r
  {
    match r
    case Leaf(_, _) =>
    case Star(e) => CtxAtLists(e, UnderStar(e, c), q);
    case Plus(e) => CtxAtLists(e, UnderPlus(e, c), q);
    case Quest(e) => CtxAtLists(e, UnderQuest(c), q);
    case Cat(a, b) =>
      LoIsBase(b, Lo(a) + Leaves(a));
      if Has(a, q) { CtxAtLists(a, CatLeft(b, c), q); } else { CtxAtLists(b, CatRight(a, c), q); }
    case Or(a, b) =>
      LoIsBase(b, Lo(a) + Leaves(a));
      if Has(a, q) { CtxAtLists(a, OrLeft(b, c), q); } else { CtxAtLists(b, OrRight(a, c), q); }
  }

  lemma ListedRun(r: Re, fin: int, q: int, c: int) returns (v: seq<int>)
    requires Rooted(r, fin) && Rooted(Free(r), fin) && WellFormed(r) && Has(r, q) && Listed(SymAt(r, q), c)
    requires 0 <= c < NCHARS && c != HAT
    ensures Run(Free(r), fin, q, [c] + v)
  {
    hide *;
    RootedIs(r, fin);
    RootedIs(Free(r), fin);
    FreeFollow(r, q, fin);
    SymAtOk(r, q);
    FreeAccepts(SymAt(r, q), c);
    FreeLists(r);
    TopLists();
    CtxAtLists(Free(r), Top, q);
    v := RestOf(CtxAt(Free(r), Top, q));
    FromIs(Free(r), q, c, v);
    RunIsFrom(Free(r), fin, q, [c] + v);
  }

  lemma RootedIs(r: Re, fin: int)
    requires Rooted(r, fin)
    ensures Ordered(r) && !Has(r, fin)
  {
  }

  lemma FromIs(r: Re, q: int, c: int, v: seq<int>)
    requires Ordered(r) && Has(r, q) && Accepts(SymAt(r, q), c) && Rest(CtxAt(r, Top, q), v)
    ensures From(r, Top, q, [c] + v)
  {
    hide SymAt, CtxAt, Has, Numbered, Rest;
    assert ([c] + v)[1..] == v;
  }

  lemma TopLists()
    ensures CtxLists(Top)
  {
  }

  lemma RunListed(r: Re, fin: int, q: int, c: int, v: seq<int>)
    requires Rooted(r, fin) && Rooted(Free(r), fin) && WellFormed(r) && Run(Free(r), fin, q, [c] + v)
    requires 0 <= c < NCHARS && c != HAT
    ensures Has(r, q) && Listed(SymAt(r, q), c)
  {
    hide SymAt, Numbered, WellFormed, Follow;
    FreeOrdered(r);
    FreeFollow(r, q, fin);
    SymAtOk(r, q);
    FreeAccepts(SymAt(r, q), c);
  }

  /** There is a transition for c exactly when a word can go on with it. */
  lemma GoesOnIs(r: Re, fin: int, u: seq<int>, c: int)
    requires Rooted(r, fin) && Rooted(Free(r), fin) && WellFormed(r) && NONE !in u
    requires 0 <= c < NCHARS && c != HAT
    ensures SomeLists(r, AcceptReach(r, fin, u), c) <==> GoesOn(r, u, c)
  {
    hide Run, In, AcceptReach, SymAt, Numbered, WellFormed, Has, Listed;
    FreeReach(r, fin, u);
    var s := AcceptReach(r, fin, u);
    if SomeLists(r, s, c) {
      var q :| q in s && Has(r, q) && Listed(SymAt(r, q), c);
      var v := ListedRun(r, fin, q, c);
      AcceptReachReads(Free(r), fin, u, [c] + v);
      var i :| 0 <= i <= |u| && In(Free(r), u[i..] + ([c] + v));
    }
    if GoesOn(r, u, c) {
      var i, v :| 0 <= i <= |u| && In(Free(r), u[i..] + ([c] + v));
      AcceptReachReads(Free(r), fin, u, [c] + v);
      var q :| q in s && Run(Free(r), fin, q, [c] + v);
      RunListed(r, fin, q, c, v);
    }
  }

  lemma EndsWildIs(r: Re, fin: int, u: seq<int>)
    requires Rooted(r, fin) && Rooted(Free(r), fin) && WellFormed(r) && NONE !in u
    ensures SomeWild(r, fin, AcceptReach(r, fin, u)) <==> EndsWild(r, u)
  {
    hide Run, In, AcceptReach, SomeWild;
    FreeReach(r, fin, u);
    WildRuns(r, fin, AcceptReach(r, fin, u));
    AcceptReachReads(Free(r), fin, u, [NONE]);
  }

  /** The machine slips after u exactly when a word can go on with a dollar there, and another end
      with a character that only dots and negated classes take. */
  lemma SlipsIs(r: Re, fin: int, text: seq<int>)
    requires Rooted(r, fin) && WellFormed(r) && NONE !in text
    ensures Slips(r, fin, text) <==> GoesOn(r, Front(r, text), 0) && EndsWild(r, Front(r, text))
  {
    hide GoesOn, EndsWild, SomeDollar, SomeLists, SomeWild, AcceptReach, WellFormed, Anchored;
    FreeOrdered(r);
    assert NONE !in Front(r, text);
    GoesOnIs(r, fin, Front(r, text), 0);
    StepNul(r, fin, AcceptReach(r, fin, Front(r, text)));
    EndsWildIs(r, fin, Front(r, text));
  }

  // Numbering makes no difference.

  lemma NumberGoesOn(r: Re, lo: int, u: seq<int>)
    ensures forall c :: GoesOn(Number(r, lo), u, c) <==> GoesOn(r, u, c)
    ensures EndsWild(Number(r, lo), u) <==> EndsWild(r, u)
  {
    hide In, Number;
    FreeNumber(r, lo);
    forall w
      ensures In(Free(Number(r, lo)), w) <==> In(Free(r), w)
    {
      NumberKeepsLanguage(Free(r), lo, w);
    }
  }

  /** An expression without dots and negated classes never slips. */
  lemma ListsNeverSlip(r: Re, u: seq<int>)
    requires ListsOnly(r) && WellFormed(r) && NONE !in u
    ensures !EndsWild(r, u)
  {
    hide In, ListsOnly, SomeWild;
    var p, fin := Number(r, 1), Leaves(r) + 1;
    FreeOrdered(p);
    NumberGoesOn(r, 1, u);
    NumberLists(r, 1);
    EndsWildIs(p, fin, u);
    NoWild(p, fin, AcceptReach(p, fin, u));
  }

  lemma {:induction false} NumberLists(r: Re, lo: int)
    requires ListsOnly(r) && WellFormed(r)
    ensures ListsOnly(Number(r, lo)) && WellFormed(Number(r, lo))
  {
    match r
    case Leaf(_, _) =>
    case Star(e) => NumberLists(e, lo);
    case Plus(e) => NumberLists(e, lo);
    case Quest(e) => NumberLists(e, lo);
    case Cat(a, b) => NumberLists(a, lo); NumberLists(b, lo + Leaves(a));
    case Or(a, b) => NumberLists(a, lo); NumberLists(b, lo + Leaves(a));
  }

  lemma NoWild(p: Re, fin: int, s: set<int>)
    requires Ordered(p) && ListsOnly(p)
    ensures !SomeWild(p, fin, s)
  {
    forall q | q in s && Has(p, q)
      ensures SymAt(p, q).Char? || SymAt(p, q).Ccl?
    {
      ListsAt(p, q);
    }
  }

  lemma {:induction false} ListsAt(p: Re, q: int)
    requires Ordered(p) && Has(p, q) && ListsOnly(p)
    ensures SymAt(p, q).Char? || SymAt(p, q).Ccl?
  {
    match p
    case Leaf(_, _) =>
    case Star(e) => ListsAt(e, q);
    case Plus(e) => ListsAt(e, q);
    case Quest(e) => ListsAt(e, q);
    case Cat(a, b) =>
      LoIsBase(b, Lo(a) + Leaves(a));
      if Has(a, q) { ListsAt(a, q); } else { ListsAt(b, q); }
    case Or(a, b) =>
      LoIsBase(b, Lo(a) + Leaves(a));
      if Has(a, q) { ListsAt(a, q); } else { ListsAt(b, q); }
  }
}
