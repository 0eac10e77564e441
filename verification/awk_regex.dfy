/** awk's regular expressions: parse trees, the words they denote, and the follow-position
    sets that the compiler computes from them. Everything here is a value; the tree of linked
    nodes and the tables that awk fills in place are in AwkTree, AwkCompiler and AwkDfa. */
module AwkRegex {

  // The character that '^' is compiled to, and the size of the alphabet.
  const HAT := 127
  const NCHARS := 128

  datatype Sym =
    | Char(k: int)
    | Dot
    | Ccl(cs: seq<int>)
    | Nccl(cs: seq<int>)

  // A leaf carries the position number the compiler gives it.
  datatype Re =
    | Leaf(index: int, sym: Sym)
    | Star(r: Re)
    | Plus(r: Re)
    | Quest(r: Re)
    | Cat(left: Re, right: Re)
    | Or(left: Re, right: Re)

  /** Does a leaf consume c? A dot or a negated class consumes any character but the terminating
      NUL. '$' is Char(0) and consumes only that NUL. */
  predicate Accepts(s: Sym, c: int) {
    match s
    case Char(k) => c == k
    case Dot => 1 <= c < NCHARS
    case Ccl(cs) => c in cs
    case Nccl(cs) => 1 <= c < NCHARS && c !in cs
  }

  /** An empty class consumes nothing; the compiler treats it as matching the empty word. */
  predicate EmptyClass(s: Sym) {
    s == Ccl([])
  }

  /** The language of an expression. */
  ghost predicate In(r: Re, w: seq<int>)
    decreases r, 0, 0
  {
    match r
    case Leaf(_, s) => (|w| == 1 && Accepts(s, w[0])) || (w == [] && EmptyClass(s))
    case Star(e) => Repeated(e, w)
    case Plus(e) => exists k | 0 <= k <= |w| :: In(e, w[..k]) && Repeated(e, w[k..])
    case Quest(e) => w == [] || In(e, w)
    case Cat(a, b) => exists k | 0 <= k <= |w| :: In(a, w[..k]) && In(b, w[k..])
    case Or(a, b) => In(a, w) || In(b, w)
  }

  /** Zero or more words of r in a row. */
  ghost predicate Repeated(r: Re, w: seq<int>)
    decreases r, 1, |w|
  {
    w == [] || exists k | 0 < k <= |w| :: In(r, w[..k]) && Repeated(r, w[k..])
  }

  predicate Nullable(r: Re) {
    match r
    case Leaf(_, s) => EmptyClass(s)
    case Star(_) => true
    case Plus(e) => Nullable(e)
    case Quest(_) => true
    case Cat(a, b) => Nullable(a) && Nullable(b)
    case Or(a, b) => Nullable(a) || Nullable(b)
  }

  lemma {:induction false} NullableIsEmptyWord(r: Re)
    ensures Nullable(r) <==> In(r, [])
  {
    match r
    case Leaf(_, _) =>
    case Star(e) =>
    case Plus(e) =>
      NullableIsEmptyWord(e);
      var w: seq<int> := [];
      assert w[..0] == w && w[0..] == w;
    case Quest(e) =>
    case Cat(a, b) =>
      NullableIsEmptyWord(a);
      NullableIsEmptyWord(b);
      var w: seq<int> := [];
      assert w[..0] == w && w[0..] == w;
    case Or(a, b) =>
      NullableIsEmptyWord(a);
      NullableIsEmptyWord(b);
  }

  // Concatenation, in the direction that builds a word of the language.

  lemma InCat(a: Re, b: Re, u: seq<int>, v: seq<int>)
    requires In(a, u) && In(b, v)
    ensures In(Cat(a, b), u + v)
  {
    var w := u + v;
    assert w[..|u|] == u && w[|u|..] == v;
  }

  lemma InPlus(e: Re, u: seq<int>, v: seq<int>)
    requires In(e, u) && Repeated(e, v)
    ensures In(Plus(e), u + v)
  {
    var w := u + v;
    assert w[..|u|] == u && w[|u|..] == v;
  }

  lemma RepeatedCons(e: Re, u: seq<int>, v: seq<int>)
    requires In(e, u) && Repeated(e, v)
    ensures Repeated(e, u + v)
  {
    var w := u + v;
    assert w[..|u|] == u && w[|u|..] == v;
    if u == [] {
      assert w == v;
    }
  }

  // The positions of an expression.

  function Leaves(r: Re): (n: nat)
    ensures n >= 1
  {
    match r
    case Leaf(_, _) => 1
    case Star(e) => Leaves(e)
    case Plus(e) => Leaves(e)
    case Quest(e) => Leaves(e)
    case Cat(a, b) => Leaves(a) + Leaves(b)
    case Or(a, b) => Leaves(a) + Leaves(b)
  }

  /** The leaves are numbered from lo, left to right. */
  predicate Numbered(r: Re, lo: int) {
    match r
    case Leaf(i, _) => i == lo
    case Star(e) => Numbered(e, lo)
    case Plus(e) => Numbered(e, lo)
    case Quest(e) => Numbered(e, lo)
    case Cat(a, b) => Numbered(a, lo) && Numbered(b, lo + Leaves(a))
    case Or(a, b) => Numbered(a, lo) && Numbered(b, lo + Leaves(a))
  }

  /** The number of the leftmost leaf. */
  function Lo(r: Re): int {
    match r
    case Leaf(i, _) => i
    case Star(e) => Lo(e)
    case Plus(e) => Lo(e)
    case Quest(e) => Lo(e)
    case Cat(a, _) => Lo(a)
    case Or(a, _) => Lo(a)
  }

  /** Holds of exactly the positions of a numbered expression. */
  predicate Has(r: Re, i: int) {
    Lo(r) <= i < Lo(r) + Leaves(r)
  }

  ghost predicate Ordered(r: Re) {
    Numbered(r, Lo(r))
  }

  /** The expression with its leaves numbered from lo. */
  function Number(r: Re, lo: int): (n: Re)
    ensures Leaves(n) == Leaves(r) && Lo(n) == lo && Numbered(n, lo)
  {
    match r
    case Leaf(_, s) => Leaf(lo, s)
    case Star(e) => Star(Number(e, lo))
    case Plus(e) => Plus(Number(e, lo))
    case Quest(e) => Quest(Number(e, lo))
    case Cat(a, b) => Cat(Number(a, lo), Number(b, lo + Leaves(a)))
    case Or(a, b) => Or(Number(a, lo), Number(b, lo + Leaves(a)))
  }

  /** Numbering the leaves does not change the language. */
  lemma {:induction false} NumberKeepsLanguage(r: Re, lo: int, w: seq<int>)
    ensures In(Number(r, lo), w) <==> In(r, w)
    decreases r, 0, 0
  {
    match r
    case Leaf(_, _) =>
    case Star(e) =>
      NumberKeepsRepeated(e, lo, w);
    case Plus(e) =>
      forall k | 0 <= k <= |w|
        ensures In(Number(e, lo), w[..k]) <==> In(e, w[..k])
        ensures Repeated(Number(e, lo), w[k..]) <==> Repeated(e, w[k..])
      {
        NumberKeepsLanguage(e, lo, w[..k]);
        NumberKeepsRepeated(e, lo, w[k..]);
      }
    case Quest(e) =>
      NumberKeepsLanguage(e, lo, w);
    case Cat(a, b) =>
      forall k | 0 <= k <= |w|
        ensures In(Number(a, lo), w[..k]) <==> In(a, w[..k])
        ensures In(Number(b, lo + Leaves(a)), w[k..]) <==> In(b, w[k..])
      {
        NumberKeepsLanguage(a, lo, w[..k]);
        NumberKeepsLanguage(b, lo + Leaves(a), w[k..]);
      }
    case Or(a, b) =>
      NumberKeepsLanguage(a, lo, w);
      NumberKeepsLanguage(b, lo + Leaves(a), w);
  }

  lemma {:induction false} NumberKeepsRepeated(e: Re, lo: int, w: seq<int>)
    ensures Repeated(Number(e, lo), w) <==> Repeated(e, w)
    decreases e, 1, |w|
  {
    forall k | 0 < k <= |w|
      ensures In(Number(e, lo), w[..k]) <==> In(e, w[..k])
      ensures Repeated(Number(e, lo), w[k..]) <==> Repeated(e, w[k..])
    {
      NumberKeepsLanguage(e, lo, w[..k]);
      NumberKeepsRepeated(e, lo, w[k..]);
    }
  }

  /** The positions at which a word of r can start. */
  function First(r: Re): set<int> {
    match r
    case Leaf(i, _) => {i}
    case Star(e) => First(e)
    case Plus(e) => First(e)
    case Quest(e) => First(e)
    case Cat(a, b) => First(a) + if Nullable(a) then First(b) else {}
    case Or(a, b) => First(a) + First(b)
  }

  lemma {:induction false} FirstBounds(r: Re)
    requires Ordered(r)
    ensures forall q | q in First(r) :: Has(r, q)
    ensures First(r) != {}
  {
    match r
    case Leaf(_, _) =>
    case Star(e) => FirstBounds(e);
    case Plus(e) => FirstBounds(e);
    case Quest(e) => FirstBounds(e);
    case Cat(a, b) =>
      LoIsBase(b, Lo(a) + Leaves(a));
      FirstBounds(a);
      FirstBounds(b);
    case Or(a, b) =>
      LoIsBase(b, Lo(a) + Leaves(a));
      FirstBounds(a);
      FirstBounds(b);
  }

  lemma {:induction false} LoIsBase(r: Re, lo: int)
    requires Numbered(r, lo)
    ensures Lo(r) == lo
  {
    match r
    case Leaf(_, _) =>
    case Star(e) => LoIsBase(e, lo);
    case Plus(e) => LoIsBase(e, lo);
    case Quest(e) => LoIsBase(e, lo);
    case Cat(a, _) => LoIsBase(a, lo);
    case Or(a, _) => LoIsBase(a, lo);
  }

  /** The way from a node up to the root, with the siblings passed on the way. */
  datatype Ctx =
    | Top
    | UnderStar(e: Re, up: Ctx)
    | UnderPlus(e: Re, up: Ctx)
    | UnderQuest(up: Ctx)
    | CatLeft(right: Re, up: Ctx)
    | CatRight(left: Re, up: Ctx)
    | OrLeft(right: Re, up: Ctx)
    | OrRight(left: Re, up: Ctx)

  /** The whole expression that has r below the context. */
  function Plug(r: Re, ctx: Ctx): Re
    decreases ctx
  {
    match ctx
    case Top => r
    case UnderStar(_, up) => Plug(Star(r), up)
    case UnderPlus(_, up) => Plug(Plus(r), up)
    case UnderQuest(up) => Plug(Quest(r), up)
    case CatLeft(b, up) => Plug(Cat(r, b), up)
    case CatRight(a, up) => Plug(Cat(a, r), up)
    case OrLeft(b, up) => Plug(Or(r, b), up)
    case OrRight(a, up) => Plug(Or(a, r), up)
  }

  /** A loop's context names the loop's own body, and numbering is consistent all the way up. */
  ghost predicate Fits(r: Re, ctx: Ctx)
    decreases ctx
  {
    Ordered(r) &&
    match ctx
    case Top => true
    case UnderStar(e, up) => e == r && Fits(Star(r), up)
    case UnderPlus(e, up) => e == r && Fits(Plus(r), up)
    case UnderQuest(up) => Fits(Quest(r), up)
    case CatLeft(b, up) => Fits(Cat(r, b), up)
    case CatRight(a, up) => Fits(Cat(a, r), up)
    case OrLeft(b, up) => Fits(Or(r, b), up)
    case OrRight(a, up) => Fits(Or(a, r), up)
  }

  /** The context of the part of a numbered expression that stands in ctx. */
  lemma PartFits(r: Re, lo: int, ctx: Ctx) returns (inner: Ctx)
    requires (r.Star? || r.Plus? || r.Quest?) && Fits(Number(r, lo), ctx)
    ensures var e := Number(r.r, lo);
      && inner == (if r.Star? then UnderStar(e, ctx) else if r.Plus? then UnderPlus(e, ctx) else UnderQuest(ctx))
      && Number(r, lo) == (if r.Star? then Star(e) else if r.Plus? then Plus(e) else Quest(e))
      && Fits(e, inner) && Plug(e, inner) == Plug(Number(r, lo), ctx)
  {
    var e := Number(r.r, lo);
    inner := if r.Star? then UnderStar(e, ctx) else if r.Plus? then UnderPlus(e, ctx) else UnderQuest(ctx);
  }

  /** The contexts of the two parts of a numbered expression that stands in ctx. */
  lemma PartsFit(r: Re, lo: int, ctx: Ctx) returns (ca: Ctx, cb: Ctx)
    requires (r.Cat? || r.Or?) && Fits(Number(r, lo), ctx)
    ensures var a, b := Number(r.left, lo), Number(r.right, lo + Leaves(r.left));
      && ca == (if r.Cat? then CatLeft(b, ctx) else OrLeft(b, ctx))
      && cb == (if r.Cat? then CatRight(a, ctx) else OrRight(a, ctx))
      && Number(r, lo) == (if r.Cat? then Cat(a, b) else Or(a, b))
      && Fits(a, ca) && Fits(b, cb)
      && Plug(a, ca) == Plug(Number(r, lo), ctx) && Plug(b, cb) == Plug(Number(r, lo), ctx)
  {
    var a, b := Number(r.left, lo), Number(r.right, lo + Leaves(r.left));
    ca := if r.Cat? then CatLeft(b, ctx) else OrLeft(b, ctx);
    cb := if r.Cat? then CatRight(a, ctx) else OrRight(a, ctx);
  }

  /** The words that can follow a word matched below the context. */
  ghost predicate Rest(ctx: Ctx, w: seq<int>) {
    match ctx
    case Top => w == []
    case UnderStar(e, up) => exists k | 0 <= k <= |w| :: Repeated(e, w[..k]) && Rest(up, w[k..])
    case UnderPlus(e, up) => exists k | 0 <= k <= |w| :: Repeated(e, w[..k]) && Rest(up, w[k..])
    case UnderQuest(up) => Rest(up, w)
    case CatLeft(b, up) => exists k | 0 <= k <= |w| :: In(b, w[..k]) && Rest(up, w[k..])
    case CatRight(_, up) => Rest(up, w)
    case OrLeft(_, up) => Rest(up, w)
    case OrRight(_, up) => Rest(up, w)
  }

  /** The positions that can follow a word matched below the context; fin stands for the end
      of the whole expression. */
  function FollowCtx(ctx: Ctx, fin: int): set<int> {
    match ctx
    case Top => {fin}
    case UnderStar(e, up) => First(e) + FollowCtx(up, fin)
    case UnderPlus(e, up) => First(e) + FollowCtx(up, fin)
    case UnderQuest(up) => FollowCtx(up, fin)
    case CatLeft(b, up) => First(b) + if Nullable(b) then FollowCtx(up, fin) else {}
    case CatRight(_, up) => FollowCtx(up, fin)
    case OrLeft(_, up) => FollowCtx(up, fin)
    case OrRight(_, up) => FollowCtx(up, fin)
  }

  /** The symbol at position q. */
  function SymAt(r: Re, q: int): Sym
    requires Ordered(r) && Has(r, q)
  {
    match r
    case Leaf(_, s) => s
    case Star(e) => SymAt(e, q)
    case Plus(e) => SymAt(e, q)
    case Quest(e) => SymAt(e, q)
    case Cat(a, b) => LoIsBase(b, Lo(a) + Leaves(a)); if Has(a, q) then SymAt(a, q) else SymAt(b, q)
    case Or(a, b) => LoIsBase(b, Lo(a) + Leaves(a)); if Has(a, q) then SymAt(a, q) else SymAt(b, q)
  }

  /** The context of position q, for an r that stands in ctx. */
  function CtxAt(r: Re, ctx: Ctx, q: int): Ctx
    requires Ordered(r) && Has(r, q)
    decreases r
  {
    match r
    case Leaf(_, _) => ctx
    case Star(e) => CtxAt(e, UnderStar(e, ctx), q)
    case Plus(e) => CtxAt(e, UnderPlus(e, ctx), q)
    case Quest(e) => CtxAt(e, UnderQuest(ctx), q)
    case Cat(a, b) =>
      LoIsBase(b, Lo(a) + Leaves(a));
      if Has(a, q) then CtxAt(a, CatLeft(b, ctx), q) else CtxAt(b, CatRight(a, ctx), q)
    case Or(a, b) =>
      LoIsBase(b, Lo(a) + Leaves(a));
      if Has(a, q) then CtxAt(a, OrLeft(b, ctx), q) else CtxAt(b, OrRight(a, ctx), q)
  }

  /** A word read from position q onwards, below ctx: one character consumed by the leaf, then
      whatever can follow it. */
  ghost predicate From(r: Re, ctx: Ctx, q: int, w: seq<int>)
    requires Ordered(r) && Has(r, q)
  {
    w != [] && Accepts(SymAt(r, q), w[0]) && Rest(CtxAt(r, ctx, q), w[1..])
  }

  /** The two parts of a numbered expression have its positions. */
  lemma PartsHave(r: Re)
    requires (r.Cat? || r.Or?) && Ordered(r)
    ensures Ordered(r.left) && Ordered(r.right)
    ensures forall q :: Has(r, q) <==> Has(r.left, q) || Has(r.right, q)
    ensures forall q :: !(Has(r.left, q) && Has(r.right, q))
    ensures forall q | q in First(r.left) :: Has(r.left, q)
    ensures forall q | q in First(r.right) :: Has(r.right, q)
    ensures First(r) == First(r.left) + if r.Or? || Nullable(r.left) then First(r.right) else {}
  {
    var a, b := r.left, r.right;
    LoIsBase(b, Lo(a) + Leaves(a));
    FirstBounds(a);
    FirstBounds(b);
  }

  /** ... and a position reads there what it reads in the whole. */
  lemma FromParts(r: Re, ctx: Ctx, ca: Ctx, cb: Ctx, q: int, w: seq<int>)
    requires (r.Cat? || r.Or?) && Ordered(r) && Ordered(r.left) && Ordered(r.right)
    requires Has(r, q) && (Has(r.left, q) || Has(r.right, q)) && !(Has(r.left, q) && Has(r.right, q))
    requires ca == if r.Cat? then CatLeft(r.right, ctx) else OrLeft(r.right, ctx)
    requires cb == if r.Cat? then CatRight(r.left, ctx) else OrRight(r.left, ctx)
    ensures if Has(r.left, q) then From(r, ctx, q, w) <==> From(r.left, ca, q, w)
            else From(r, ctx, q, w) <==> From(r.right, cb, q, w)
  {
    hide Rest;
    LoIsBase(r.right, Lo(r.left) + Leaves(r.left));
  }

  lemma RestCatLeft(b: Re, up: Ctx, u: seq<int>, v: seq<int>)
    requires In(b, u) && Rest(up, v)
    ensures Rest(CatLeft(b, up), u + v)
  {
    var w := u + v;
    assert w[..|u|] == u && w[|u|..] == v;
  }

  lemma RestLoop(e: Re, up: Ctx, u: seq<int>, v: seq<int>)
    requires Repeated(e, u) && Rest(up, v)
    ensures Rest(UnderStar(e, up), u + v) && Rest(UnderPlus(e, up), u + v)
  {
    var w := u + v;
    assert w[..|u|] == u && w[|u|..] == v;
  }

  /** These contexts ask nothing of the words that follow. */
  lemma RestPassesUp(a: Re, b: Re, ctx: Ctx)
    ensures forall w :: Rest(CatRight(a, ctx), w) <==> Rest(ctx, w)
    ensures forall w :: Rest(OrLeft(b, ctx), w) <==> Rest(ctx, w)
    ensures forall w :: Rest(OrRight(a, ctx), w) <==> Rest(ctx, w)
    ensures forall w :: Rest(UnderQuest(ctx), w) <==> Rest(ctx, w)
  {
  }

  /** The languages of the constructors that do not split words, and of the empty word. */
  lemma InUnfold(a: Re, b: Re)
    ensures forall w :: In(Or(a, b), w) <==> In(a, w) || In(b, w)
    ensures forall w :: In(Quest(a), w) <==> w == [] || In(a, w)
    ensures forall w :: In(Star(a), w) <==> Repeated(a, w)
    ensures Repeated(a, [])
  {
  }

  // Splitting, in the direction that takes such a word apart.

  lemma SplitCatLeft(b: Re, up: Ctx, w: seq<int>) returns (u: seq<int>, v: seq<int>)
    requires Rest(CatLeft(b, up), w)
    ensures w == u + v && In(b, u) && Rest(up, v)
  {
    var k :| 0 <= k <= |w| && In(b, w[..k]) && Rest(up, w[k..]);
    u, v := w[..k], w[k..];
  }

  lemma SplitLoop(e: Re, up: Ctx, w: seq<int>) returns (u: seq<int>, v: seq<int>)
    requires Rest(UnderStar(e, up), w) || Rest(UnderPlus(e, up), w)
    ensures w == u + v && Repeated(e, u) && Rest(up, v)
  {
    var k :| 0 <= k <= |w| && Repeated(e, w[..k]) && Rest(up, w[k..]);
    u, v := w[..k], w[k..];
  }

  lemma SplitRepeated(e: Re, w: seq<int>) returns (u: seq<int>, v: seq<int>)
    requires Repeated(e, w) && w != []
    ensures w == u + v && u != [] && In(e, u) && Repeated(e, v)
  {
    var k :| 0 < k <= |w| && In(e, w[..k]) && Repeated(e, w[k..]);
    u, v := w[..k], w[k..];
  }

  lemma SplitPlus(e: Re, w: seq<int>) returns (u: seq<int>, v: seq<int>)
    requires In(Plus(e), w) && w != []
    ensures w == u + v && u != [] && In(e, u) && Repeated(e, v)
  {
    var k :| 0 <= k <= |w| && In(e, w[..k]) && Repeated(e, w[k..]);
    u, v := w[..k], w[k..];
    if k == 0 {
      assert v == w;
      u, v := SplitRepeated(e, w);
    }
  }

  lemma SplitCat(a: Re, b: Re, w: seq<int>) returns (u: seq<int>, v: seq<int>)
    requires In(Cat(a, b), w)
    ensures w == u + v && In(a, u) && In(b, v)
  {
    var k :| 0 <= k <= |w| && In(a, w[..k]) && In(b, w[k..]);
    u, v := w[..k], w[k..];
  }

  /** The positions in First(r) read exactly the words that begin with a non-empty word of r.
      This direction: a word read from a first position splits. */
  lemma {:induction false} FirstSound(r: Re, ctx: Ctx, q: int, w: seq<int>) returns (u: seq<int>, v: seq<int>)
    requires Ordered(r) && q in First(r) && Has(r, q) && From(r, ctx, q, w)
    ensures w == u + v && u != [] && In(r, u) && Rest(ctx, v)
    decreases r
  {
    match r
    case Leaf(_, _) => u, v := w[..1], w[1..];
    case Star(e) => u, v := FirstSoundLoop(r, e, UnderStar(e, ctx), ctx, q, w);
    case Plus(e) => u, v := FirstSoundLoop(r, e, UnderPlus(e, ctx), ctx, q, w);
    case Quest(e) => u, v := FirstSound(e, UnderQuest(ctx), q, w);
    case Cat(a, b) => u, v := FirstSoundCat(a, b, ctx, q, w);
    case Or(a, b) => u, v := FirstSoundOr(a, b, ctx, q, w);
  }

  lemma {:induction false} FirstSoundLoop(r: Re, e: Re, inner: Ctx, ctx: Ctx, q: int, w: seq<int>)
    returns (u: seq<int>, v: seq<int>)
    requires (r == Star(e) && inner == UnderStar(e, ctx)) || (r == Plus(e) && inner == UnderPlus(e, ctx))
    requires Ordered(r) && q in First(r) && Has(r, q) && From(r, ctx, q, w)
    ensures w == u + v && u != [] && In(r, u) && Rest(ctx, v)
    decreases r, 0
  {
    hide In, Repeated, Rest;
    InUnfold(e, e);
    var x, y := FirstSound(e, inner, q, w);
    u, v := SplitLoop(e, ctx, y);
    InPlus(e, x, u);
    RepeatedCons(e, x, u);
    u := x + u;
  }

  lemma {:induction false} FirstSoundOr(a: Re, b: Re, ctx: Ctx, q: int, w: seq<int>) returns (u: seq<int>, v: seq<int>)
    requires Ordered(Or(a, b)) && q in First(Or(a, b)) && Has(Or(a, b), q) && From(Or(a, b), ctx, q, w)
    ensures w == u + v && u != [] && In(Or(a, b), u) && Rest(ctx, v)
    decreases Or(a, b), 0
  {
    hide *;
    PartsHave(Or(a, b));
    FromParts(Or(a, b), ctx, OrLeft(b, ctx), OrRight(a, ctx), q, w);
    InUnfold(a, b);
    RestPassesUp(a, b, ctx);
    if q in First(a) {
      u, v := FirstSound(a, OrLeft(b, ctx), q, w);
    } else {
      u, v := FirstSound(b, OrRight(a, ctx), q, w);
    }
  }

  lemma {:induction false} FirstSoundCat(a: Re, b: Re, ctx: Ctx, q: int, w: seq<int>) returns (u: seq<int>, v: seq<int>)
    requires Ordered(Cat(a, b)) && q in First(Cat(a, b)) && Has(Cat(a, b), q) && From(Cat(a, b), ctx, q, w)
    ensures w == u + v && u != [] && In(Cat(a, b), u) && Rest(ctx, v)
    decreases Cat(a, b), 0
  {
    hide *;
    PartsHave(Cat(a, b));
    FromParts(Cat(a, b), ctx, CatLeft(b, ctx), CatRight(a, ctx), q, w);
    RestPassesUp(a, b, ctx);
    if q in First(a) {
      var x, y := FirstSound(a, CatLeft(b, ctx), q, w);
      u, v := SplitCatLeft(b, ctx, y);
      InCat(a, b, x, u);
      u := x + u;
    } else {
      u, v := FirstSound(b, CatRight(a, ctx), q, w);
      NullableIsEmptyWord(a);
      InCat(a, b, [], u);
      assert [] + u == u;
    }
  }

  lemma LeafReads(r: Re, ctx: Ctx, u: seq<int>, v: seq<int>)
    requires r.Leaf? && u != [] && In(r, u) && Rest(ctx, v)
    ensures r.index in First(r) && Ordered(r) && Has(r, r.index) && From(r, ctx, r.index, u + v)
  {
    assert (u + v)[1..] == v;
  }

  lemma QuestParts(e: Re, ctx: Ctx)
    requires Ordered(Quest(e))
    ensures Ordered(e) && First(Quest(e)) == First(e) && forall q :: Has(Quest(e), q) <==> Has(e, q)
  {
  }

  lemma QuestReads(e: Re, ctx: Ctx, q: int, w: seq<int>)
    requires Ordered(Quest(e)) && Ordered(e) && Has(e, q)
    ensures Has(Quest(e), q) && (From(Quest(e), ctx, q, w) <==> From(e, UnderQuest(ctx), q, w))
  {
    hide Rest;
  }

  /** The other direction: a non-empty word of r, and what may follow it, is read from a first
      position. */
  lemma {:induction false} FirstComplete(r: Re, ctx: Ctx, u: seq<int>, v: seq<int>) returns (q: int)
    requires Ordered(r) && u != [] && In(r, u) && Rest(ctx, v)
    ensures q in First(r) && Has(r, q) && From(r, ctx, q, u + v)
    decreases r
  {
    hide *;
    match r
    case Leaf(i, _) =>
      q := i;
      LeafReads(r, ctx, u, v);
    case Star(e) =>
      InUnfold(e, e);
      var x, y := SplitRepeated(e, u);
      q := FirstCompleteLoop(r, e, UnderStar(e, ctx), ctx, x, y, v);
      assert x + (y + v) == u + v;
    case Plus(e) =>
      var x, y := SplitPlus(e, u);
      q := FirstCompleteLoop(r, e, UnderPlus(e, ctx), ctx, x, y, v);
      assert x + (y + v) == u + v;
    case Quest(e) =>
      InUnfold(e, e);
      RestPassesUp(e, e, ctx);
      QuestParts(e, ctx);
      q := FirstComplete(e, UnderQuest(ctx), u, v);
      QuestReads(e, ctx, q, u + v);
    case Cat(a, b) => q := FirstCompleteCat(a, b, ctx, u, v);
    case Or(a, b) => q := FirstCompleteOr(a, b, ctx, u, v);
  }

  lemma {:induction false} FirstCompleteLoop(r: Re, e: Re, inner: Ctx, ctx: Ctx, x: seq<int>, y: seq<int>, v: seq<int>)
    returns (q: int)
    requires (r == Star(e) && inner == UnderStar(e, ctx)) || (r == Plus(e) && inner == UnderPlus(e, ctx))
    requires Ordered(r) && x != [] && In(e, x) && Repeated(e, y) && Rest(ctx, v)
    ensures q in First(r) && Has(r, q) && From(r, ctx, q, x + (y + v))
    decreases r, 0
  {
    hide In, Repeated, Rest;
    RestLoop(e, ctx, y, v);
    q := FirstComplete(e, inner, x, y + v);
  }

  lemma {:induction false} FirstCompleteOr(a: Re, b: Re, ctx: Ctx, u: seq<int>, v: seq<int>) returns (q: int)
    requires Ordered(Or(a, b)) && u != [] && In(Or(a, b), u) && Rest(ctx, v)
    ensures q in First(Or(a, b)) && Has(Or(a, b), q) && From(Or(a, b), ctx, q, u + v)
    decreases Or(a, b), 0
  {
    hide *;
    PartsHave(Or(a, b));
    InUnfold(a, b);
    RestPassesUp(a, b, ctx);
    if In(a, u) {
      q := FirstComplete(a, OrLeft(b, ctx), u, v);
    } else {
      q := FirstComplete(b, OrRight(a, ctx), u, v);
    }
    FromParts(Or(a, b), ctx, OrLeft(b, ctx), OrRight(a, ctx), q, u + v);
  }

  lemma {:induction false} FirstCompleteCat(a: Re, b: Re, ctx: Ctx, u: seq<int>, v: seq<int>) returns (q: int)
    requires Ordered(Cat(a, b)) && u != [] && In(Cat(a, b), u) && Rest(ctx, v)
    ensures q in First(Cat(a, b)) && Has(Cat(a, b), q) && From(Cat(a, b), ctx, q, u + v)
    decreases Cat(a, b), 0
  {
    hide *;
    PartsHave(Cat(a, b));
    RestPassesUp(a, b, ctx);
    var x, y := SplitCat(a, b, u);
    if x != [] {
      RestCatLeft(b, ctx, y, v);
      q := FirstComplete(a, CatLeft(b, ctx), x, y + v);
      assert x + (y + v) == u + v;
    } else {
      assert y == u;
      NullableIsEmptyWord(a);
      q := FirstComplete(b, CatRight(a, ctx), u, v);
    }
    FromParts(Cat(a, b), ctx, CatLeft(b, ctx), CatRight(a, ctx), q, u + v);
  }

  // Positions seen from the root.

  /** A position has the same symbol and the same context seen from the root as seen from any
      subtree it lies in. */
  lemma {:induction false} SeenFromRoot(r: Re, ctx: Ctx, q: int)
    requires Fits(r, ctx) && Has(r, q)
    ensures Ordered(Plug(r, ctx)) && Has(Plug(r, ctx), q)
    ensures SymAt(Plug(r, ctx), q) == SymAt(r, q)
    ensures CtxAt(Plug(r, ctx), Top, q) == CtxAt(r, ctx, q)
    decreases ctx
  {
    match ctx
    case Top =>
    case UnderStar(_, up) => SeenFromRoot(Star(r), up, q);
    case UnderPlus(_, up) => SeenFromRoot(Plus(r), up, q);
    case UnderQuest(up) => SeenFromRoot(Quest(r), up, q);
    case CatLeft(b, up) => SeenFromRoot(Cat(r, b), up, q);
    case CatRight(a, up) =>
      LoIsBase(r, Lo(a) + Leaves(a));
      SeenFromRoot(Cat(a, r), up, q);
    case OrLeft(b, up) => SeenFromRoot(Or(r, b), up, q);
    case OrRight(a, up) =>
      LoIsBase(r, Lo(a) + Leaves(a));
      SeenFromRoot(Or(a, r), up, q);
  }

  /** The context found by descending to q is one that q's leaf fits in. */
  lemma {:induction false} CtxAtFits(r: Re, ctx: Ctx, q: int)
    requires Fits(r, ctx) && Has(r, q)
    ensures Fits(Leaf(q, SymAt(r, q)), CtxAt(r, ctx, q))
    ensures Plug(Leaf(q, SymAt(r, q)), CtxAt(r, ctx, q)) == Plug(r, ctx)
    decreases r
  {
    match r
    case Leaf(_, _) =>
    case Star(e) => CtxAtFits(e, UnderStar(e, ctx), q);
    case Plus(e) => CtxAtFits(e, UnderPlus(e, ctx), q);
    case Quest(e) => CtxAtFits(e, UnderQuest(ctx), q);
    case Cat(a, b) =>
      LoIsBase(b, Lo(a) + Leaves(a));
      if Has(a, q) { CtxAtFits(a, CatLeft(b, ctx), q); } else { CtxAtFits(b, CatRight(a, ctx), q); }
    case Or(a, b) =>
      LoIsBase(b, Lo(a) + Leaves(a));
      if Has(a, q) { CtxAtFits(a, OrLeft(b, ctx), q); } else { CtxAtFits(b, OrRight(a, ctx), q); }
  }

  /** The follow set of position q of the whole expression. */
  function Follow(root: Re, q: int, fin: int): set<int>
    requires Ordered(root) && Has(root, q)
  {
    FollowCtx(CtxAt(root, Top, q), fin)
  }

  /** The positions that can be read first, with fin among them when nothing need be read. */
  function Initial(root: Re, fin: int): set<int> {
    First(root) + if Nullable(root) then {fin} else {}
  }

  /** Position numbers of a root expression and its end marker. */
  ghost predicate Rooted(root: Re, fin: int) {
    Ordered(root) && !Has(root, fin)
  }

  lemma {:induction false} FollowCtxBounds(r: Re, ctx: Ctx, fin: int)
    requires Fits(r, ctx)
    ensures Ordered(Plug(r, ctx))
    ensures forall q | q in FollowCtx(ctx, fin) :: q == fin || Has(Plug(r, ctx), q)
    ensures forall q | Has(r, q) :: Has(Plug(r, ctx), q)
    decreases ctx
  {
    match ctx
    case Top =>
    case UnderStar(_, up) => FollowCtxBounds(Star(r), up, fin); FirstBounds(r);
    case UnderPlus(_, up) => FollowCtxBounds(Plus(r), up, fin); FirstBounds(r);
    case UnderQuest(up) => FollowCtxBounds(Quest(r), up, fin);
    case CatLeft(b, up) =>
      LoIsBase(b, Lo(r) + Leaves(r));
      FollowCtxBounds(Cat(r, b), up, fin);
      FirstBounds(b);
    case CatRight(a, up) =>
      LoIsBase(r, Lo(a) + Leaves(a));
      FollowCtxBounds(Cat(a, r), up, fin);
    case OrLeft(b, up) => FollowCtxBounds(Or(r, b), up, fin);
    case OrRight(a, up) =>
      LoIsBase(r, Lo(a) + Leaves(a));
      FollowCtxBounds(Or(a, r), up, fin);
  }

  lemma FollowBounds(root: Re, q: int, fin: int)
    requires Ordered(root) && Has(root, q)
    ensures forall p | p in Follow(root, q, fin) :: p == fin || Has(root, p)
  {
    CtxAtFits(root, Top, q);
    FollowCtxBounds(Leaf(q, SymAt(root, q)), CtxAt(root, Top, q), fin);
  }

  lemma {:induction false} FollowCtxSound(r: Re, ctx: Ctx, root: Re, fin: int, q: int, w: seq<int>)
    requires Fits(r, ctx) && root == Plug(r, ctx) && Rooted(root, fin)
    requires q in FollowCtx(ctx, fin)
    requires if q == fin then w == [] else Has(root, q) && From(root, Top, q, w)
    ensures Rest(ctx, w)
    decreases ctx, 0
  {
    match ctx
    case Top =>
    case UnderStar(_, up) => LoopSound(r, ctx, up, Star(r), root, fin, q, w);
    case UnderPlus(_, up) => LoopSound(r, ctx, up, Plus(r), root, fin, q, w);
    case UnderQuest(up) => FollowCtxSound(Quest(r), up, root, fin, q, w);
    case CatLeft(b, up) => CatLeftSound(r, b, up, root, fin, q, w);
    case CatRight(a, up) => FollowCtxSound(Cat(a, r), up, root, fin, q, w);
    case OrLeft(b, up) => FollowCtxSound(Or(r, b), up, root, fin, q, w);
    case OrRight(a, up) => FollowCtxSound(Or(a, r), up, root, fin, q, w);
  }

  lemma {:induction false} CatLeftSound(r: Re, b: Re, up: Ctx, root: Re, fin: int, q: int, w: seq<int>)
    requires Fits(r, CatLeft(b, up)) && root == Plug(r, CatLeft(b, up)) && Rooted(root, fin)
    requires q in FollowCtx(CatLeft(b, up), fin)
    requires if q == fin then w == [] else Has(root, q) && From(root, Top, q, w)
    ensures Rest(CatLeft(b, up), w)
    decreases up, 1
  {
    hide In, Repeated, Rest;
    LoIsBase(b, Lo(r) + Leaves(r));
    if q in First(b) {
      FirstBounds(b);
      FollowCtxBounds(b, CatRight(r, up), fin);
      SeenFromRoot(b, CatRight(r, up), q);
      var u, v := FirstSound(b, CatRight(r, up), q, w);
      RestPassesUp(r, b, up);
      RestCatLeft(b, up, u, v);
    } else {
      FollowCtxSound(Cat(r, b), up, root, fin, q, w);
      NullableIsEmptyWord(b);
      RestCatLeft(b, up, [], w);
      assert [] + w == w;
    }
  }

  lemma {:induction false} LoopSound(e: Re, ctx: Ctx, up: Ctx, loop: Re, root: Re, fin: int, q: int, w: seq<int>)
    requires (ctx == UnderStar(e, up) && loop == Star(e)) || (ctx == UnderPlus(e, up) && loop == Plus(e))
    requires Fits(e, ctx) && root == Plug(e, ctx) && Rooted(root, fin)
    requires q in FollowCtx(ctx, fin)
    requires if q == fin then w == [] else Has(root, q) && From(root, Top, q, w)
    ensures Rest(ctx, w)
    decreases up, 1
  {
    hide In, Repeated, Rest;
    if q in First(e) {
      FirstBounds(e);
      FollowCtxBounds(e, ctx, fin);
      SeenFromRoot(e, ctx, q);
      var x, y := FirstSound(e, ctx, q, w);
      var u, v := SplitLoop(e, up, y);
      RepeatedCons(e, x, u);
      RestLoop(e, up, x + u, v);
      assert (x + u) + v == w;
    } else {
      FollowCtxSound(loop, up, root, fin, q, w);
      InUnfold(e, e);
      RestLoop(e, up, [], w);
      assert [] + w == w;
    }
  }

  lemma {:induction false} FollowCtxComplete(r: Re, ctx: Ctx, root: Re, fin: int, w: seq<int>) returns (q: int)
    requires Fits(r, ctx) && root == Plug(r, ctx) && Rooted(root, fin)
    requires Rest(ctx, w)
    ensures Ordered(root) && q in FollowCtx(ctx, fin)
    ensures if q == fin then w == [] else Has(root, q) && From(root, Top, q, w)
    decreases ctx, 0
  {
    match ctx
    case Top => q := fin;
    case UnderStar(_, up) => q := LoopComplete(r, ctx, up, Star(r), root, fin, w);
    case UnderPlus(_, up) => q := LoopComplete(r, ctx, up, Plus(r), root, fin, w);
    case UnderQuest(up) => q := FollowCtxComplete(Quest(r), up, root, fin, w);
    case CatLeft(b, up) => q := CatLeftComplete(r, b, up, root, fin, w);
    case CatRight(a, up) => q := FollowCtxComplete(Cat(a, r), up, root, fin, w);
    case OrLeft(b, up) => q := FollowCtxComplete(Or(r, b), up, root, fin, w);
    case OrRight(a, up) => q := FollowCtxComplete(Or(a, r), up, root, fin, w);
  }

  lemma {:induction false} CatLeftComplete(r: Re, b: Re, up: Ctx, root: Re, fin: int, w: seq<int>) returns (q: int)
    requires Fits(r, CatLeft(b, up)) && root == Plug(r, CatLeft(b, up)) && Rooted(root, fin)
    requires Rest(CatLeft(b, up), w)
    ensures Ordered(root) && q in FollowCtx(CatLeft(b, up), fin)
    ensures if q == fin then w == [] else Has(root, q) && From(root, Top, q, w)
    decreases up, 1
  {
    hide In, Repeated, Rest;
    LoIsBase(b, Lo(r) + Leaves(r));
    var u, v := SplitCatLeft(b, up, w);
    if u != [] {
      RestPassesUp(r, b, up);
      q := FirstComplete(b, CatRight(r, up), u, v);
      SeenFromRoot(b, CatRight(r, up), q);
    } else {
      assert v == w;
      NullableIsEmptyWord(b);
      q := FollowCtxComplete(Cat(r, b), up, root, fin, w);
    }
  }

  lemma {:induction false} LoopComplete(e: Re, ctx: Ctx, up: Ctx, loop: Re, root: Re, fin: int, w: seq<int>)
    returns (q: int)
    requires (ctx == UnderStar(e, up) && loop == Star(e)) || (ctx == UnderPlus(e, up) && loop == Plus(e))
    requires Fits(e, ctx) && root == Plug(e, ctx) && Rooted(root, fin)
    requires Rest(ctx, w)
    ensures q in FollowCtx(ctx, fin)
    ensures if q == fin then w == [] else Has(root, q) && From(root, Top, q, w)
    decreases up, 1
  {
    hide In, Repeated, Rest;
    var u, v := SplitLoop(e, up, w);
    if u != [] {
      var x, y := SplitRepeated(e, u);
      RestLoop(e, up, y, v);
      q := FirstComplete(e, ctx, x, y + v);
      assert x + (y + v) == w;
      SeenFromRoot(e, ctx, q);
    } else {
      assert v == w;
      q := FollowCtxComplete(loop, up, root, fin, w);
    }
  }

  /** A word read by following positions until the end marker. */
  ghost predicate Run(root: Re, fin: int, q: int, w: seq<int>)
    requires Rooted(root, fin)
    decreases |w|
  {
    if q == fin then w == []
    else Has(root, q) && w != [] && Accepts(SymAt(root, q), w[0]) &&
         exists p :: p in Follow(root, q, fin) && Run(root, fin, p, w[1..])
  }

  /** Following positions reads exactly the words that the position and its context denote. */
  lemma {:induction false} RunIsFrom(root: Re, fin: int, q: int, w: seq<int>)
    requires Rooted(root, fin) && Has(root, q)
    ensures Run(root, fin, q, w) <==> From(root, Top, q, w)
    decreases |w|
  {
    if w != [] && Accepts(SymAt(root, q), w[0]) {
      var leaf, ctx, rest := Leaf(q, SymAt(root, q)), CtxAt(root, Top, q), w[1..];
      CtxAtFits(root, Top, q);
      FollowBounds(root, q, fin);
      if Run(root, fin, q, w) {
        var p :| p in Follow(root, q, fin) && Run(root, fin, p, rest);
        if p != fin {
          RunIsFrom(root, fin, p, rest);
        }
        FollowCtxSound(leaf, ctx, root, fin, p, rest);
      }
      if Rest(ctx, rest) {
        var p := FollowCtxComplete(leaf, ctx, root, fin, rest);
        if p != fin {
          RunIsFrom(root, fin, p, rest);
        }
        assert p in Follow(root, q, fin) && Run(root, fin, p, rest);
      }
    }
  }

  /** The follow-position automaton accepts exactly the language of the expression. */
  lemma {:induction false} PositionsReadTheLanguage(root: Re, fin: int, w: seq<int>)
    requires Rooted(root, fin)
    ensures In(root, w) <==> exists q :: q in Initial(root, fin) && Run(root, fin, q, w)
  {
    FirstBounds(root);
    NullableIsEmptyWord(root);
    if In(root, w) {
      if w == [] {
        assert fin in Initial(root, fin) && Run(root, fin, fin, w);
      } else {
        var q := FirstComplete(root, Top, w, []);
        assert w + [] == w;
        RunIsFrom(root, fin, q, w);
        assert q in Initial(root, fin);
      }
    }
    if exists q :: q in Initial(root, fin) && Run(root, fin, q, w) {
      var q :| q in Initial(root, fin) && Run(root, fin, q, w);
      if q != fin {
        RunIsFrom(root, fin, q, w);
        var u, v := FirstSound(root, Top, q, w);
        assert u + v == u;
      }
    }
  }
}
