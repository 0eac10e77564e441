/** Searching a text with the follow-position automaton. The automaton that awk's compiler builds
    keeps, after each character, the set of positions at which a match begun anywhere earlier may
    go on; the initial positions, where a match may begin, always belong to it. */
module AwkSearch {
  import opened AwkRegex

  /** Characters for which a state gets a transition on account of a leaf. */
  predicate Listed(s: Sym, c: int) {
    match s
    case Char(k) => c == k
    case Dot => 1 <= c < NCHARS && c != HAT
    case Ccl(cs) => c in cs && c != HAT
    case Nccl(cs) => 1 <= c < NCHARS && c != HAT && c !in cs
  }

  /** Leaves that are followed on a transition for c. A dot asks nothing of c here. */
  predicate Taken(s: Sym, c: int) {
    match s
    case Char(k) => c == k
    case Dot => true
    case Ccl(cs) => c in cs
    case Nccl(cs) => c !in cs
  }

  ghost predicate SomeLists(p: Re, s: set<int>, c: int)
    requires Ordered(p)
  {
    exists q | q in s :: Has(p, q) && Listed(SymAt(p, q), c)
  }

  /** The positions that follow those of s whose leaf is taken on c. */
  ghost function TakenStep(p: Re, fin: int, s: set<int>, c: int): set<int>
    requires Ordered(p)
  {
    set q, t | q in s && Has(p, q) && Taken(SymAt(p, q), c) && t in Follow(p, q, fin) :: t
  }

  /** What the compiled automaton does on c: without a transition it forgets everything. */
  ghost function Step(p: Re, fin: int, s: set<int>, c: int): set<int>
    requires Ordered(p)
  {
    if SomeLists(p, s, c) then TakenStep(p, fin, s, c) else {}
  }

  /** All positions at which a match may go on after the machine has read u. */
  ghost function Reach(p: Re, fin: int, u: seq<int>): set<int>
    requires Ordered(p)
  {
    Initial(p, fin) +
    if u == [] then {} else Step(p, fin, Reach(p, fin, u[..|u| - 1]), u[|u| - 1])
  }

  // The same with the leaves' own notion of acceptance.

  ghost function AcceptStep(p: Re, fin: int, s: set<int>, c: int): set<int>
    requires Ordered(p)
  {
    set q, t | q in s && Has(p, q) && Accepts(SymAt(p, q), c) && t in Follow(p, q, fin) :: t
  }

  ghost function AcceptReach(p: Re, fin: int, u: seq<int>): set<int>
    requires Ordered(p)
  {
    Initial(p, fin) +
    if u == [] then {} else AcceptStep(p, fin, AcceptReach(p, fin, u[..|u| - 1]), u[|u| - 1])
  }

  lemma AcceptStepReads(p: Re, fin: int, s: set<int>, c: int, v: seq<int>)
    requires Rooted(p, fin)
    ensures (exists q :: q in AcceptStep(p, fin, s, c) && Run(p, fin, q, v))
       <==> (exists q :: q in s && Run(p, fin, q, [c] + v))
  {
    assert ([c] + v)[1..] == v;
    if exists q :: q in AcceptStep(p, fin, s, c) && Run(p, fin, q, v) {
      var t :| t in AcceptStep(p, fin, s, c) && Run(p, fin, t, v);
      var q :| q in s && Has(p, q) && Accepts(SymAt(p, q), c) && t in Follow(p, q, fin);
      assert q in s && Run(p, fin, q, [c] + v);
    }
    if exists q :: q in s && Run(p, fin, q, [c] + v) {
      var q :| q in s && Run(p, fin, q, [c] + v);
      var t :| t in Follow(p, q, fin) && Run(p, fin, t, v);
      assert t in AcceptStep(p, fin, s, c);
    }
  }

  /** After u, the positions reached read v exactly when v completes a word of p that begins
      somewhere in u. */
  lemma {:induction false} AcceptReachReads(p: Re, fin: int, u: seq<int>, v: seq<int>)
    requires Rooted(p, fin)
    ensures (exists q :: q in AcceptReach(p, fin, u) && Run(p, fin, q, v))
       <==> (exists i | 0 <= i <= |u| :: In(p, u[i..] + v))
    decreases |u|
  {
    hide In, Run, AcceptStep, Initial, Numbered;
    PositionsReadTheLanguage(p, fin, v);
    assert u[|u|..] + v == v;
    if u != [] {
      var n := |u| - 1;
      var u', c := u[..n], u[n];
      var v' := [c] + v;
      AcceptReachReads(p, fin, u', v');
      AcceptStepReads(p, fin, AcceptReach(p, fin, u'), c, v);
      forall i | 0 <= i <= n ensures u'[i..] + v' == u[i..] + v {
      }
      if i :| 0 <= i <= |u| && In(p, u[i..] + v) {
        if i <= n {
          assert In(p, u'[i..] + v');
        }
      }
    }
  }

  /** The end marker is reached after u exactly when some word of p ends there. */
  lemma {:induction false} AcceptReachFinal(p: Re, fin: int, u: seq<int>)
    requires Rooted(p, fin)
    ensures fin in AcceptReach(p, fin, u) <==> exists i | 0 <= i <= |u| :: In(p, u[i..])
  {
    hide In;
    AcceptReachReads(p, fin, u, []);
    forall i | 0 <= i <= |u| ensures u[i..] + [] == u[i..] {
    }
    if fin in AcceptReach(p, fin, u) {
      assert Run(p, fin, fin, []);
    }
  }

  // The two notions of acceptance agree on the words a match reads.

  /** The compiler starts a match after '^' exactly when '^' is among the initial positions. */
  ghost predicate Anchored(p: Re)
    requires Ordered(p)
  {
    exists q | q in First(p) :: Has(p, q) && SymAt(p, q) == Char(HAT)
  }

  /** What a match of text reads before the terminating NUL: '^' first if there is a transition for
      it, then the text. */
  ghost function Front(p: Re, text: seq<int>): seq<int>
    requires Ordered(p)
  {
    (if Anchored(p) then [HAT] else []) + text
  }

  ghost function Input(p: Re, text: seq<int>): seq<int>
    requires Ordered(p)
  {
    Front(p, text) + [0]
  }

  /** There is a '$' among the positions. */
  ghost predicate SomeDollar(p: Re, s: set<int>)
    requires Ordered(p)
  {
    exists q | q in s :: Has(p, q) && SymAt(p, q) == Char(0)
  }

  /** There is a dot or a negated class that nothing need follow. */
  ghost predicate SomeWild(p: Re, fin: int, s: set<int>)
    requires Ordered(p)
  {
    exists q | q in s :: Has(p, q) && (SymAt(p, q).Dot? || SymAt(p, q).Nccl?) && fin in Follow(p, q, fin)
  }

  /** At the NUL the machine slips: it has a transition for a '$', and on that takes a dot or a
      negated class as well. */
  ghost predicate Slips(p: Re, fin: int, text: seq<int>)
    requires Ordered(p)
  {
    var s := AcceptReach(p, fin, Front(p, text));
    SomeDollar(p, s) && SomeWild(p, fin, s)
  }

  /** Nothing need follow a '$'. */
  ghost predicate DollarEnds(p: Re, fin: int)
    requires Ordered(p)
  {
    forall q | Has(p, q) && SymAt(p, q) == Char(0) :: fin in Follow(p, q, fin)
  }

  // No character.
  const NONE := 256

  predicate Plain(text: seq<int>) {
    0 !in text && HAT !in text && NONE !in text
  }

  /** Class texts are NUL-terminated strings of seven-bit characters. */
  predicate SymOk(s: Sym) {
    match s
    case Char(k) => 0 <= k < NCHARS
    case Dot => true
    case Ccl(cs) => forall c | c in cs :: 1 <= c < NCHARS
    case Nccl(cs) => forall c | c in cs :: 1 <= c < NCHARS
  }

  predicate WellFormed(r: Re) {
    match r
    case Leaf(_, s) => SymOk(s)
    case Star(e) => WellFormed(e)
    case Plus(e) => WellFormed(e)
    case Quest(e) => WellFormed(e)
    case Cat(a, b) => WellFormed(a) && WellFormed(b)
    case Or(a, b) => WellFormed(a) && WellFormed(b)
  }

  lemma {:induction false} SymAtOk(p: Re, q: int)
    requires Ordered(p) && Has(p, q) && WellFormed(p)
    ensures SymOk(SymAt(p, q))
  {
    match p
    case Leaf(_, _) =>
    case Star(e) => SymAtOk(e, q);
    case Plus(e) => SymAtOk(e, q);
    case Quest(e) => SymAtOk(e, q);
    case Cat(a, b) =>
      LoIsBase(b, Lo(a) + Leaves(a));
      if Has(a, q) { SymAtOk(a, q); } else { SymAtOk(b, q); }
    case Or(a, b) =>
      LoIsBase(b, Lo(a) + Leaves(a));
      if Has(a, q) { SymAtOk(a, q); } else { SymAtOk(b, q); }
  }

  lemma StepPlain(p: Re, fin: int, s: set<int>, c: int)
    requires Ordered(p) && WellFormed(p)
    requires c != 0 && c != HAT
    ensures Step(p, fin, s, c) == AcceptStep(p, fin, s, c)
  {
    forall q | q in s && Has(p, q)
      ensures Listed(SymAt(p, q), c) <==> Accepts(SymAt(p, q), c)
      ensures Accepts(SymAt(p, q), c) ==> Taken(SymAt(p, q), c)
      ensures 1 <= c < NCHARS && Taken(SymAt(p, q), c) ==> Accepts(SymAt(p, q), c)
    {
      SymAtOk(p, q);
    }
    if SomeLists(p, s, c) {
      var q :| q in s && Has(p, q) && Listed(SymAt(p, q), c);
      SymAtOk(p, q);
      assert TakenStep(p, fin, s, c) <= AcceptStep(p, fin, s, c);
    }
  }

  lemma StepHat(p: Re, fin: int, s: set<int>)
    requires Ordered(p)
    requires exists q | q in s :: Has(p, q) && SymAt(p, q) == Char(HAT)
    ensures Step(p, fin, s, HAT) == AcceptStep(p, fin, s, HAT)
  {
    var q :| q in s && Has(p, q) && SymAt(p, q) == Char(HAT);
    assert Listed(SymAt(p, q), HAT);
    assert TakenStep(p, fin, s, HAT) == AcceptStep(p, fin, s, HAT);
  }

  lemma StepNul(p: Re, fin: int, s: set<int>)
    requires Ordered(p) && WellFormed(p)
    ensures SomeLists(p, s, 0) <==> SomeDollar(p, s)
    ensures fin in Step(p, fin, s, 0) <==>
      fin in AcceptStep(p, fin, s, 0) || (SomeDollar(p, s) && SomeWild(p, fin, s))
  {
    hide Follow;
    forall q | q in s && Has(p, q)
      ensures Listed(SymAt(p, q), 0) <==> SymAt(p, q) == Char(0)
      ensures Accepts(SymAt(p, q), 0) <==> SymAt(p, q) == Char(0)
      ensures Taken(SymAt(p, q), 0) <==> SymAt(p, q) == Char(0) || SymAt(p, q).Dot? || SymAt(p, q).Nccl?
    {
      SymAtOk(p, q);
    }
    if SomeDollar(p, s) && fin in TakenStep(p, fin, s, 0) {
      var q :| q in s && Has(p, q) && Taken(SymAt(p, q), 0) && fin in Follow(p, q, fin);
      assert SymAt(p, q) == Char(0) ==> fin in AcceptStep(p, fin, s, 0);
    }
    if SomeDollar(p, s) && SomeWild(p, fin, s) {
      var q :| q in s && Has(p, q) && (SymAt(p, q).Dot? || SymAt(p, q).Nccl?) && fin in Follow(p, q, fin);
      assert fin in TakenStep(p, fin, s, 0);
    }
  }

  /** Where nothing need follow a '$', that makes no difference. */
  lemma DollarEndsStep(p: Re, fin: int, s: set<int>)
    requires Ordered(p) && DollarEnds(p, fin) && SomeDollar(p, s)
    ensures fin in AcceptStep(p, fin, s, 0)
  {
    var q :| q in s && Has(p, q) && SymAt(p, q) == Char(0);
    assert fin in Follow(p, q, fin);
  }

  lemma ReachSnoc(p: Re, fin: int, u: seq<int>, c: int)
    requires Ordered(p)
    ensures Reach(p, fin, u + [c]) == Initial(p, fin) + Step(p, fin, Reach(p, fin, u), c)
    ensures AcceptReach(p, fin, u + [c]) == Initial(p, fin) + AcceptStep(p, fin, AcceptReach(p, fin, u), c)
  {
    hide Step, AcceptStep, Initial;
    assert (u + [c])[..|u|] == u;
  }

  lemma ReachHat(p: Re, fin: int, h: seq<int>)
    requires Ordered(p) && (h == [] || (h == [HAT] && Anchored(p)))
    ensures Reach(p, fin, h) == AcceptReach(p, fin, h)
  {
    hide Step, AcceptStep, Numbered, First;
    assert Reach(p, fin, []) == AcceptReach(p, fin, []) == Initial(p, fin);
    if h == [HAT] {
      hide Reach, AcceptReach;
      assert h == [] + [HAT];
      ReachSnoc(p, fin, [], HAT);
      StepHat(p, fin, Initial(p, fin));
    }
  }

  /** The machine and the leaves agree after any characters but NUL and '^'. */
  lemma {:induction false} ReachPlain(p: Re, fin: int, h: seq<int>, u: seq<int>)
    requires Ordered(p) && WellFormed(p) && Plain(u)
    requires h == [] || (h == [HAT] && Anchored(p))
    ensures Reach(p, fin, h + u) == AcceptReach(p, fin, h + u)
    decreases |u|, 0
  {
    if u == [] {
      assert h + u == h;
      ReachHat(p, fin, h);
    } else {
      ReachPlainStep(p, fin, h, u[..|u| - 1], u[|u| - 1]);
      assert h + u == (h + u[..|u| - 1]) + [u[|u| - 1]];
    }
  }

  lemma {:induction false} ReachPlainStep(p: Re, fin: int, h: seq<int>, u: seq<int>, c: int)
    requires Ordered(p) && WellFormed(p) && Plain(u + [c])
    requires h == [] || (h == [HAT] && Anchored(p))
    ensures Reach(p, fin, (h + u) + [c]) == AcceptReach(p, fin, (h + u) + [c])
    decreases |u|, 1
  {
    hide Reach, AcceptReach, Step, AcceptStep, Initial, Anchored, WellFormed;
    assert forall x | x in u :: x in u + [c];
    assert c in u + [c];
    ReachPlain(p, fin, h, u);
    ReachSnoc(p, fin, h + u, c);
    StepPlain(p, fin, Reach(p, fin, h + u), c);
  }

  lemma ReachFinal(p: Re, fin: int, text: seq<int>, n: nat)
    requires Rooted(p, fin) && WellFormed(p) && Plain(text)
    requires n <= |Input(p, text)|
    ensures fin in Reach(p, fin, Input(p, text)[..n]) <==>
      fin in AcceptReach(p, fin, Input(p, text)[..n]) || (n == |Input(p, text)| && Slips(p, fin, text))
  {
    hide Reach, AcceptReach, Step, AcceptStep, WellFormed, SomeDollar, SomeWild, Initial, Numbered;
    var w := Input(p, text);
    var h := if Anchored(p) then [HAT] else [];
    if n == |w| {
      assert w[..n] == (h + text) + [0];
      ReachPlain(p, fin, h, text);
      ReachSnoc(p, fin, h + text, 0);
      StepNul(p, fin, Reach(p, fin, h + text));
    } else if |h| <= n {
      assert w[..n] == h + text[..n - |h|];
      ReachPlain(p, fin, h, text[..n - |h|]);
    } else {
      assert w[..n] == [] + [];
      ReachPlain(p, fin, [], []);
    }
  }

  /** A piece of what the match reads is a word of p. */
  ghost predicate Occurs(p: Re, w: seq<int>) {
    exists i, j | 0 <= i <= j <= |w| :: In(p, w[i..j])
  }

  /** The machine passes through the end marker exactly when a word of p occurs in its input, or it
      slips. */
  lemma {:induction false} SearchFindsOccurrences(p: Re, fin: int, text: seq<int>)
    requires Rooted(p, fin) && WellFormed(p) && Plain(text)
    ensures Occurs(p, Input(p, text)) || Slips(p, fin, text)
       <==> exists n | 0 <= n <= |Input(p, text)| :: fin in Reach(p, fin, Input(p, text)[..n])
  {
    hide In, Slips;
    var w := Input(p, text);
    forall n | 0 <= n <= |w|
      ensures fin in Reach(p, fin, w[..n]) <==>
        (exists i | 0 <= i <= n :: In(p, w[i..n])) || (n == |w| && Slips(p, fin, text))
    {
      ReachFinal(p, fin, text, n);
      AcceptReachFinal(p, fin, w[..n]);
      forall i | 0 <= i <= n ensures w[..n][i..] == w[i..n] {
      }
      if i :| 0 <= i <= n && In(p, w[i..n]) {
        assert In(p, w[..n][i..]);
      }
    }
    if Slips(p, fin, text) {
      assert fin in Reach(p, fin, w[..|w|]);
    }
  }
}
