/** The states that the subset construction needs, by what is read on the way to them. */
module AwkStates {
  import opened AwkRegex
  import opened AwkSearch

  /** Reading u[i] after what is before it is a transition that the compiler enters: the state
      reached is not final, and one of its positions lists the character. */
  ghost predicate Passes(p: Re, fin: int, u: seq<int>, i: int)
    requires Ordered(p) && 0 <= i < |u|
  {
    fin !in Reach(p, fin, u[..i]) && SomeLists(p, Reach(p, fin, u[..i]), u[i])
  }

  /** A way through the machine along entered transitions only. */
  ghost predicate Path(p: Re, fin: int, u: seq<int>)
    requires Ordered(p)
  {
    forall i | 0 <= i < |u| :: Passes(p, fin, u, i)
  }

  /** The positions that stand for what is reached after u: the initial ones belong to every
      state, and are written down in the first only. */
  ghost function StateAt(p: Re, fin: int, u: seq<int>): set<int>
    requires Ordered(p)
  {
    if u == [] then Initial(p, fin) else Reach(p, fin, u) - Initial(p, fin)
  }

  ghost predicate Needed(p: Re, fin: int, s: set<int>)
    requires Ordered(p)
  {
    exists u :: Path(p, fin, u) && StateAt(p, fin, u) == s
  }

  /** All positions and the end marker. */
  ghost function Places(p: Re, fin: int): set<int> {
    (set q | Lo(p) <= q < Lo(p) + Leaves(p) && Has(p, q)) + {fin}
  }

  /** The states of the machine for p. */
  ghost function States(p: Re, fin: int): set<set<int>>
    requires Ordered(p)
  {
    set s: set<int> | s <= Places(p, fin) && Needed(p, fin, s)
  }

  lemma StepPlaces(p: Re, fin: int, s: set<int>, c: int)
    requires Ordered(p)
    ensures TakenStep(p, fin, s, c) <= Places(p, fin)
  {
    forall t | t in TakenStep(p, fin, s, c)
      ensures t in Places(p, fin)
    {
      var q :| q in s && Has(p, q) && t in Follow(p, q, fin);
      FollowBounds(p, q, fin);
    }
  }

  lemma ReachPlaces(p: Re, fin: int, u: seq<int>)
    requires Ordered(p)
    ensures Initial(p, fin) <= Reach(p, fin, u) <= Places(p, fin)
  {
    FirstBounds(p);
    if u != [] {
      StepPlaces(p, fin, Reach(p, fin, u[..|u| - 1]), u[|u| - 1]);
    }
  }

  lemma NeededIsState(p: Re, fin: int, s: set<int>)
    requires Ordered(p)
    ensures s in States(p, fin) <==> Needed(p, fin, s)
  {
    if Needed(p, fin, s) {
      var u :| Path(p, fin, u) && StateAt(p, fin, u) == s;
      ReachPlaces(p, fin, u);
      ReachPlaces(p, fin, []);
    }
  }

  lemma FirstIsState(p: Re, fin: int)
    requires Ordered(p)
    ensures Initial(p, fin) in States(p, fin)
  {
    assert Path(p, fin, []) && StateAt(p, fin, []) == Initial(p, fin);
    NeededIsState(p, fin, Initial(p, fin));
  }

  lemma WholeState(p: Re, fin: int, u: seq<int>)
    requires Ordered(p) && Path(p, fin, u)
    ensures StateAt(p, fin, u) + Initial(p, fin) == Reach(p, fin, u)
    ensures fin in StateAt(p, fin, u) <==> fin in Reach(p, fin, u)
  {
    ReachPlaces(p, fin, u);
    if u != [] {
      assert Passes(p, fin, u, 0) && u[..0] == [];
    }
  }

  lemma PathGrows(p: Re, fin: int, u: seq<int>, c: int)
    requires Ordered(p)
    ensures Path(p, fin, u + [c]) <==> Path(p, fin, u) && fin !in Reach(p, fin, u) && SomeLists(p, Reach(p, fin, u), c)
    ensures Reach(p, fin, u + [c]) == Initial(p, fin) + Step(p, fin, Reach(p, fin, u), c)
  {
    hide Reach, SomeLists;
    var v := u + [c];
    assert v[..|u|] == u;
    forall i | 0 <= i < |u|
      ensures Passes(p, fin, v, i) <==> Passes(p, fin, u, i)
    {
      assert v[..i] == u[..i];
    }
    if Path(p, fin, v) {
      assert Passes(p, fin, v, |u|);
      forall i | 0 <= i < |u|
        ensures Passes(p, fin, u, i)
      {
        assert Passes(p, fin, v, i);
      }
    }
    ReachSnoc(p, fin, u, c);
  }

  /** What a transition of a state that is not final leads to is a state. */
  lemma NextIsState(p: Re, fin: int, s: set<int>, c: int)
    requires Ordered(p) && s in States(p, fin) && fin !in s
    requires SomeLists(p, s + Initial(p, fin), c)
    ensures TakenStep(p, fin, s + Initial(p, fin), c) - Initial(p, fin) in States(p, fin)
  {
    hide Reach, SomeLists, TakenStep, Initial;
    NeededIsState(p, fin, s);
    var u :| Path(p, fin, u) && StateAt(p, fin, u) == s;
    WholeState(p, fin, u);
    PathGrows(p, fin, u, c);
    var next := TakenStep(p, fin, s + Initial(p, fin), c) - Initial(p, fin);
    assert Path(p, fin, u + [c]) && StateAt(p, fin, u + [c]) == next;
    NeededIsState(p, fin, next);
  }

  // Counting them.

  /** A list of different states. */
  ghost predicate Distinct(p: Re, fin: int, sets: seq<set<int>>)
    requires Ordered(p)
  {
    && (forall i | 0 <= i < |sets| :: sets[i] in States(p, fin))
    && (forall i, j | 0 <= i < j < |sets| :: sets[i] != sets[j])
  }

  /** A list that has the first state and with each state that is not final all that its
      transitions lead to. */
  ghost predicate Complete(p: Re, fin: int, sets: seq<set<int>>)
    requires Ordered(p)
  {
    && Initial(p, fin) in sets
    && (forall s, c | s in sets && fin !in s && SomeLists(p, s + Initial(p, fin), c) ::
          TakenStep(p, fin, s + Initial(p, fin), c) - Initial(p, fin) in sets)
  }

  ghost function Entries<T>(s: seq<T>): set<T> {
    set x | x in s
  }

  lemma {:induction false} DistinctSize(p: Re, fin: int, sets: seq<set<int>>)
    requires Ordered(p) && Distinct(p, fin, sets)
    ensures |Entries(sets)| == |sets| && Entries(sets) <= States(p, fin)
  {
    hide States;
    if sets != [] {
      var n := |sets| - 1;
      DistinctSize(p, fin, sets[..n]);
      assert Entries(sets) == Entries(sets[..n]) + {sets[n]};
    }
  }

  lemma SmallerFamily<T>(a: set<T>, b: set<T>)
    requires a <= b
    ensures |a| <= |b|
  {
    assert b == a + (b - a);
  }

  lemma DistinctGrows(p: Re, fin: int, sets: seq<set<int>>, s: set<int>)
    requires Ordered(p) && Distinct(p, fin, sets) && s in States(p, fin) && s !in sets
    ensures Distinct(p, fin, sets + [s])
  {
    hide States;
  }

  /** A list of different states has no more of them than there are. */
  lemma DistinctFits(p: Re, fin: int, sets: seq<set<int>>)
    requires Ordered(p) && Distinct(p, fin, sets)
    ensures |sets| <= |States(p, fin)|
  {
    DistinctSize(p, fin, sets);
    SmallerFamily(Entries(sets), States(p, fin));
  }

  lemma {:induction false} CompleteReaches(p: Re, fin: int, sets: seq<set<int>>, u: seq<int>)
    requires Ordered(p) && Complete(p, fin, sets) && Path(p, fin, u)
    ensures StateAt(p, fin, u) in sets
    decreases |u|
  {
    hide Reach, SomeLists, TakenStep, Initial, Path;
    if u != [] {
      var v, c := u[..|u| - 1], u[|u| - 1];
      assert u == v + [c];
      PathGrows(p, fin, v, c);
      CompleteReaches(p, fin, sets, v);
      WholeState(p, fin, v);
      var s := StateAt(p, fin, v);
      assert SomeLists(p, s + Initial(p, fin), c);
      assert StateAt(p, fin, u) == TakenStep(p, fin, s + Initial(p, fin), c) - Initial(p, fin);
    }
  }

  /** A complete list of different states has them all. */
  lemma CompleteCounts(p: Re, fin: int, sets: seq<set<int>>)
    requires Ordered(p) && Complete(p, fin, sets) && Distinct(p, fin, sets)
    ensures |sets| == |States(p, fin)|
  {
    hide Complete, Path, StateAt;
    forall s | s in States(p, fin)
      ensures s in Entries(sets)
    {
      var u :| Path(p, fin, u) && StateAt(p, fin, u) == s;
      CompleteReaches(p, fin, sets, u);
    }
    DistinctSize(p, fin, sets);
    assert Entries(sets) == States(p, fin);
  }

  // How many there can be.

  function Power(n: nat): nat {
    if n == 0 then 1 else 2 * Power(n - 1)
  }

  /** There are no more sets between b and a + b than a has subsets. */
  lemma {:induction false} FamilySize(f: set<set<int>>, a: set<int>, b: set<int>)
    requires forall s | s in f :: b <= s <= a + b
    ensures |f| <= Power(|a|)
    decreases |a|
  {
    if forall x :: x !in a {
      assert a == {};
      forall s | s in f
        ensures s in {b}
      {
        assert s == b;
      }
      SmallerFamily(f, {b});
    } else {
      var x :| x in a;
      var rest := a - {x};
      assert |rest| == |a| - 1;
      var having := set s | s in f && x in s;
      assert f == having + (f - having);
      FamilySize(having, rest, b + {x});
      FamilySize(f - having, rest, b);
    }
  }

  lemma {:induction false} IntervalSize(p: Re, lo: int, n: nat)
    requires lo == Lo(p) && n <= Leaves(p)
    ensures |set q | lo <= q < lo + n && Has(p, q)| == n
  {
    if n > 0 {
      IntervalSize(p, lo, n - 1);
      assert (set q | lo <= q < lo + n && Has(p, q)) == (set q | lo <= q < lo + (n - 1) && Has(p, q)) + {lo + n - 1};
    } else {
      assert (set q | lo <= q < lo + n && Has(p, q)) == {};
    }
  }

  lemma PlacesSize(p: Re, fin: int)
    requires Rooted(p, fin)
    ensures |Places(p, fin)| == Leaves(p) + 1
  {
    hide Numbered, Leaves;
    IntervalSize(p, Lo(p), Leaves(p));
  }

  /** The machine never has more states than its positions and end marker have subsets. */
  lemma StatesBound(p: Re, fin: int)
    requires Rooted(p, fin)
    ensures |States(p, fin)| <= Power(Leaves(p) + 1)
  {
    hide Needed, Places, Numbered, Power, Leaves, Lo, Has;
    PlacesSize(p, fin);
    FamilySize(States(p, fin), Places(p, fin), {});
  }
}
