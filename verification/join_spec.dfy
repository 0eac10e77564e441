/** What join should print: every line of file 1 with every line of file 2 that has its key, and the
    lines without a partner where they were asked for. */
module JoinSpec {
  import opened Strings

  type Field = Text
  type Line = seq<Field>

  datatype Event = Pair(i: nat, k: nat) | Left(i: nat) | Right(k: nat)

  /** No event is there twice. */
  predicate Once(es: seq<Event>) {
    forall i, j | 0 <= i < j < |es| :: es[i] != es[j]
  }

  lemma OnceShort(es: seq<Event>)
    requires |es| <= 1
    ensures Once(es)
  {
  }

  lemma OnceJoined(a: seq<Event>, b: seq<Event>)
    requires Once(a) && Once(b) && forall e | e in b :: e !in a
    ensures Once(a + b)
  {
    var c := a + b;
    forall i, j | 0 <= i < j < |c|
      ensures c[i] != c[j]
    {
      if i < |a| <= j {
        assert a[i] in a && b[j - |a|] in b;
      }
    }
  }

  /** Two files of lines, the fields they are joined on, and whether the lines without partners of
      either are wanted. */
  datatype Task = Task(l1: seq<Line>, l2: seq<Line>, j1: nat, j2: nat, a1: bool, a2: bool) {
    function N(): nat {
      |l1|
    }

    function M(): nat {
      |l2|
    }

    predicate Valid() {
      && (forall i | 0 <= i < |l1| :: |l1[i]| > j1)
      && (forall k | 0 <= k < |l2| :: |l2[k]| > j2)
    }

    function Key1(i: nat): Field
      requires Valid() && i < N()
    {
      l1[i][j1]
    }

    function Key2(k: nat): Field
      requires Valid() && k < M()
    {
      l2[k][j2]
    }

    /** How line i of file 1 compares with line k of file 2. */
    function Comp(i: nat, k: nat): int
      requires Valid() && i < N() && k < M()
    {
      Cmp(Key1(i), Key2(k))
    }

    ghost predicate Sorted() {
      && Valid()
      && (forall i, j | 0 <= i < j < N() :: Cmp(Key1(i), Key1(j)) <= 0)
      && (forall i, j | 0 <= i < j < M() :: Cmp(Key2(i), Key2(j)) <= 0)
    }

    /** Line k of file 2 belongs after line i - 1 of file 1 and before line i. */
    predicate Between(i: nat, k: nat)
      requires Valid() && i <= N() && k < M()
    {
      (i < N() ==> Comp(i, k) > 0) && (i > 0 ==> Comp(i - 1, k) < 0)
    }

    /** The partners of line i among the first k lines of file 2. */
    function Pairs(i: nat, k: nat): seq<Event>
      requires Valid() && i < N() && k <= M()
    {
      if k == 0 then [] else Pairs(i, k - 1) + if Comp(i, k - 1) == 0 then [Pair(i, k - 1)] else []
    }

    function Matches(i: nat): seq<Event>
      requires Valid() && i < N()
    {
      if Pairs(i, M()) == [] && a1 then [Left(i)] else Pairs(i, M())
    }

    /** The lines without partners, of the first k of file 2, that come before line i of file 1. */
    function Rights(i: nat, k: nat): seq<Event>
      requires Valid() && i <= N() && k <= M()
    {
      if k == 0 then [] else Rights(i, k - 1) + if a2 && Between(i, k - 1) then [Right(k - 1)] else []
    }

    function Upto(i: nat): seq<Event>
      requires Valid() && i <= N()
    {
      if i == 0 then [] else Upto(i - 1) + Rights(i - 1, M()) + Matches(i - 1)
    }

    /** The whole output, by nested loops. */
    function Joined(): seq<Event>
      requires Valid()
    {
      Upto(N()) + Rights(N(), M())
    }

    // How comparisons carry over between lines.

    lemma Later2(i: nat, k: nat, k': nat)
      requires Sorted() && i < N() && k <= k' < M()
      ensures Comp(i, k) <= 0 ==> Comp(i, k') <= 0
      ensures Comp(i, k) < 0 ==> Comp(i, k') < 0
      ensures Comp(i, k') > 0 ==> Comp(i, k) > 0
      ensures Comp(i, k') >= 0 ==> Comp(i, k) >= 0
    {
      CmpOpposite(Key1(i), Key2(k));
      if Comp(i, k) <= 0 && k < k' {
        CmpTransitive(Key1(i), Key2(k), Key2(k'));
      }
    }

    lemma Later1(i: nat, i': nat, k: nat)
      requires Sorted() && i <= i' < N() && k < M()
      ensures Comp(i, k) >= 0 ==> Comp(i', k) >= 0
      ensures Comp(i, k) > 0 ==> Comp(i', k) > 0
      ensures Comp(i', k) < 0 ==> Comp(i, k) < 0
      ensures Comp(i', k) <= 0 ==> Comp(i, k) <= 0
    {
      if i < i' && Comp(i', k) <= 0 {
        CmpTransitive(Key1(i), Key1(i'), Key2(k));
      }
    }

    /** Lines that have a partner in common compare alike with all others. */
    lemma Same(i: nat, i': nat, k: nat, k': nat)
      requires Valid() && i < N() && i' < N() && k < M() && k' < M() && Comp(i, k) == 0 && Comp(i', k) == 0
      ensures Comp(i, k') == Comp(i', k')
    {
      CmpOpposite(Key1(i), Key2(k));
      CmpOpposite(Key1(i'), Key2(k));
    }

    // What is printed, line by line.

    lemma {:induction false} PairsHas(i: nat, k: nat, e: Event)
      requires Valid() && i < N() && k <= M()
      ensures e in Pairs(i, k) <==> e.Pair? && e.i == i && e.k < k && Comp(i, e.k) == 0
    {
      if k > 0 {
        PairsHas(i, k - 1, e);
      }
    }

    lemma {:induction false} RightsHas(i: nat, k: nat, e: Event)
      requires Valid() && i <= N() && k <= M()
      ensures e in Rights(i, k) <==> e.Right? && e.k < k && a2 && Between(i, e.k)
    {
      if k > 0 {
        RightsHas(i, k - 1, e);
      }
    }

    lemma {:induction false} UptoHas(i: nat, e: Event)
      requires Valid() && i <= N()
      ensures e in Upto(i) <==>
        match e
        case Pair(a, k) => a < i && k < M() && Comp(a, k) == 0
        case Left(a) => a < i && a1 && forall k | 0 <= k < M() :: Comp(a, k) != 0
        case Right(k) => a2 && k < M() && exists a | 0 <= a < i :: Between(a, k)
    {
      hide Comp, Between, Pairs, Rights, Matches;
      if i > 0 {
        UptoHas(i - 1, e);
        RightsHas(i - 1, M(), e);
        PairsHas(i - 1, M(), e);
        LeftHas(i - 1);
        assert e in Upto(i) <==> e in Upto(i - 1) || e in Rights(i - 1, M()) || e in Matches(i - 1);
      }
    }

    lemma LeftHas(i: nat)
      requires Valid() && i < N()
      ensures Left(i) in Matches(i) <==> a1 && forall k | 0 <= k < M() :: Comp(i, k) != 0
      ensures forall e | e in Matches(i) :: e == Left(i) || e in Pairs(i, M())
      ensures forall e | e in Pairs(i, M()) :: e in Matches(i)
    {
      forall k | 0 <= k < M() ensures Comp(i, k) == 0 <==> Pair(i, k) in Pairs(i, M()) {
        PairsHas(i, M(), Pair(i, k));
      }
      if Pairs(i, M()) != [] {
        var e := Pairs(i, M())[0];
        PairsHas(i, M(), e);
      }
      PairsHas(i, M(), Left(i));
    }

    /** Among sorted lines, those of file 2 that lie between two lines of file 1 are those without a
        partner. */
    lemma {:induction false} BetweenSomewhere(k: nat, i: nat)
      requires Sorted() && k < M() && i <= N() && (i > 0 ==> Comp(i - 1, k) < 0)
      requires forall a | 0 <= a < N() :: Comp(a, k) != 0
      ensures exists a | i <= a <= N() :: Between(a, k)
      decreases N() - i
    {
      if i < N() && Comp(i, k) < 0 {
        BetweenSomewhere(k, i + 1);
      } else {
        assert Between(i, k);
      }
    }

    // Nothing is printed twice.

    lemma {:induction false} PairsOnce(i: nat, k: nat)
      requires Valid() && i < N() && k <= M()
      ensures Once(Pairs(i, k))
    {
      hide Comp, Once;
      OnceShort([]);
      if k > 0 {
        PairsOnce(i, k - 1);
        PairsHas(i, k - 1, Pair(i, k - 1));
        OnceShort([Pair(i, k - 1)]);
        OnceJoined(Pairs(i, k - 1), if Comp(i, k - 1) == 0 then [Pair(i, k - 1)] else []);
      }
    }

    lemma {:induction false} RightsOnce(i: nat, k: nat)
      requires Valid() && i <= N() && k <= M()
      ensures Once(Rights(i, k))
    {
      hide Between, Once;
      OnceShort([]);
      if k > 0 {
        RightsOnce(i, k - 1);
        RightsHas(i, k - 1, Right(k - 1));
        OnceShort([Right(k - 1)]);
        OnceJoined(Rights(i, k - 1), if a2 && Between(i, k - 1) then [Right(k - 1)] else []);
      }
    }

    /** No line of file 2 belongs in two places. */
    lemma BetweenOnce(a: nat, b: nat, k: nat)
      requires Sorted() && a < b <= N() && k < M() && Between(a, k)
      ensures !Between(b, k)
    {
      Later1(a, b - 1, k);
    }

    lemma UptoApart(i: nat)
      requires Sorted() && i <= N()
      ensures forall e | e in Upto(i) :: e !in Rights(i, M())
    {
      hide Comp, Between, Rights, Upto;
      forall e | e in Upto(i)
        ensures e !in Rights(i, M())
      {
        UptoHas(i, e);
        RightsHas(i, M(), e);
        if e.Right? {
          var a :| 0 <= a < i && Between(a, e.k);
          BetweenOnce(a, i, e.k);
        }
      }
    }

    lemma MatchesApart(i: nat)
      requires Valid() && i < N()
      ensures forall e | e in Matches(i) :: e !in Upto(i) + Rights(i, M())
    {
      hide Comp, Between, Rights, Upto, Pairs, Matches;
      LeftHas(i);
      forall e | e in Matches(i)
        ensures e !in Upto(i) + Rights(i, M())
      {
        UptoHas(i, e);
        RightsHas(i, M(), e);
        PairsHas(i, M(), e);
      }
    }

    lemma {:induction false} UptoOnce(i: nat)
      requires Sorted() && i <= N()
      ensures Once(Upto(i))
    {
      hide Comp, Between, Rights, Pairs, Once;
      OnceShort([]);
      if i > 0 {
        UptoOnce(i - 1);
        RightsOnce(i - 1, M());
        PairsOnce(i - 1, M());
        OnceShort([Left(i - 1)]);
        UptoApart(i - 1);
        OnceJoined(Upto(i - 1), Rights(i - 1, M()));
        MatchesApart(i - 1);
        OnceJoined(Upto(i - 1) + Rights(i - 1, M()), Matches(i - 1));
      }
    }

    /** Every pair of lines with the same key is printed, and no other, and just the lines without
        partners that were asked for; and each of them once. */
    lemma JoinedIsJoin(e: Event)
      requires Sorted()
      ensures Once(Joined())
      ensures e in Joined() <==>
        match e
        case Pair(i, k) => i < N() && k < M() && Comp(i, k) == 0
        case Left(i) => i < N() && a1 && forall k | 0 <= k < M() :: Comp(i, k) != 0
        case Right(k) => k < M() && a2 && forall i | 0 <= i < N() :: Comp(i, k) != 0
    {
      hide Comp, Pairs, Rights, Matches, Upto, Once;
      UptoOnce(N());
      RightsOnce(N(), M());
      UptoApart(N());
      OnceJoined(Upto(N()), Rights(N(), M()));
      UptoHas(N(), e);
      RightsHas(N(), M(), e);
      if e.Right? && e.k < M() {
        var k := e.k;
        if forall i | 0 <= i < N() :: Comp(i, k) != 0 {
          BetweenSomewhere(k, 0);
        } else {
          var i :| 0 <= i < N() && Comp(i, k) == 0;
          forall a | 0 <= a <= N()
            ensures !Between(a, k)
          {
            if a <= i {
              if a < N() { Later1(a, i, k); }
            } else {
              Later1(i, a - 1, k);
            }
          }
        }
      }
    }

    // In which order it is printed.

    /** a comes before b: by the lines of file 1, and for one of them by those of file 2; a line of file 2
        without a partner by how its key compares. */
    predicate Ahead(a: Event, b: Event)
      requires Valid() && Within(a) && Within(b)
    {
      if a.Right? && b.Right? then a.k < b.k
      else if a.Right? then Comp(b.i, a.k) > 0
      else if b.Right? then Comp(a.i, b.k) < 0
      else a.i < b.i || (a.i == b.i && a.Pair? && b.Pair? && a.k < b.k)
    }

    predicate Within(e: Event) {
      (e.Right? || e.i < N()) && (e.Left? || e.k < M())
    }

    ghost predicate Ordered(es: seq<Event>)
      requires Valid()
    {
      (forall e | e in es :: Within(e)) && forall x, y | 0 <= x < y < |es| :: Ahead(es[x], es[y])
    }

    lemma OrderedBoth(a: seq<Event>, b: seq<Event>)
      requires Valid() && Ordered(a) && Ordered(b) && forall e, f | e in a && f in b :: Ahead(e, f)
      ensures Ordered(a + b)
    {
      hide Ahead, Within;
      var c := a + b;
      forall x, y | 0 <= x < y < |c|
        ensures Within(c[x]) && Within(c[y]) && Ahead(c[x], c[y])
      {
        assert x < |a| ==> c[x] in a;
        assert y >= |a| ==> c[y] in b;
        assert c[x] in c && c[y] in c;
      }
    }

    lemma OrderedShort(es: seq<Event>)
      requires Valid() && |es| <= 1 && forall e | e in es :: Within(e)
      ensures Ordered(es)
    {
    }

    lemma {:induction false} PairsOrdered(i: nat, k: nat)
      requires Valid() && i < N() && k <= M()
      ensures Ordered(Pairs(i, k))
    {
      hide Comp, Ordered;
      OrderedShort([]);
      if k > 0 {
        PairsOrdered(i, k - 1);
        var before, last := Pairs(i, k - 1), Pair(i, k - 1);
        forall e | e in before
          ensures Within(e) && Ahead(e, last)
        {
          PairsHas(i, k - 1, e);
        }
        OrderedMore(before, last);
        assert before + [] == before;
      }
    }

    lemma OrderedMore(a: seq<Event>, e: Event)
      requires Valid() && Ordered(a) && Within(e) && forall x | x in a :: Ahead(x, e)
      ensures Ordered(a + [e])
    {
      hide Ahead, Within, Ordered;
      OrderedShort([e]);
      OrderedIn(a);
      forall x, y | x in a && y in [e]
        ensures Within(x) && Within(y) && Ahead(x, y)
      {
      }
      OrderedBoth(a, [e]);
    }

    lemma OrderedIn(a: seq<Event>)
      requires Valid() && Ordered(a)
      ensures forall e | e in a :: Within(e)
    {
    }

    lemma {:induction false} RightsOrdered(i: nat, k: nat)
      requires Valid() && i <= N() && k <= M()
      ensures Ordered(Rights(i, k))
    {
      hide Between, Ordered;
      OrderedShort([]);
      if k > 0 {
        RightsOrdered(i, k - 1);
        var before, last := Rights(i, k - 1), Right(k - 1);
        forall e | e in before
          ensures Within(e) && Ahead(e, last)
        {
          RightsHas(i, k - 1, e);
        }
        OrderedMore(before, last);
        assert before + [] == before;
      }
    }

    /** What has been printed before comes before the lines of file 2 that belong before line i. */
    lemma UptoAhead(i: nat, e: Event, k: nat)
      requires Sorted() && i <= N() && e in Upto(i) && k < M() && Between(i, k)
      ensures Within(e) && Ahead(e, Right(k))
    {
      hide Comp, Upto;
      UptoHas(i, e);
      if e.Right? {
        var a :| 0 <= a < i && Between(a, e.k);
        Later1(a, i - 1, e.k);
        if e.k >= k {
          Later2(i - 1, k, e.k);
        }
      } else {
        Later1(e.i, i - 1, k);
      }
    }

    /** ... and all of that before line i and its partners. */
    lemma MatchesAhead(i: nat, e: Event, f: Event)
      requires Sorted() && i < N() && f in Matches(i) && e in Upto(i) + Rights(i, M())
      ensures Within(e) && Within(f) && Ahead(e, f)
    {
      hide Comp, Upto, Rights, Matches, Pairs;
      LeftHas(i);
      PairsHas(i, M(), f);
      if e in Rights(i, M()) {
        RightsHas(i, M(), e);
      } else {
        UptoHas(i, e);
        if e.Right? {
          var a :| 0 <= a < i && Between(a, e.k);
          Later1(a, i, e.k);
        }
      }
    }

    lemma MatchesOrdered(i: nat)
      requires Valid() && i < N()
      ensures Ordered(Matches(i))
    {
      hide Comp, Ordered, Pairs;
      PairsOrdered(i, M());
      OrderedShort([Left(i)]);
    }

    lemma {:induction false} UptoOrdered(i: nat)
      requires Sorted() && i <= N()
      ensures Ordered(Upto(i) + Rights(i, M()))
    {
      hide Comp, Between, Rights, Pairs, Ordered, Matches, Upto, Within, Ahead;
      RightsOrdered(i, M());
      if i == 0 {
        UptoNone();
        assert [] + Rights(0, M()) == Rights(0, M());
      } else {
        UptoOrdered(i - 1);
        MatchesOrdered(i - 1);
        forall e, f | e in Upto(i - 1) + Rights(i - 1, M()) && f in Matches(i - 1)
          ensures Within(e) && Within(f) && Ahead(e, f)
        {
          MatchesAhead(i - 1, e, f);
        }
        OrderedBoth(Upto(i - 1) + Rights(i - 1, M()), Matches(i - 1));
        UptoNext(i);
        forall e, f | e in Upto(i) && f in Rights(i, M())
          ensures Within(e) && Within(f) && Ahead(e, f)
        {
          RightWithin(i, f);
          UptoAhead(i, e, f.k);
        }
        OrderedBoth(Upto(i), Rights(i, M()));
      }
    }

    lemma UptoNone()
      requires Valid()
      ensures Upto(0) == []
    {
    }

    lemma UptoNext(i: nat)
      requires Valid() && 0 < i <= N()
      ensures Upto(i) == (Upto(i - 1) + Rights(i - 1, M())) + Matches(i - 1)
    {
    }

    lemma RightWithin(i: nat, f: Event)
      requires Valid() && i <= N() && f in Rights(i, M())
      ensures f.Right? && f.k < M() && Between(i, f.k) && Within(f)
    {
      RightsHas(i, M(), f);
    }

    /** The output is in order. */
    lemma JoinedOrdered()
      requires Sorted()
      ensures Ordered(Joined())
    {
      hide Ordered, Upto, Rights;
      UptoOrdered(N());
    }
  }
}
