/** What the items of a pattern ask of a text, one by one and at the end of a pattern, in plain
    numbers of characters. */
module EdBounds {
  import opened EdPattern

  /** All characters of t from i to j are such as u may be. */
  ghost predicate Only(u: Unit, t: seq<int>, i: int, j: int) {
    0 <= i <= j <= |t| && forall k | i <= k < j :: Hits(u, t[k])
  }

  /** No repetition from i on is kept from its ends. */
  predicate Free(g: Given) {
    g.locs < 0 || g.locs > |g.t|
  }

  lemma {:induction false} AllOkSnoc(items: seq<Item>, x: Item)
    ensures AllOk(items + [x]) <==> AllOk(items) && ItemOk(x)
  {
    if items == [] {
      assert items + [x] == [x] && [x][1..] == [];
    } else {
      assert (items + [x])[1..] == items[1..] + [x];
      AllOkSnoc(items[1..], x);
    }
  }

  /** A range by itself matches from lo to hi characters, no fewer and no more. */
  lemma RangeCounts(g: Given, u: Unit, lo: int, hi: int, i: int, j: int, v: Groups)
    requires v.Valid() && 0 <= i <= |g.t| && Free(g) && UnitOk(u) && 0 <= lo <= hi < 255
    ensures AllOk([Range(u, lo, hi)])
    ensures In(g, [Range(u, lo, hi)], i, j, v) <==> Only(u, g.t, i, j) && lo <= j - i <= hi
  {
    hide Hits, UnitOk;
    var x := Range(u, lo, hi);
    assert ItemOk(x) && [x][1..] == [];
    if Only(u, g.t, i, j) && lo <= j - i <= hi {
      assert MayEnd(g, u, Low(x), High(g, x), i, j);
    }
  }

  /** One without an upper bound matches up to 255, or 20000 more than it must. */
  lemma RangeLeast(g: Given, u: Unit, lo: int, i: int, j: int, v: Groups)
    requires v.Valid() && 0 <= i <= |g.t| && Free(g) && UnitOk(u) && 0 <= lo <= 255
    ensures AllOk([Range(u, lo, 255)])
    ensures In(g, [Range(u, lo, 255)], i, j, v) <==>
      Only(u, g.t, i, j) && lo <= j - i <= if g.unsigned then lo + 20000 else 255
  {
    hide Hits, UnitOk;
    var x := Range(u, lo, 255);
    assert ItemOk(x) && [x][1..] == [];
    if Only(u, g.t, i, j) && lo <= j - i <= if g.unsigned then lo + 20000 else 255 {
      assert MayEnd(g, u, Low(x), High(g, x), i, j);
    }
  }

  /** A star matches any number of characters. */
  lemma StarCounts(g: Given, u: Unit, i: int, j: int, v: Groups)
    requires v.Valid() && 0 <= i <= |g.t| && Free(g) && UnitOk(u)
    ensures AllOk([Star(u)])
    ensures In(g, [Star(u)], i, j, v) <==> Only(u, g.t, i, j)
  {
    hide Hits, UnitOk;
    var x := Star(u);
    assert ItemOk(x) && [x][1..] == [];
    if Only(u, g.t, i, j) {
      assert MayEnd(g, u, Low(x), High(g, x), i, j);
    }
  }

  /** A match of the items and x is one of the items and then one of x, whatever the groups are. */
  ghost predicate Parts(g: Given, items: seq<Item>, x: Item, i: int, j: int, v: Groups, w: Groups)
    requires v.Valid() && w.Valid() && 0 <= i <= |g.t| && AllOk(items) && AllOk(items + [x]) && AllOk([x])
  {
    In(g, items + [x], i, j, v) <==> exists e | 0 <= e <= |g.t| :: In(g, items, i, e, v) && In(g, [x], e, j, w)
  }

  lemma {:induction false} LastApart(g: Given, items: seq<Item>, x: Item, i: int, j: int, v: Groups, w: Groups)
    requires v.Valid() && w.Valid() && 0 <= i <= |g.t| && AllOk(items) && ItemOk(x) && (x.Star? || x.Range?)
    ensures AllOk(items + [x]) && AllOk([x])
    ensures Parts(g, items, x, i, j, v, w)
    decreases |items|
  {
    hide MayEnd, High, Low, Hits, UnitOk;
    AllOkSnoc(items, x);
    AllOkSnoc([], x);
    assert [] + [x] == [x];
    if items == [] {
      assert items + [x] == [x];
      AnyGroups(g, x, i, j, v, w);
    } else {
      assert (items + [x])[0] == items[0] && (items + [x])[1..] == items[1..] + [x];
      var y, rest := items[0], items[1..];
      match y
      case One(u) =>
        if i < |g.t| { LastApart(g, rest, x, i + 1, j, v, w); }
      case Dol => LastApart(g, rest, x, i, j, v, w);
      case Open(k) => LastApart(g, rest, x, i, j, v.(bra := v.bra[k := i]), w);
      case Close(k) => LastApart(g, rest, x, i, j, v.(ket := v.ket[k := i]), w);
      case Back(k) =>
        if Again(g.t, v, k, i) { LastApart(g, rest, x, i + (v.ket[k] - v.bra[k]), j, v, w); }
      case _ =>
        forall m | 0 <= m <= |g.t|
          ensures AllOk(rest + [x]) && Parts(g, rest, x, m, j, v, w)
        {
          LastApart(g, rest, x, m, j, v, w);
        }
        LastBehind(g, items, x, i, j, v, w);
    }
  }

  lemma LastBehind(g: Given, items: seq<Item>, x: Item, i: int, j: int, v: Groups, w: Groups)
    requires v.Valid() && w.Valid() && 0 <= i <= |g.t| && items != [] && (items[0].Star? || items[0].Range?)
    requires AllOk(items) && AllOk(items + [x]) && AllOk([x]) && AllOk(items[1..]) && AllOk(items[1..] + [x])
    requires forall m | 0 <= m <= |g.t| :: Parts(g, items[1..], x, m, j, v, w)
    ensures Parts(g, items, x, i, j, v, w)
  {
    hide MayEnd, High, Low, AllOk;
    var y, rest := items[0], items[1..];
    assert (items + [x])[0] == y && (items + [x])[1..] == rest + [x];
    RepeatIn(g, items, i, v);
    RepeatIn(g, items + [x], i, v);
    hide In;
    if In(g, items + [x], i, j, v) {
      var m :| 0 <= m <= |g.t| && MayEnd(g, y.u, Low(y), High(g, y), i, m) && In(g, rest + [x], m, j, v);
      assert Parts(g, rest, x, m, j, v, w);
      var e :| 0 <= e <= |g.t| && In(g, rest, m, e, v) && In(g, [x], e, j, w);
      assert In(g, items, i, e, v);
    }
    if e :| 0 <= e <= |g.t| && In(g, items, i, e, v) && In(g, [x], e, j, w) {
      var m :| 0 <= m <= |g.t| && MayEnd(g, y.u, Low(y), High(g, y), i, m) && In(g, rest, m, e, v);
      assert Parts(g, rest, x, m, j, v, w);
      assert In(g, rest + [x], m, j, v);
    }
  }

  lemma RepeatIn(g: Given, items: seq<Item>, i: int, v: Groups)
    requires v.Valid() && 0 <= i <= |g.t| && items != [] && (items[0].Star? || items[0].Range?)
    requires AllOk(items) && AllOk(items[1..])
    ensures forall j :: In(g, items, i, j, v) <==> exists m | 0 <= m <= |g.t| ::
      MayEnd(g, items[0].u, Low(items[0]), High(g, items[0]), i, m) && In(g, items[1..], m, j, v)
  {
    hide MayEnd, High, Low, AllOk;
  }

  lemma AnyGroups(g: Given, x: Item, i: int, j: int, v: Groups, w: Groups)
    requires v.Valid() && w.Valid() && 0 <= i <= |g.t| && ItemOk(x) && (x.Star? || x.Range?) && AllOk([x])
    ensures In(g, [x], i, j, v) <==> In(g, [x], i, j, w)
    ensures In(g, [x], i, j, v) <==> exists e | 0 <= e <= |g.t| :: In(g, [], i, e, v) && In(g, [x], e, j, w)
  {
    hide MayEnd, High, Low;
    assert [x][1..] == [];
    assert In(g, [], i, i, v);
  }

  /** A range and the end of the text. */
  lemma RangeToEnd(g: Given, u: Unit, lo: int, hi: int, i: int, j: int, v: Groups)
    requires v.Valid() && 0 <= i <= |g.t| && Free(g) && UnitOk(u) && 0 <= lo <= hi < 255
    ensures AllOk([Range(u, lo, hi), Dol])
    ensures In(g, [Range(u, lo, hi), Dol], i, j, v) <==> j == |g.t| && Only(u, g.t, i, j) && lo <= j - i <= hi
  {
    hide Hits, UnitOk;
    var x := Range(u, lo, hi);
    var items := [x, Dol];
    assert ItemOk(x) && ItemOk(Dol) && items[1..] == [Dol] && [Dol][1..] == [];
    assert AllOk([]) && AllOk([Dol]) && AllOk(items);
    forall m | 0 <= m <= |g.t|
      ensures In(g, [Dol], m, j, v) <==> m == |g.t| == j
    {
    }
    RepeatIn(g, items, i, v);
    if j == |g.t| && Only(u, g.t, i, j) && lo <= j - i <= hi {
      assert MayEnd(g, u, Low(x), High(g, x), i, j);
    }
  }

  /** The pattern ends in a range of lo to hi characters. */
  predicate EndsCounted(items: seq<Item>) {
    items != [] && items[|items| - 1].Range? && items[|items| - 1].hi < 255
  }

  /** Some part of the text that begins at i matches what is in front of the range, and as many
      characters as that allows come behind it, up to j. */
  ghost predicate Counted(g: Given, items: seq<Item>, i: int, j: int)
    requires 0 <= i <= |g.t| && EndsCounted(items) && AllOk(items[..|items| - 1])
  {
    var x := items[|items| - 1];
    exists e | 0 <= e <= |g.t| ::
      In(g, items[..|items| - 1], i, e, NoGroups()) && Only(x.u, g.t, e, j) && x.lo <= j - e <= x.hi
  }

  lemma FrontOk(items: seq<Item>)
    requires AllOk(items) && items != []
    ensures AllOk(items[..|items| - 1]) && ItemOk(items[|items| - 1])
  {
    assert items == items[..|items| - 1] + [items[|items| - 1]];
    AllOkSnoc(items[..|items| - 1], items[|items| - 1]);
  }

  lemma CountedIs(g: Given, items: seq<Item>, i: int, j: int)
    requires 0 <= i <= |g.t| && AllOk(items) && EndsCounted(items) && Free(g)
    ensures AllOk(items[..|items| - 1])
    ensures In(g, items, i, j, NoGroups()) <==> Counted(g, items, i, j)
  {
    hide In, AllOk, NoGroups, Only;
    var front, x := items[..|items| - 1], items[|items| - 1];
    FrontOk(items);
    assert items == front + [x];
    LastApart(g, front, x, i, j, NoGroups(), NoGroups());
    forall e | 0 <= e <= |g.t|
      ensures AllOk([x]) && (In(g, [x], e, j, NoGroups()) <==> Only(x.u, g.t, e, j) && x.lo <= j - e <= x.hi)
    {
      RangeCounts(g, x.u, x.lo, x.hi, e, j, NoGroups());
    }
  }
}
