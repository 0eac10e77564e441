/** What a group matches comes again where the pattern refers back to it. */
module EdGroups {
  import opened EdPattern
  import opened EdBounds

  /** Group k neither begins nor ends among the items. */
  predicate Without(items: seq<Item>, k: nat) {
    forall i | 0 <= i < |items| :: items[i] != Open(k) && items[i] != Close(k)
  }

  function Tail(k: nat): seq<Item> {
    [Close(k), Back(k)]
  }

  /** The text from b to e comes again from e to j. */
  predicate Twice(t: seq<int>, b: int, e: int, j: int) {
    0 <= b <= e <= j <= |t| && t[b..e] == t[e..j]
  }

  lemma {:induction false} TailOk(items: seq<Item>, k: nat)
    requires AllOk(items) && k < NBRA
    ensures AllOk(items + Tail(k)) && AllOk([Open(k)] + (items + Tail(k)))
  {
    AllOkSnoc(items, Close(k));
    AllOkSnoc(items + [Close(k)], Back(k));
    assert items + [Close(k)] + [Back(k)] == items + Tail(k);
    assert ([Open(k)] + (items + Tail(k)))[1..] == items + Tail(k);
  }

  lemma TailMeans(g: Given, k: nat, i: int, j: int, v: Groups)
    requires v.Valid() && 0 <= i <= |g.t| && k < NBRA && AllOk(Tail(k))
    ensures In(g, Tail(k), i, j, v) <==> Twice(g.t, v.bra[k], i, j)
  {
    var w := v.(ket := v.ket[k := i]);
    assert Tail(k)[1..] == [Back(k)] && [Back(k)][1..] == [];
    assert AllOk([Back(k)]) && AllOk([]);
    var b := v.bra[k];
    assert w.bra[k] == b && w.ket[k] == i;
    assert In(g, Tail(k), i, j, v) <==> In(g, [Back(k)], i, j, w);
    assert In(g, [Back(k)], i, j, w) <==> Again(g.t, w, k, i) && j == i + (i - b);
    if Twice(g.t, b, i, j) {
      assert |g.t[b..i]| == |g.t[i..j]|;
    }
  }

  /** A match of the items and the rest of the group is one of the items, and the text that has been
      matched since the group began comes again. */
  ghost predicate ThenAgain(g: Given, items: seq<Item>, k: nat, i: int, j: int, v: Groups)
    requires v.Valid() && 0 <= i <= |g.t| && AllOk(items) && AllOk(items + Tail(k)) && k < NBRA
  {
    In(g, items + Tail(k), i, j, v) <==>
    exists e | 0 <= e <= |g.t| :: In(g, items, i, e, v) && Twice(g.t, v.bra[k], e, j)
  }

  /** An item that leaves no choice matches from i to i2, and the groups are w then. */
  predicate Goes(g: Given, x: Item, i: int, v: Groups, i2: int, w: Groups)
    requires v.Valid() && 0 <= i <= |g.t| && ItemOk(x)
  {
    match x
    case One(u) => i < |g.t| && Hits(u, g.t[i]) && i2 == i + 1 && w == v
    case Dol => i == |g.t| && i2 == i && w == v
    case Open(n) => i2 == i && w == v.(bra := v.bra[n := i])
    case Close(n) => i2 == i && w == v.(ket := v.ket[n := i])
    case Back(n) => Again(g.t, v, n, i) && i2 == i + (v.ket[n] - v.bra[n]) && w == v
    case _ => false
  }

  /** Or it does not match. */
  predicate Stuck(g: Given, x: Item, i: int, v: Groups)
    requires v.Valid() && 0 <= i <= |g.t| && ItemOk(x)
  {
    match x
    case One(u) => i < |g.t| ==> !Hits(u, g.t[i])
    case Dol => i < |g.t|
    case Back(n) => !Again(g.t, v, n, i)
    case _ => false
  }

  lemma Going(g: Given, items: seq<Item>, i: int, v: Groups, i2: int, w: Groups)
    requires v.Valid() && 0 <= i <= |g.t| && items != [] && AllOk(items) && ItemOk(items[0])
    requires Goes(g, items[0], i, v, i2, w)
    ensures w.Valid() && 0 <= i2 <= |g.t| && AllOk(items[1..])
    ensures forall e :: In(g, items, i, e, v) <==> In(g, items[1..], i2, e, w)
  {
    hide Hits, UnitOk, MayEnd;
  }

  lemma Sticking(g: Given, items: seq<Item>, i: int, v: Groups)
    requires v.Valid() && 0 <= i <= |g.t| && items != [] && AllOk(items) && ItemOk(items[0])
    requires Stuck(g, items[0], i, v)
    ensures forall e :: !In(g, items, i, e, v)
  {
    hide Hits, UnitOk, MayEnd;
  }

  lemma {:induction false} GroupAgain(g: Given, items: seq<Item>, k: nat, i: int, j: int, v: Groups)
    requires v.Valid() && 0 <= i <= |g.t| && AllOk(items) && Without(items, k) && k < NBRA
    ensures AllOk(items + Tail(k)) && ThenAgain(g, items, k, i, j, v)
    decreases |items|
  {
    hide AllOk, Without, In, Tail, Twice, MayEnd, Again, Hits;
    TailOk(items, k);
    if items == [] {
      NoneAgain(g, k, i, j, v);
    } else {
      assert (items + Tail(k))[0] == items[0] && (items + Tail(k))[1..] == items[1..] + Tail(k);
      var x, rest := items[0], items[1..];
      RestOk(items, k);
      TailOk(rest, k);
      if x.Star? || x.Range? {
        forall m | 0 <= m <= |g.t|
          ensures ThenAgain(g, rest, k, m, j, v)
        {
          GroupAgain(g, rest, k, m, j, v);
        }
        RepeatAgain(g, items, k, i, j, v);
      } else if Stuck(g, x, i, v) {
        Sticking(g, items, i, v);
        Sticking(g, items + Tail(k), i, v);
      } else {
        var i2, w := Onward(g, x, i, v);
        Going(g, items, i, v, i2, w);
        Going(g, items + Tail(k), i, v, i2, w);
        GroupAgain(g, rest, k, i2, j, w);
        BeginsStay(g, x, k, i, v, i2, w);
      }
    }
  }

  lemma Onward(g: Given, x: Item, i: int, v: Groups) returns (i2: int, w: Groups)
    requires v.Valid() && 0 <= i <= |g.t| && ItemOk(x) && !x.Star? && !x.Range? && !Stuck(g, x, i, v)
    ensures Goes(g, x, i, v, i2, w)
  {
    hide Again, Hits;
    i2 := if x.One? then i + 1 else if x.Back? then i + (v.ket[x.k] - v.bra[x.k]) else i;
    w := if x.Open? then v.(bra := v.bra[x.k := i]) else if x.Close? then v.(ket := v.ket[x.k := i]) else v;
  }

  lemma BeginsStay(g: Given, x: Item, k: nat, i: int, v: Groups, i2: int, w: Groups)
    requires v.Valid() && 0 <= i <= |g.t| && ItemOk(x) && Goes(g, x, i, v, i2, w) && x != Open(k) && k < NBRA
    ensures w.Valid() && w.bra[k] == v.bra[k]
  {
    hide Again, Hits;
  }

  lemma RestOk(items: seq<Item>, k: nat)
    requires items != [] && AllOk(items) && Without(items, k)
    ensures ItemOk(items[0]) && AllOk(items[1..]) && Without(items[1..], k)
    ensures items[0] != Open(k) && items[0] != Close(k)
  {
  }

  lemma NoneAgain(g: Given, k: nat, i: int, j: int, v: Groups)
    requires v.Valid() && 0 <= i <= |g.t| && k < NBRA
    ensures AllOk([]) && AllOk([] + Tail(k)) && ThenAgain(g, [], k, i, j, v)
  {
    hide Twice, Tail;
    TailOk([], k);
    assert [] + Tail(k) == Tail(k);
    TailMeans(g, k, i, j, v);
  }

  lemma RepeatAgain(g: Given, items: seq<Item>, k: nat, i: int, j: int, v: Groups)
    requires v.Valid() && 0 <= i <= |g.t| && items != [] && (items[0].Star? || items[0].Range?) && k < NBRA
    requires AllOk(items) && AllOk(items + Tail(k)) && AllOk(items[1..]) && AllOk(items[1..] + Tail(k))
    requires forall m | 0 <= m <= |g.t| :: ThenAgain(g, items[1..], k, m, j, v)
    ensures ThenAgain(g, items, k, i, j, v)
  {
    hide MayEnd, High, Low, AllOk, Twice, Tail;
    var y, rest := items[0], items[1..];
    assert (items + Tail(k))[0] == y && (items + Tail(k))[1..] == rest + Tail(k);
    RepeatIn(g, items, i, v);
    RepeatIn(g, items + Tail(k), i, v);
    hide In;
    if In(g, items + Tail(k), i, j, v) {
      var m :| 0 <= m <= |g.t| && MayEnd(g, y.u, Low(y), High(g, y), i, m) && In(g, rest + Tail(k), m, j, v);
      assert ThenAgain(g, rest, k, m, j, v);
      var e :| 0 <= e <= |g.t| && In(g, rest, m, e, v) && Twice(g.t, v.bra[k], e, j);
      assert In(g, items, i, e, v);
    }
    if e :| 0 <= e <= |g.t| && In(g, items, i, e, v) && Twice(g.t, v.bra[k], e, j) {
      var m :| 0 <= m <= |g.t| && MayEnd(g, y.u, Low(y), High(g, y), i, m) && In(g, rest, m, e, v);
      assert ThenAgain(g, rest, k, m, j, v);
      assert In(g, rest + Tail(k), m, j, v);
    }
  }

  /** A group with a reference to it right behind: some text that the group matches, twice. */
  lemma GroupTwice(g: Given, items: seq<Item>, k: nat, i: int, j: int, v: Groups)
    requires v.Valid() && 0 <= i <= |g.t| && AllOk(items) && Without(items, k) && k < NBRA
    ensures AllOk([Open(k)] + (items + [Close(k), Back(k)]))
    ensures In(g, [Open(k)] + (items + [Close(k), Back(k)]), i, j, v) <==>
      exists e | 0 <= e <= |g.t| :: In(g, items, i, e, v.(bra := v.bra[k := i])) && Twice(g.t, i, e, j)
  {
    hide Twice, Without;
    var w := v.(bra := v.bra[k := i]);
    TailOk(items, k);
    GroupAgain(g, items, k, i, j, w);
    assert ([Open(k)] + (items + Tail(k)))[1..] == items + Tail(k);
    assert w.bra[k] == i;
  }
}
