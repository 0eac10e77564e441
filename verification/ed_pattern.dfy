/** The patterns of regexp.h: what they match, and the byte code they compile to. */
module EdPattern {
  const CBRA := 2
  const CCHR := 4
  const CDOT := 8
  const CCL := 12
  const CDOL := 20
  const CCEOF := 22
  const CKET := 24
  const CBACK := 36
  const STAR := 1
  const RNGE := 3
  const NBRA := 9

  datatype Option<T> = None | Some(value: T)

  /** What a single character may be. */
  datatype Unit = Char(c: int) | Dot | Class(s: set<int>)

  /** \{lo,hi\} has its bounds as bytes. */
  datatype Item =
    | One(u: Unit)
    | Star(u: Unit)
    | Range(u: Unit, lo: int, hi: int)
    | Dol
    | Open(k: nat)
    | Close(k: nat)
    | Back(k: nat)

  /** A character a unit matches; NUL, the end of the text, is matched by none. */
  predicate Hits(u: Unit, c: int) {
    match u
    case Char(x) => c == x
    case Dot => c != 0
    case Class(s) => c % 128 in s
  }

  predicate UnitOk(u: Unit) {
    match u
    case Char(x) => x != 0
    case Dot => true
    case Class(s) => forall c | c in s :: 0 < c < 128
  }

  /** What the compiler makes sure of. */
  predicate ItemOk(x: Item) {
    match x
    case One(u) => UnitOk(u)
    case Star(u) => UnitOk(u)
    case Range(u, lo, hi) => UnitOk(u) && 0 <= lo <= hi <= 255
    case Dol => true
    case Open(k) => k < NBRA
    case Close(k) => k < NBRA
    case Back(k) => k < NBRA
  }

  predicate AllOk(items: seq<Item>) {
    items == [] || (ItemOk(items[0]) && AllOk(items[1..]))
  }

  /** The upper bound 255 stands for 20000 more than the lower, where characters are unsigned. */
  function Most(lo: int, hi: int, unsigned: bool): int {
    if unsigned && hi == 255 then lo + 20000 else hi
  }

  // A text is a C string without its NUL.

  function At(t: seq<int>, i: int): int
    requires 0 <= i <= |t|
  {
    if i < |t| then t[i] else 0
  }

  predicate AllHit(u: Unit, t: seq<int>, i: int, e: int) {
    0 <= i <= e <= |t| && forall k | i <= k < e :: Hits(u, t[k])
  }

  /** Where the groups begin and end. */
  datatype Groups = Groups(bra: seq<int>, ket: seq<int>) {
    predicate Valid() {
      |bra| == NBRA && |ket| == NBRA
    }
  }

  /** No group has been met. */
  function NoGroups(): (v: Groups)
    ensures v.Valid()
  {
    Groups(seq(NBRA, _ => 0), seq(NBRA, _ => 0))
  }

  /** The fixed things of a match. */
  datatype Given = Given(t: seq<int>, locs: int, unsigned: bool)

  predicate Repeats(g: Given, u: Unit, lo: int, hi: int, i: int, e: int) {
    AllHit(u, g.t, i, e) && lo <= e - i <= hi
  }

  /** A repetition of u from i may end at e: as often as it must, not oftener than it may, and not
      at locs, nor before it when it could end there. */
  predicate MayEnd(g: Given, u: Unit, lo: int, hi: int, i: int, e: int) {
    Repeats(g, u, lo, hi, i, e) && !(Repeats(g, u, lo, hi, i, g.locs) && e <= g.locs)
  }

  function Low(x: Item): int {
    if x.Range? then x.lo else 0
  }

  function High(g: Given, x: Item): int {
    if x.Range? then Most(x.lo, x.hi, g.unsigned) else |g.t|
  }

  /** The text of group k comes again at i. */
  predicate Again(t: seq<int>, v: Groups, k: nat, i: int)
    requires v.Valid() && k < NBRA && 0 <= i <= |t|
  {
    && 0 <= v.bra[k] <= v.ket[k] <= |t| && i + (v.ket[k] - v.bra[k]) <= |t|
    && t[i..i + (v.ket[k] - v.bra[k])] == t[v.bra[k]..v.ket[k]]
  }

  /** The items match the text from i to j, the groups already met being v. */
  ghost predicate In(g: Given, items: seq<Item>, i: int, j: int, v: Groups)
    requires v.Valid() && 0 <= i <= |g.t| && AllOk(items)
  {
    if items == [] then j == i
    else
      var x, rest := items[0], items[1..];
      match x
      case One(u) => i < |g.t| && Hits(u, g.t[i]) && In(g, rest, i + 1, j, v)
      case Dol => i == |g.t| && In(g, rest, i, j, v)
      case Open(k) => In(g, rest, i, j, v.(bra := v.bra[k := i]))
      case Close(k) => In(g, rest, i, j, v.(ket := v.ket[k := i]))
      case Back(k) => Again(g.t, v, k, i) && In(g, rest, i + (v.ket[k] - v.bra[k]), j, v)
      case _ => exists e | 0 <= e <= |g.t| :: MayEnd(g, x.u, Low(x), High(g, x), i, e) && In(g, rest, e, j, v)
  }

  // The choice that is made when there are several.

  /** How far u can be repeated from i. */
  function Run(u: Unit, t: seq<int>, i: int): (e: int)
    requires 0 <= i <= |t|
    ensures AllHit(u, t, i, e) && (e < |t| ==> !Hits(u, t[e]))
    decreases |t| - i
  {
    if i < |t| && Hits(u, t[i]) then Run(u, t, i + 1) else i
  }

  /** The farthest end of a repetition. */
  function Farthest(g: Given, x: Item, i: int): int
    requires 0 <= i <= |g.t| && (x.Star? || x.Range?)
  {
    var r := Run(x.u, g.t, i);
    if r > i + High(g, x) then i + High(g, x) else r
  }

  /** Where the match that is chosen ends: every repetition in turn takes as much as lets the rest
      match. */
  function Best(g: Given, items: seq<Item>, i: int, v: Groups): Option<int>
    requires v.Valid() && 0 <= i <= |g.t| && AllOk(items)
    decreases |items|, 0
  {
    if items == [] then Some(i)
    else
      var x, rest := items[0], items[1..];
      match x
      case One(u) => if i < |g.t| && Hits(u, g.t[i]) then Best(g, rest, i + 1, v) else None
      case Dol => if i == |g.t| then Best(g, rest, i, v) else None
      case Open(k) => Best(g, rest, i, v.(bra := v.bra[k := i]))
      case Close(k) => Best(g, rest, i, v.(ket := v.ket[k := i]))
      case Back(k) => if Again(g.t, v, k, i) then Best(g, rest, i + (v.ket[k] - v.bra[k]), v) else None
      case _ =>
        if Farthest(g, x, i) < i + Low(x) then None
        else BestDown(g, rest, Farthest(g, x, i), i + Low(x), v)
  }

  /** The first success from e down to low, or to locs. */
  function BestDown(g: Given, rest: seq<Item>, e: int, low: int, v: Groups): Option<int>
    requires v.Valid() && 0 <= low <= e <= |g.t| && AllOk(rest)
    decreases |rest|, 1, e
  {
    if e == g.locs then None
    else
      var b := Best(g, rest, e, v);
      if b.Some? || e == low then b else BestDown(g, rest, e - 1, low, v)
  }

  /** The end that BestDown settles on is the farthest from which the rest matches. */
  lemma {:induction false} BestDownIsFarthest(g: Given, rest: seq<Item>, e: int, low: int, v: Groups) returns (m: int)
    requires v.Valid() && 0 <= low <= e <= |g.t| && AllOk(rest)
    ensures BestDown(g, rest, e, low, v).Some? ==>
      low <= m <= e && !(m <= g.locs <= e) && Best(g, rest, m, v) == BestDown(g, rest, e, low, v) &&
      forall m' | m < m' <= e :: Best(g, rest, m', v).None?
    ensures BestDown(g, rest, e, low, v).None? ==>
      forall m | low <= m <= e && !(m <= g.locs <= e) :: Best(g, rest, m, v).None?
    decreases e
  {
    hide Best;
    m := e;
    if e != g.locs && Best(g, rest, e, v).None? && e > low {
      m := BestDownIsFarthest(g, rest, e - 1, low, v);
    }
  }

  lemma EndsBetween(g: Given, x: Item, i: int, e: int)
    requires 0 <= i <= |g.t| && (x.Star? || x.Range?) && ItemOk(x)
    ensures Repeats(g, x.u, Low(x), High(g, x), i, e) <==> i + Low(x) <= e <= Farthest(g, x, i)
  {
    var r := Run(x.u, g.t, i);
    if e > r && AllHit(x.u, g.t, i, e) {
      assert false;
    }
  }

  lemma MayEndBetween(g: Given, x: Item, i: int, e: int)
    requires 0 <= i <= |g.t| && (x.Star? || x.Range?) && ItemOk(x)
    ensures MayEnd(g, x.u, Low(x), High(g, x), i, e) <==>
      i + Low(x) <= e <= Farthest(g, x, i) && !(e <= g.locs <= Farthest(g, x, i))
  {
    EndsBetween(g, x, i, e);
    EndsBetween(g, x, i, g.locs);
  }

  /** A match is chosen if and only if there is one, and what is chosen is one. */
  lemma {:induction false} BestIsMatch(g: Given, items: seq<Item>, i: int, v: Groups)
    requires v.Valid() && 0 <= i <= |g.t| && AllOk(items)
    ensures Best(g, items, i, v).Some? ==> In(g, items, i, Best(g, items, i, v).value, v)
    ensures Best(g, items, i, v).None? ==> forall j :: !In(g, items, i, j, v)
    decreases |items|
  {
    if items != [] {
      var x, rest := items[0], items[1..];
      match x
      case One(u) =>
        if i < |g.t| {
          BestIsMatch(g, rest, i + 1, v);
        }
      case Dol => BestIsMatch(g, rest, i, v);
      case Open(k) => BestIsMatch(g, rest, i, v.(bra := v.bra[k := i]));
      case Close(k) => BestIsMatch(g, rest, i, v.(ket := v.ket[k := i]));
      case Back(k) =>
        if Again(g.t, v, k, i) {
          BestIsMatch(g, rest, i + (v.ket[k] - v.bra[k]), v);
        }
      case _ => BestRepeats(g, items, i, v);
    }
  }

  lemma {:induction false} BestRepeats(g: Given, items: seq<Item>, i: int, v: Groups)
    requires v.Valid() && 0 <= i <= |g.t| && AllOk(items)
    requires items != [] && (items[0].Star? || items[0].Range?)
    ensures Best(g, items, i, v).Some? ==> In(g, items, i, Best(g, items, i, v).value, v)
    ensures Best(g, items, i, v).None? ==> forall j :: !In(g, items, i, j, v)
    decreases |items|, 0
  {
    hide MayEnd, Farthest, High, BestDown;
    var x, rest := items[0], items[1..];
    var far, low := Farthest(g, x, i), i + Low(x);
    forall e | 0 <= e <= |g.t|
      ensures MayEnd(g, x.u, Low(x), High(g, x), i, e) <==> low <= e <= far && !(e <= g.locs <= far)
      ensures Best(g, rest, e, v).Some? ==> In(g, rest, e, Best(g, rest, e, v).value, v)
      ensures Best(g, rest, e, v).None? ==> forall j :: !In(g, rest, e, j, v)
    {
      MayEndBetween(g, x, i, e);
      BestIsMatch(g, rest, e, v);
    }
    if far >= low {
      FarthestWithin(g, x, i);
      var m := BestDownIsFarthest(g, rest, far, low, v);
    }
  }

  lemma FarthestWithin(g: Given, x: Item, i: int)
    requires 0 <= i <= |g.t| && (x.Star? || x.Range?)
    ensures Farthest(g, x, i) <= |g.t|
  {
  }
}
