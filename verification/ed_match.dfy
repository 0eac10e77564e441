/** advance and step of regexp.h: the code is run against a text, with backtracking. */
module EdMatch {
  import opened EdPattern
  import opened EdCode

  /** Groups are opened once, closed once after that, and referred to after they are closed. */
  predicate Formed(items: seq<Item>, begun: set<nat>, done: set<nat>) {
    if items == [] then true
    else
      match items[0]
      case Open(k) => k !in begun && Formed(items[1..], begun + {k}, done)
      case Close(k) => k in begun && k !in done && Formed(items[1..], begun, done + {k})
      case Back(k) => k in done && Formed(items[1..], begun, done)
      case _ => Formed(items[1..], begun, done)
  }

  /** The groups met so far lie within the text up to i. */
  predicate Met(v: Groups, begun: set<nat>, done: set<nat>, i: int) {
    && v.Valid() && done <= begun && (forall k | k in begun :: k < NBRA && 0 <= v.bra[k] <= i)
    && forall k | k in done :: k < NBRA && v.bra[k] <= v.ket[k] <= i
  }

  /** v and w have the groups met so far at the same places. */
  predicate Agree(v: Groups, w: Groups, begun: set<nat>, done: set<nat>)
    requires v.Valid() && w.Valid()
  {
    && (forall k | k in begun && k < NBRA :: v.bra[k] == w.bra[k])
    && (forall k | k in done && k < NBRA :: v.ket[k] == w.ket[k])
  }

  /** Only the groups met so far count. */
  lemma {:induction false} BestAgrees(g: Given, items: seq<Item>, i: int, v: Groups, w: Groups, begun: set<nat>,
                                      done: set<nat>)
    requires v.Valid() && w.Valid() && 0 <= i <= |g.t| && AllOk(items) && Formed(items, begun, done) && done <= begun
    requires Agree(v, w, begun, done)
    ensures Best(g, items, i, v) == Best(g, items, i, w)
    decreases |items|, 0
  {
    hide Agree, Again, AllHit, Farthest, Hits;
    if items != [] {
      var x, rest := items[0], items[1..];
      match x
      case One(u) =>
        if i < |g.t| {
          BestAgrees(g, rest, i + 1, v, w, begun, done);
        }
      case Dol => BestAgrees(g, rest, i, v, w, begun, done);
      case Open(k) =>
        AgreeOpen(v, w, begun, done, k, i);
        BestAgrees(g, rest, i, v.(bra := v.bra[k := i]), w.(bra := w.bra[k := i]), begun + {k}, done);
      case Close(k) =>
        AgreeClose(v, w, begun, done, k, i);
        BestAgrees(g, rest, i, v.(ket := v.ket[k := i]), w.(ket := w.ket[k := i]), begun, done + {k});
      case Back(k) =>
        AgreeBack(g.t, v, w, begun, done, k, i);
        if Again(g.t, v, k, i) {
          BestAgrees(g, rest, i + (v.ket[k] - v.bra[k]), v, w, begun, done);
        }
      case _ =>
        if Farthest(g, x, i) >= i + Low(x) {
          FarthestWithin(g, x, i);
          BestDownAgrees(g, rest, Farthest(g, x, i), i + Low(x), v, w, begun, done);
        }
    }
  }

  lemma AgreeOpen(v: Groups, w: Groups, begun: set<nat>, done: set<nat>, k: nat, i: int)
    requires v.Valid() && w.Valid() && Agree(v, w, begun, done) && k < NBRA
    ensures Agree(v.(bra := v.bra[k := i]), w.(bra := w.bra[k := i]), begun + {k}, done)
  {
  }

  lemma AgreeClose(v: Groups, w: Groups, begun: set<nat>, done: set<nat>, k: nat, i: int)
    requires v.Valid() && w.Valid() && Agree(v, w, begun, done) && k < NBRA
    ensures Agree(v.(ket := v.ket[k := i]), w.(ket := w.ket[k := i]), begun, done + {k})
  {
  }

  lemma AgreeBack(t: seq<int>, v: Groups, w: Groups, begun: set<nat>, done: set<nat>, k: nat, i: int)
    requires v.Valid() && w.Valid() && Agree(v, w, begun, done)
    requires k < NBRA && k in done && done <= begun && 0 <= i <= |t|
    ensures v.bra[k] == w.bra[k] && v.ket[k] == w.ket[k] && (Again(t, v, k, i) <==> Again(t, w, k, i))
    ensures Again(t, v, k, i) ==> 0 <= i + (v.ket[k] - v.bra[k]) <= |t|
  {
  }

  lemma {:induction false} BestDownAgrees(g: Given, rest: seq<Item>, e: int, low: int, v: Groups, w: Groups,
                                          begun: set<nat>, done: set<nat>)
    requires v.Valid() && w.Valid() && 0 <= low <= e <= |g.t|
    requires AllOk(rest) && Formed(rest, begun, done) && done <= begun
    requires Agree(v, w, begun, done)
    ensures BestDown(g, rest, e, low, v) == BestDown(g, rest, e, low, w)
    decreases |rest|, 1, e
  {
    hide Best, Formed, Agree;
    BestAgrees(g, rest, e, v, w, begun, done);
    if e > low {
      BestDownAgrees(g, rest, e - 1, low, v, w, begun, done);
    }
  }

  lemma RunIs(u: Unit, t: seq<int>, i: int, e: int)
    requires AllHit(u, t, i, e) && (e < |t| ==> !Hits(u, t[e]))
    ensures Run(u, t, i) == e
  {
    var r := Run(u, t, i);
  }

  class Matcher {
    const text: seq<int>
    const code: seq<int>
    const locs: int        // where no repetition may end; no position of the text if it is not set
    const unsigned: bool   // whether characters are
    const bra: array<int>
    const ket: array<int>
    var low: int
    var size: int
    var loc1: int
    var loc2: int

    constructor (text: seq<int>, code: seq<int>, locs: int, unsigned: bool)
      requires 0 !in text
      ensures this.text == text && this.code == code && this.locs == locs && this.unsigned == unsigned
      ensures Wired() && fresh(bra) && fresh(ket)
    {
      this.text, this.code, this.locs, this.unsigned := text, code, locs, unsigned;
      bra := new int[NBRA];
      ket := new int[NBRA];
      low, size, loc1, loc2 := 0, 0, 0, 0;
    }

    ghost function G(): Given {
      Given(text, locs, unsigned)
    }

    ghost predicate Wired() {
      bra != ket && bra.Length == NBRA && ket.Length == NBRA && 0 !in text
    }

    ghost function V(): (v: Groups)
      requires Wired()
      reads bra, ket
      ensures v.Valid()
    {
      Groups(bra[..], ket[..])
    }

    /** The operand of u is at ep. */
    ghost predicate OperandAt(u: Unit, ep: nat) {
      UnitOk(u) && ep + Width(Op(u)) <= |code| && code[ep..ep + Width(Op(u))] == Operand(u)
    }

    /** Steps over what fits, and one more. */
    method SkipAll(op: int, ep: nat, lp0: nat, ghost u: Unit) returns (lp: nat)
      requires Wired() && lp0 <= |text| && OperandAt(u, ep) && op == Op(u)
      ensures lp == Run(u, text, lp0) + 1
    {
      hide Fits, Operand, Run;
      lp := lp0;
      while true
        invariant lp <= |text| && AllHit(u, text, lp0, lp)
        decreases |text| - lp
      {
        var c := At(text, lp);
        FitsHits(code, u, ep, c);
        lp := lp + 1;
        if !Fits(code, op, ep, c) {
          break;
        }
        HitsText(u, lp - 1);
      }
      RunIs(u, text, lp0, lp - 1);
    }

    /** Only characters of the text are hit. */
    lemma HitsText(u: Unit, i: nat)
      requires UnitOk(u) && i <= |text| && Hits(u, At(text, i))
      ensures i < |text|
    {
    }

    /** getrnge: the bounds at ep. */
    method Getrnge(ep: nat)
      requires ep + 1 < |code|
      modifies this`low, this`size
      ensures low == code[ep] && size == Most(code[ep], code[ep + 1], unsigned) - code[ep]
    {
      low := code[ep];
      size := if unsigned && code[ep + 1] == 255 then 20000 else code[ep + 1] - low;
    }

    /** Steps over as many as there must be. */
    method SkipLow(op: int, ep: nat, lp0: nat, ghost u: Unit) returns (ok: bool, lp: nat)
      requires Wired() && lp0 <= |text| && OperandAt(u, ep) && op == Op(u) && low >= 0
      modifies this`low
      ensures ok == (Run(u, text, lp0) >= lp0 + old(low))
      ensures ok ==> lp == lp0 + old(low) && AllHit(u, text, lp0, lp)
    {
      hide Fits, Operand, Run;
      lp := lp0;
      while low != 0
        invariant 0 <= low <= old(low) && lp == lp0 + old(low) - low && AllHit(u, text, lp0, lp)
        decreases low
      {
        low := low - 1;
        var c := At(text, lp);
        FitsHits(code, u, ep, c);
        lp := lp + 1;
        if !Fits(code, op, ep, c) {
          RunIs(u, text, lp0, lp - 1);
          return false, lp;
        }
        HitsText(u, lp - 1);
      }
      low := low - 1;
      RunPast(u, lp0, lp);
      ok := true;
    }

    lemma RunPast(u: Unit, i: nat, e: nat)
      requires AllHit(u, text, i, e)
      ensures Run(u, text, i) >= e
    {
      var r := Run(u, text, i);
    }

    /** Steps over as many more as there may be, and one more. */
    method SkipSize(op: int, ep: nat, lp0: nat, curlp: nat, ghost u: Unit) returns (lp: nat)
      requires Wired() && lp0 <= curlp <= |text| && OperandAt(u, ep)
      requires op == Op(u) && size >= 0 && AllHit(u, text, lp0, curlp)
      modifies this`size
      ensures lp - 1 == if Run(u, text, lp0) > curlp + old(size) then curlp + old(size) else Run(u, text, lp0)
    {
      hide Fits, Operand, Run;
      lp := curlp;
      while true
        invariant 0 <= size <= old(size) && lp == curlp + old(size) - size && AllHit(u, text, lp0, lp)
        decreases size
      {
        var more := size != 0;
        size := size - 1;
        if !more {
          RunPast(u, lp0, lp);
          break;
        }
        var c := At(text, lp);
        FitsHits(code, u, ep, c);
        lp := lp + 1;
        if !Fits(code, op, ep, c) {
          RunIs(u, text, lp0, lp - 1);
          break;
        }
        HitsText(u, lp - 1);
      }
      if size < 0 {
        lp := lp + 1;
      }
    }

    /** A bounded repetition: fails where there are too few. */
    method SkipRange(op: int, ep: nat, lp0: nat, ghost x: Item) returns (ok: bool, curlp: nat, lp: nat)
      requires Wired() && lp0 <= |text| && x.Range? && ItemOk(x) && OperandAt(x.u, ep) && op == Op(x.u)
      requires ep + Width(op) + 1 < |code| && code[ep + Width(op)] == x.lo && code[ep + Width(op) + 1] == x.hi
      modifies this`low, this`size
      ensures ok == (Farthest(G(), x, lp0) >= lp0 + x.lo)
      ensures ok ==> curlp == lp0 + x.lo <= |text| && lp == Farthest(G(), x, lp0) + 1
    {
      hide Run, OperandAt;
      lp := 0;
      Getrnge(ep + Width(op));
      ok, curlp := SkipLow(op, ep, lp0, x.u);
      if ok {
        lp := SkipSize(op, ep, lp0, curlp, x.u);
      }
    }

    /** The code from ep on is that of the items. */
    ghost predicate CodeAt(ep: nat, items: seq<Item>) {
      ep <= |code| && code[ep..] == Encode(items) && AllOk(items)
    }

    /** What the byte at ep says about the first of the items. */
    lemma Decode(ep: nat, items: seq<Item>)
      requires CodeAt(ep, items)
      ensures ep < |code| && (items == [] <==> code[ep] == CCEOF)
      ensures items != [] ==> ItemOk(items[0]) && AllOk(items[1..])
      ensures items != [] && items[0].One? ==>
        code[ep] == Op(items[0].u) && OperandAt(items[0].u, ep + 1) &&
          CodeAt(ep + 1 + Width(Op(items[0].u)), items[1..])
      ensures items != [] && items[0].Star? ==>
        code[ep] == Op(items[0].u) + STAR && OperandAt(items[0].u, ep + 1) &&
          CodeAt(ep + 1 + Width(Op(items[0].u)), items[1..])
      ensures items != [] && items[0].Range? ==>
        var u, w := items[0].u, ep + 1 + Width(Op(items[0].u));
        && code[ep] == Op(u) + RNGE && OperandAt(u, ep + 1) && w + 1 < |code|
        && code[w] == items[0].lo && code[w + 1] == items[0].hi && CodeAt(w + 2, items[1..])
      ensures items != [] && items[0].Dol? ==> code[ep] == CDOL && CodeAt(ep + 1, items[1..])
      ensures items != [] && (items[0].Open? || items[0].Close? || items[0].Back?) ==>
        ep + 1 < |code| && code[ep + 1] == items[0].k && CodeAt(ep + 2, items[1..]) &&
        code[ep] == if items[0].Open? then CBRA else if items[0].Close? then CKET else CBACK
    {
      hide Encode, Operand, UnitOk;
      if items == [] {
        EncodeHead(items);
      } else {
        var x, c := items[0], Code(items[0]);
        EncodeHead(items);
        Pieces(ep, c, Encode(items[1..]));
        if x.One? || x.Star? || x.Range? {
          OperandSize(x.u);
          Slice(ep, c, Operand(x.u));
        }
      }
    }

    lemma EncodeHead(items: seq<Item>)
      ensures items == [] ==> Encode(items) == [CCEOF]
      ensures items != [] ==> Encode(items) == Code(items[0]) + Encode(items[1..])
    {
    }

    lemma OperandSize(u: Unit)
      ensures |Operand(u)| == Width(Op(u))
    {
    }

    lemma Pieces(ep: nat, c: seq<int>, rest: seq<int>)
      requires ep <= |code| && code[ep..] == c + rest
      ensures ep + |c| <= |code| && code[ep + |c|..] == rest && code[ep..ep + |c|] == c
      ensures forall k | ep <= k < ep + |c| :: code[k] == c[k - ep]
    {
      forall k | ep <= k < ep + |c| ensures code[k] == c[k - ep] {
        assert code[k] == code[ep..][k - ep];
      }
    }

    lemma Slice(ep: nat, c: seq<int>, o: seq<int>)
      requires ep + |c| <= |code| && code[ep..ep + |c|] == c && |o| < |c| && c[1..1 + |o|] == o
      ensures code[ep + 1..ep + 1 + |o|] == o
    {
      forall k | 0 <= k < |o| ensures code[ep + 1 + k] == o[k] {
        assert code[ep..ep + |c|][1 + k] == c[1..1 + |o|][k];
      }
    }

    /** strncmp of n characters. */
    method Ecmp(b: nat, l: nat, n: nat) returns (same: bool)
      requires Wired() && b + n <= |text| && l <= |text|
      ensures same <==> l + n <= |text| && text[l..l + n] == text[b..b + n]
    {
      var m := 0;
      while m < n && At(text, b + m) == At(text, l + m)
        invariant m <= n && l + m <= |text| && text[l..l + m] == text[b..b + m]
      {
        assert text[b + m] != 0;
        assert text[l..l + m + 1] == text[l..l + m] + [text[l + m]];
        assert text[b..b + m + 1] == text[b..b + m] + [text[b + m]];
        m := m + 1;
      }
      same := m == n;
      if !same && l + n <= |text| {
        assert text[l..l + n][m] != text[b..b + n][m];
      }
    }

    /** All that holds when the code at ep is about to be run against the text at lp. */
    ghost predicate Poised(lp: int, ep: nat, items: seq<Item>, begun: set<nat>, done: set<nat>)
      reads bra, ket
    {
      Wired() && 0 <= lp <= |text| && CodeAt(ep, items) && Formed(items, begun, done) && Met(V(), begun, done, lp)
    }

    /** Runs the code from ep0 on against the text from lp0 on. */
    method Advance(lp0: nat, ep0: nat, ghost items: seq<Item>, ghost begun: set<nat>, ghost done: set<nat>)
      returns (r: bool)
      requires Poised(lp0, ep0, items, begun, done)
      modifies this`low, this`size, this`loc2, bra, ket
      ensures Agree(V(), old(V()), begun, done)
      ensures var b := Best(G(), items, lp0, old(V())); r == b.Some? && (r ==> loc2 == b.value)
      decreases |items|, 2
    {
      hide *;
      PoisedFacts(lp0, ep0, items, begun, done);
      ghost var rest, b, d, v := items, begun, done, V();
      var lp, ep := lp0, ep0;
      AgreeSelf(v, b, d);
      while true
        invariant Poised(lp, ep, rest, b, d) && |rest| <= |items| && begun <= b && done <= d
        invariant 0 <= lp <= |text| && AllOk(rest) && Agree(V(), v, begun, done)
        invariant Best(G(), rest, lp, V()) == Best(G(), items, lp0, v)
        decreases |rest|
      {
        PoisedFacts(lp, ep, rest, b, d);
        ghost var w := V();
        if code[ep] == CCEOF {
          BestDone(rest, lp);
          loc2 := lp;
          return true;
        }
        if !IsOnce(code[ep]) {
          r := Repeated(lp, ep, rest, b, d);
          AgreeLess(V(), w, v, begun, done, b, d);
          return;
        }
        var lp', ep';
        ghost var b', d';
        r, lp', ep', b', d' := Once(lp, ep, rest, b, d);
        AgreeLess(V(), w, v, begun, done, b, d);
        if !r {
          return;
        }
        lp, ep, rest, b, d := lp', ep', rest[1..], b', d';
      }
    }

    /** Whether op is no repetition. */
    predicate IsOnce(op: int) {
      op in {CCHR, CDOT, CCL, CDOL, CBRA, CKET, CBACK}
    }

    lemma PoisedFacts(lp: int, ep: nat, items: seq<Item>, begun: set<nat>, done: set<nat>)
      requires Poised(lp, ep, items, begun, done)
      ensures Wired() && 0 <= lp <= |text| && G().t == text && AllOk(items) && CodeAt(ep, items)
      ensures ep < |code| && (items == [] <==> code[ep] == CCEOF)
      ensures items != [] ==> (IsOnce(code[ep]) <==> !items[0].Star? && !items[0].Range?)
    {
      hide Encode, OperandAt, Formed, Met;
      Decode(ep, items);
    }

    lemma AgreeSelf(v: Groups, begun: set<nat>, done: set<nat>)
      requires v.Valid()
      ensures Agree(v, v, begun, done)
    {
    }

    lemma AgreeLess(u: Groups, w: Groups, v: Groups, begun: set<nat>, done: set<nat>, b: set<nat>, d: set<nat>)
      requires u.Valid() && w.Valid() && v.Valid() && begun <= b
      requires done <= d && Agree(u, w, b, d) && Agree(w, v, begun, done)
      ensures Agree(u, v, begun, done)
    {
    }

    lemma BestDone(items: seq<Item>, i: int)
      requires items == [] && 0 <= i <= |text| && Wired()
      ensures Best(G(), items, i, V()) == Some(i)
    {
    }

    /** Runs one item that is no repetition. */
    method Once(lp0: nat, ep0: nat, ghost items: seq<Item>, ghost begun: set<nat>, ghost done: set<nat>)
      returns (ok: bool, lp: nat, ep: nat, ghost b: set<nat>, ghost d: set<nat>)
      requires Poised(lp0, ep0, items, begun, done) && items != [] && !items[0].Star? && !items[0].Range?
      modifies bra, ket
      ensures Agree(V(), old(V()), begun, done) && AllOk(items) && lp0 <= |text|
      ensures ok ==> Poised(lp, ep, items[1..], b, d) && begun <= b && done <= d && lp <= |text| && AllOk(items[1..])
      ensures ok ==> Best(G(), items[1..], lp, V()) == Best(G(), items, lp0, old(V()))
      ensures !ok ==> Best(G(), items, lp0, old(V())).None?
    {
      hide Encode, OperandAt, Formed, Best, Fits, AllOk, UnitOk, Hits, Operand;
      ghost var x, rest, v := items[0], items[1..], V();
      Decode(ep0, items);
      OnceFormed(items, begun, done);
      OnceBest(items, lp0, v);
      b, d := begun, done;
      var op := code[ep0];
      ok, lp, ep := true, lp0, ep0 + 1;
      if op == CCHR || op == CDOT || op == CCL {
        ok := Fits(code, op, ep, At(text, lp));
        UnitWithin(x.u, ep, lp);
        lp, ep := lp + 1, ep + Width(op);
      } else if op == CDOL {
        ok := At(text, lp) == 0;
      } else if op == CBRA {
        bra[code[ep]] := lp;
        assert V() == v.(bra := v.bra[x.k := lp]);
        b := begun + {x.k};
        ep := ep + 1;
      } else if op == CKET {
        ket[code[ep]] := lp;
        assert V() == v.(ket := v.ket[x.k := lp]);
        d := done + {x.k};
        ep := ep + 1;
      } else {
        var bbeg := bra[code[ep]];
        var ct := ket[code[ep]] - bbeg;
        ok := Ecmp(bbeg, lp, ct);
        lp, ep := lp + ct, ep + 1;
      }
    }

    lemma UnitWithin(u: Unit, ep: nat, i: nat)
      requires Wired() && OperandAt(u, ep) && i <= |text|
      ensures Fits(code, Op(u), ep, At(text, i)) <==> i < |text| && Hits(u, text[i])
    {
      FitsHits(code, u, ep, At(text, i));
    }

    lemma OnceFormed(items: seq<Item>, begun: set<nat>, done: set<nat>)
      requires items != [] && Formed(items, begun, done) && !items[0].Star? && !items[0].Range?
      ensures items[0].One? || items[0].Dol? ==> Formed(items[1..], begun, done)
      ensures items[0].Open? ==> items[0].k !in begun && Formed(items[1..], begun + {items[0].k}, done)
      ensures items[0].Close? ==>
        items[0].k in begun && items[0].k !in done && Formed(items[1..], begun, done + {items[0].k})
      ensures items[0].Back? ==> items[0].k in done && Formed(items[1..], begun, done)
    {
    }

    lemma OnceBest(items: seq<Item>, i: nat, v: Groups)
      requires items != [] && AllOk(items) && v.Valid() && i <= |text| && !items[0].Star? && !items[0].Range?
      ensures AllOk(items[1..]) && ItemOk(items[0])
      ensures var x, b := items[0], Best(G(), items, i, v);
        match x
        case One(u) => b == if i < |text| && Hits(u, text[i]) then Best(G(), items[1..], i + 1, v) else None
        case Open(k) => b == Best(G(), items[1..], i, v.(bra := v.bra[k := i]))
        case Close(k) => b == Best(G(), items[1..], i, v.(ket := v.ket[k := i]))
        case Back(k) => b == if Again(text, v, k, i) then Best(G(), items[1..], i + (v.ket[k] - v.bra[k]), v) else None
        case Dol => b == if i == |text| then Best(G(), items[1..], i, v) else None
        case _ => true
    {
    }

    /** Runs a repetition and what comes after it. */
    method Repeated(lp0: nat, ep0: nat, ghost items: seq<Item>, ghost begun: set<nat>, ghost done: set<nat>)
      returns (r: bool)
      requires Poised(lp0, ep0, items, begun, done) && items != [] && (items[0].Star? || items[0].Range?)
      modifies this`low, this`size, this`loc2, bra, ket
      ensures Agree(V(), old(V()), begun, done) && AllOk(items) && lp0 <= |text|
      ensures var b := Best(G(), items, lp0, old(V())); r == b.Some? && (r ==> loc2 == b.value)
      decreases |items|, 1
    {
      hide Encode, OperandAt, Formed, Best, BestDown, AllOk, UnitOk, Operand, Agree, Farthest;
      ghost var x, rest, v := items[0], items[1..], V();
      Decode(ep0, items);
      RepeatBest(items, lp0, v, begun, done);
      AgreeSelf(v, begun, done);
      var op, ep := code[ep0], ep0 + 1;
      var curlp, lp := lp0, lp0;
      if op == CCHR + RNGE || op == CDOT + RNGE || op == CCL + RNGE {
        op := op - RNGE;
        var ok;
        ok, curlp, lp := SkipRange(op, ep, lp0, x);
        if !ok {
          return false;
        }
        ep := ep + Width(op) + 2;
      } else {
        op := op - STAR;
        lp := SkipAll(op, ep, lp0, x.u);
        ep := ep + Width(op);
      }
      r := TryDown(lp, curlp, ep, rest, begun, done);
    }

    lemma RepeatBest(items: seq<Item>, i: nat, v: Groups, begun: set<nat>, done: set<nat>)
      requires items != [] && AllOk(items) && Formed(items, begun, done)
      requires v.Valid() && i <= |text| && (items[0].Star? || items[0].Range?)
      ensures AllOk(items[1..]) && ItemOk(items[0]) && Formed(items[1..], begun, done)
      ensures var x, rest := items[0], items[1..];
        var far := Farthest(G(), x, i);
        far <= |text| && (x.Star? ==> far == Run(x.u, text, i)) &&
        Best(G(), items, i, v) == if far < i + Low(x) then None else BestDown(G(), rest, far, i + Low(x), v)
    {
    }

    /** Tries the ends of a repetition, the farthest first. */
    method TryDown(lp0: nat, curlp: nat, ep: nat, ghost rest: seq<Item>, ghost begun: set<nat>, ghost done: set<nat>)
      returns (r: bool)
      requires Poised(curlp, ep, rest, begun, done) && curlp < lp0 <= |text| + 1
      modifies this`low, this`size, this`loc2, bra, ket
      ensures Agree(V(), old(V()), begun, done) && AllOk(rest)
      ensures var b := BestDown(G(), rest, lp0 - 1, curlp, old(V())); r == b.Some? && (r ==> loc2 == b.value)
      decreases |rest|, 3
    {
      hide *;
      PoisedFacts(curlp, ep, rest, begun, done);
      ghost var v := V();
      var lp := lp0;
      AgreeSelf(v, begun, done);
      while true
        invariant curlp < lp <= lp0 && Agree(V(), v, begun, done) && Poised(curlp, ep, rest, begun, done)
        invariant BestDown(G(), rest, lp0 - 1, curlp, v) == BestDown(G(), rest, lp - 1, curlp, v)
        decreases lp
      {
        lp := lp - 1;
        DownStep(rest, lp, curlp, v);
        if lp == locs {
          return false;
        }
        PoisedLater(curlp, lp, ep, rest, v, begun, done);
        ghost var w := V();
        r := Advance(lp, ep, rest, begun, done);
        PoisedAgain(curlp, lp, ep, rest, w, v, begun, done);
        if r {
          return;
        }
        if lp <= curlp {
          return false;
        }
      }
    }

    lemma DownStep(rest: seq<Item>, e: int, low: int, v: Groups)
      requires v.Valid() && 0 <= low <= e <= |text| && AllOk(rest)
      ensures BestDown(G(), rest, e, low, v) ==
        if e == locs then None
        else if Best(G(), rest, e, v).Some? || e == low then Best(G(), rest, e, v)
        else BestDown(G(), rest, e - 1, low, v)
    {
    }

    /** Another try may begin further on, and finds the same as it would have at first. */
    lemma PoisedLater(i: nat, i': nat, ep: nat, rest: seq<Item>, v: Groups, begun: set<nat>, done: set<nat>)
      requires Poised(i, ep, rest, begun, done) && i <= i' <= |text| && v.Valid() && Agree(V(), v, begun, done)
      ensures Poised(i', ep, rest, begun, done) && AllOk(rest) && Best(G(), rest, i', V()) == Best(G(), rest, i', v)
      ensures Met(V(), begun, done, i) && Formed(rest, begun, done) && CodeAt(ep, rest)
    {
      hide Encode, Formed, Best, AllOk;
      BestAgrees(G(), rest, i', V(), v, begun, done);
    }

    lemma PoisedAgain(i: nat, i': nat, ep: nat, rest: seq<Item>, w: Groups, v: Groups, begun: set<nat>, done: set<nat>)
      requires Wired() && CodeAt(ep, rest) && Formed(rest, begun, done) && i <= i' <= |text| && Met(w, begun, done, i)
      requires w.Valid() && v.Valid() && Agree(V(), w, begun, done) && Agree(w, v, begun, done)
      ensures Poised(i, ep, rest, begun, done) && Agree(V(), v, begun, done)
    {
      hide Encode, Formed, AllOk;
    }

    /** The pattern matches the text from i to j. */
    ghost predicate Matches(items: seq<Item>, i: int, j: int)
      requires AllOk(items) && 0 <= i <= |text|
    {
      In(G(), items, i, j, NoGroups())
    }

    /** A match may begin at i. */
    predicate Begins(p1: nat, circf: bool, i: int) {
      p1 <= i <= |text| && (circf ==> i == p1)
    }

    /** No match begins at i. */
    ghost predicate Fails(items: seq<Item>, i: int)
      requires AllOk(items) && 0 <= i <= |text|
    {
      forall j :: !Matches(items, i, j)
    }

    /** One try, from p. */
    method Try(p: nat, ghost items: seq<Item>) returns (r: bool)
      requires Wired() && p <= |text| && CodeAt(0, items) && Formed(items, {}, {})
      modifies this`low, this`size, this`loc2, bra, ket
      ensures r ==> Matches(items, p, loc2) && Best(G(), items, p, NoGroups()) == Some(loc2)
      ensures !r ==> Fails(items, p)
    {
      hide Encode, Formed, Best, In, AllOk;
      BestAgrees(G(), items, p, V(), NoGroups(), {}, {});
      BestIsMatch(G(), items, p, NoGroups());
      r := Advance(p, 0, items, {}, {});
    }

    /** Looks for the first match at or after p1, or, if the pattern began with a circumflex, for
        one at p1. */
    method Step(p1: nat, circf: bool, ghost items: seq<Item>) returns (r: bool)
      requires Wired() && p1 <= |text| && CodeAt(0, items) && Formed(items, {}, {})
      modifies this, bra, ket
      ensures r <==> exists i, j :: Begins(p1, circf, i) && Matches(items, i, j)
      ensures r ==> Begins(p1, circf, loc1) && Matches(items, loc1, loc2)
      ensures r ==> Best(G(), items, loc1, NoGroups()) == Some(loc2)
      ensures r ==> forall i | p1 <= i < loc1 :: Fails(items, i)
    {
      hide Encode, Formed, Best, In, AllOk, Matches;
      if circf {
        loc1 := p1;
        r := Try(p1, items);
        return;
      }
      Decode(0, items);
      var p := p1;
      if code[0] == CCHR {
        var c := code[1];
        while true
          invariant p1 <= p <= |text| && forall i | p1 <= i < p :: Fails(items, i)
          decreases |text| - p
        {
          if At(text, p) == c {
            r := Try(p, items);
            if r {
              loc1 := p;
              return;
            }
          } else {
            FirstMisses(items, p);
          }
          if At(text, p) == 0 {
            AllFail(items, p1, circf);
            return false;
          }
          p := p + 1;
        }
      }
      while true
        invariant p1 <= p <= |text| && forall i | p1 <= i < p :: Fails(items, i)
        decreases |text| - p
      {
        r := Try(p, items);
        if r {
          loc1 := p;
          return;
        }
        if At(text, p) == 0 {
          AllFail(items, p1, circf);
          return false;
        }
        p := p + 1;
      }
    }

    lemma AllFail(items: seq<Item>, p1: nat, circf: bool)
      requires AllOk(items) && forall i | p1 <= i <= |text| :: Fails(items, i)
      ensures !exists i, j :: Begins(p1, circf, i) && Matches(items, i, j)
    {
      hide Matches;
      forall i, j | Begins(p1, circf, i)
        ensures !Matches(items, i, j)
      {
        assert Fails(items, i);
      }
    }

    /** Where the first character is not the one the pattern begins with, no match begins. */
    lemma FirstMisses(items: seq<Item>, i: nat)
      requires Wired() && i <= |text| && CodeAt(0, items) && code[0] == CCHR && 1 < |code| && At(text, i) != code[1]
      ensures Fails(items, i)
    {
      hide Encode;
      Decode(0, items);
    }
  }
}
