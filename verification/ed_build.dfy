/** The items that the tokens of a pattern build up, and that what is built is well formed. */
module EdBuild {
  import opened EdPattern
  import opened EdMatch
  import opened EdText

  predicate Ascii(t: seq<int>) {
    forall i | 0 <= i < |t| :: 0 < t[i] < 128
  }

  /** A token by itself is one that the compiler reads as such. */
  predicate TokOk(t: Token) {
    match t
    case Plain(c) => c !in {0, NEWLINE, STAR_CH, DOT_CH, LBRACK, BSLASH}
    case Quoted(c) => c !in {0, NEWLINE, LPAREN, RPAREN, LETTER_N} && !(ZERO + 1 <= c <= ZERO + 9)
    case ClassT(neg, body) => BodyOk(neg, body) && Ascii(body)
    case BackT(d) => 0 <= d < 9
    case ExactT(a) => Digits(a) && Number(a) <= 255
    case LeastT(a) => Digits(a) && Number(a) <= 255
    case BetweenT(a, b) => Digits(a) && Digits(b) && Number(a) <= Number(b) <= 255
    case _ => true
  }

  predicate IsRange(t: Token) {
    t.ExactT? || t.LeastT? || t.BetweenT?
  }

  /** Token i is right in its place: it does not begin with the delimiter; a dollar is an anchor at
      the end and itself elsewhere; a brace is itself at the beginning and opens a range
      elsewhere. */
  predicate InPlace(ts: seq<Token>, i: nat, eof: int)
    requires i < |ts|
  {
    var t := ts[i];
    && TokOk(t) && Spell(t)[0] != eof
    && (t == DolT ==> i == |ts| - 1) && (t == Plain(DOLLAR) ==> i < |ts| - 1)
    && (t == Quoted(LBRACE) ==> i == 0) && (IsRange(t) ==> i > 0)
  }

  predicate Proper(ts: seq<Token>, eof: int) {
    forall i | 0 <= i < |ts| :: InPlace(ts, i, eof)
  }

  // The items.

  function Lo(t: Token): int
    requires IsRange(t)
  {
    Number(t.a)
  }

  function Hi(t: Token): int
    requires IsRange(t)
  {
    match t
    case ExactT(a) => Number(a)
    case LeastT(_) => 255
    case BetweenT(_, b) => Number(b)
  }

  /** What tokens build: items; or something odd, where a repetition follows what cannot be
      repeated; or an error. */
  datatype Built = Good(items: seq<Item>) | Odd | Fail(error: int)

  function Opens(items: seq<Item>): nat {
    if items == [] then 0 else Opens(items[..|items| - 1]) + if items[|items| - 1].Open? then 1 else 0
  }

  function Closes(items: seq<Item>): nat {
    if items == [] then 0 else Closes(items[..|items| - 1]) + if items[|items| - 1].Close? then 1 else 0
  }

  function Last(items: seq<Item>, x: Item): seq<Item>
    requires items != []
  {
    items[..|items| - 1] + [x]
  }

  function Starred(items: seq<Item>): Built {
    if items == [] then Good([One(Char(STAR_CH))])
    else
      match items[|items| - 1]
      case Open(_) => Good(items + [One(Char(STAR_CH))])
      case Close(_) => Good(items + [One(Char(STAR_CH))])
      case One(u) => Good(Last(items, Star(u)))
      case Star(_) => Good(items)
      case Range(_, _, _) => Good(items)
      case _ => Odd
  }

  function Ranged(items: seq<Item>, lo: int, hi: int): Built {
    if items == [] then Odd
    else
      match items[|items| - 1]
      case One(u) => Good(Last(items, Range(u, lo, hi)))
      case Star(u) => Good(Last(items, Range(u, lo, hi)))
      case _ => Odd
  }

  function Apply(items: seq<Item>, t: Token): Built
    requires TokOk(t)
  {
    match t
    case Plain(c) => Good(items + [One(Char(c))])
    case Quoted(c) => Good(items + [One(Char(c))])
    case Newline => Good(items + [One(Char(NEWLINE))])
    case DotT => Good(items + [One(Dot)])
    case StarT => Starred(items)
    case DolT => Good(items + [Dol])
    case ClassT(neg, body) => Good(items + [One(Class(ClassSet(neg, body)))])
    case OpenT => if Opens(items) >= NBRA then Fail(43) else Good(items + [Open(Opens(items))])
    case CloseT => if Opens(items) != Closes(items) + 1 then Fail(42) else Good(items + [Close(Closes(items))])
    case BackT(d) => if d >= Closes(items) then Fail(25) else Good(items + [Back(d)])
    case _ => Ranged(items, Lo(t), Hi(t))
  }

  function Fold(ts: seq<Token>): Built
    requires forall t | t in ts :: TokOk(t)
  {
    if ts == [] then Good([])
    else
      match Fold(ts[..|ts| - 1])
      case Good(items) => Apply(items, ts[|ts| - 1])
      case b => b
  }

  lemma FoldNext(ts: seq<Token>, t: Token)
    requires (forall x | x in ts :: TokOk(x)) && TokOk(t)
    ensures forall x | x in ts + [t] :: TokOk(x)
    ensures Fold(ts + [t]) == if Fold(ts).Good? then Apply(Fold(ts).items, t) else Fold(ts)
  {
    hide TokOk, Apply;
    assert (ts + [t])[..|ts|] == ts;
  }

  // What is built is well formed.

  function Begun(items: seq<Item>, b: set<nat>): set<nat> {
    if items == [] then b else Begun(items[1..], if items[0].Open? then b + {items[0].k} else b)
  }

  function Done(items: seq<Item>, d: set<nat>): set<nat> {
    if items == [] then d else Done(items[1..], if items[0].Close? then d + {items[0].k} else d)
  }

  /** Well formed as far as it goes; x may come next. */
  predicate MayFollow(x: Item, b: set<nat>, d: set<nat>) {
    match x
    case Open(k) => k !in b
    case Close(k) => k in b && k !in d
    case Back(k) => k in d
    case _ => true
  }

  lemma {:induction false} FormedSnoc(items: seq<Item>, x: Item, b: set<nat>, d: set<nat>)
    ensures Formed(items + [x], b, d) <==> Formed(items, b, d) && MayFollow(x, Begun(items, b), Done(items, d))
    ensures Begun(items + [x], b) == if x.Open? then Begun(items, b) + {x.k} else Begun(items, b)
    ensures Done(items + [x], d) == if x.Close? then Done(items, d) + {x.k} else Done(items, d)
    ensures AllOk(items + [x]) <==> AllOk(items) && ItemOk(x)
  {
    if items == [] {
      assert items + [x] == [x] && [x][1..] == [];
    } else {
      assert (items + [x])[1..] == items[1..] + [x];
      var y := items[0];
      FormedSnoc(items[1..], x, if y.Open? then b + {y.k} else b, if y.Close? then d + {y.k} else d);
    }
  }

  function Upto(n: nat): (r: set<nat>)
    ensures forall k: int :: k in r <==> 0 <= k < n
  {
    if n == 0 then {} else Upto(n - 1) + {n - 1}
  }

  predicate Sound(items: seq<Item>) {
    && AllOk(items) && Formed(items, {}, {}) && Closes(items) <= Opens(items) <= NBRA
    && Begun(items, {}) == Upto(Opens(items)) && Done(items, {}) == Upto(Closes(items))
  }

  lemma SoundSnoc(items: seq<Item>, x: Item)
    requires Sound(items) && ItemOk(x)
    requires match x
      case Open(k) => k == Opens(items) < NBRA
      case Close(k) => k == Closes(items) < Opens(items)
      case Back(k) => k < Closes(items)
      case _ => true
    ensures Sound(items + [x])
  {
    hide Formed, AllOk, Begun, Done;
    FormedSnoc(items, x, {}, {});
    assert (items + [x])[..|items|] == items;
  }

  lemma SoundLast(items: seq<Item>, x: Item)
    requires Sound(items) && items != [] && ItemOk(x) && (x.Star? || x.Range?)
    requires items[|items| - 1].One? || items[|items| - 1].Star?
    ensures Sound(Last(items, x))
  {
    hide Formed, AllOk, Begun, Done;
    var front := items[..|items| - 1];
    assert items == front + [items[|items| - 1]];
    FormedSnoc(front, items[|items| - 1], {}, {});
    FormedSnoc(front, x, {}, {});
    assert (front + [x])[..|front|] == front;
  }

  lemma {:induction false} NumberPositive(d: seq<int>)
    requires forall c | c in d :: IsDigit(c)
    ensures Number(d) >= 0
  {
    if d != [] {
      NumberPositive(d[..|d| - 1]);
      assert d[|d| - 1] in d;
    }
  }

  lemma {:induction false} RestWithin(t: seq<int>, lc: int, s: set<int>)
    requires Ascii(t) && (forall c | c in s :: 0 < c < 128) && 0 <= lc < 128
    requires Rest(t, lc, s).Scanned?
    ensures forall c | c in Rest(t, lc, s).s :: 0 < c < 128
    decreases |t|, 1
  {
    if t[0] != RBRACK {
      ElementsWithin(t, lc, s);
    }
  }

  lemma {:induction false} ElementsWithin(t: seq<int>, lc: int, s: set<int>)
    requires Ascii(t) && (forall c | c in s :: 0 < c < 128) && 0 <= lc < 128
    requires Elements(t, lc, s).Scanned?
    ensures forall c | c in Elements(t, lc, s).s :: 0 < c < 128
    decreases |t|, 0
  {
    if t[0] == DASH && lc != 0 {
      if t[1] != RBRACK {
        RestWithin(t[2..], t[1], s + Span(lc, t[1]) + {t[1]});
      }
    } else {
      RestWithin(t[1..], t[0], s + {t[0]});
    }
  }

  lemma ClassWithin(neg: bool, body: seq<int>)
    requires TokOk(ClassT(neg, body))
    ensures ItemOk(One(Class(ClassSet(neg, body))))
  {
    ElementsWithin(body + [RBRACK], 0, {});
  }

  /** A token keeps what is built sound. */
  lemma ApplySound(items: seq<Item>, t: Token)
    requires Sound(items) && TokOk(t) && Apply(items, t).Good?
    ensures Sound(Apply(items, t).items) && Apply(items, t).items != []
  {
    hide Sound, Number, ClassSet;
    if IsRange(t) {
      NumberPositive(t.a);
      if t.BetweenT? {
        NumberPositive(t.b);
      }
      SoundOk(items);
      SoundLast(items, Range(items[|items| - 1].u, Lo(t), Hi(t)));
    } else if t.StarT? {
      if items != [] && items[|items| - 1].One? {
        SoundOk(items);
        SoundLast(items, Star(items[|items| - 1].u));
      } else if items == [] || items[|items| - 1].Open? || items[|items| - 1].Close? {
        assert items == [] ==> items + [One(Char(STAR_CH))] == [One(Char(STAR_CH))];
        SoundSnoc(items, One(Char(STAR_CH)));
      }
    } else {
      if t.ClassT? {
        ClassWithin(t.neg, t.body);
      }
      SoundCounts(items);
      var r := Apply(items, t).items;
      assert r == items + [r[|items|]];
      SoundSnoc(items, r[|items|]);
    }
  }

  lemma SoundCounts(items: seq<Item>)
    requires Sound(items)
    ensures Closes(items) <= Opens(items) <= NBRA
  {
  }

  lemma SoundOk(items: seq<Item>)
    requires Sound(items) && items != []
    ensures ItemOk(items[|items| - 1])
  {
    assert items == items[..|items| - 1] + [items[|items| - 1]];
    FormedSnoc(items[..|items| - 1], items[|items| - 1], {}, {});
  }

  /** What tokens build is well formed. */
  lemma {:induction false} FoldSound(ts: seq<Token>)
    requires (forall t | t in ts :: TokOk(t)) && Fold(ts).Good?
    ensures Sound(Fold(ts).items) && (ts != [] ==> Fold(ts).items != [])
  {
    hide TokOk, Apply;
    if ts == [] {
      SoundNone();
    } else {
      FoldSound(ts[..|ts| - 1]);
      ApplySound(Fold(ts[..|ts| - 1]).items, ts[|ts| - 1]);
    }
  }

  lemma SoundNone()
    ensures Sound([])
  {
  }
}
