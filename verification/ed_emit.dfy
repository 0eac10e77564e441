/** What each token of a pattern adds to the code, and that this is the code of what it builds. */
module EdEmit {
  import opened Arith
  import opened EdPattern
  import opened EdCode
  import opened EdText
  import opened EdBuild

  /** b |= STAR */
  function OrStar(b: int): int {
    b - b % 2 + STAR
  }

  /** b |= RNGE */
  function OrRnge(b: int): int {
    b - b % 4 + RNGE
  }

  /** Whether a star is itself: at the beginning and after a bracket of a group. */
  predicate StarIsChar(code: seq<int>, lastep: int)
    requires -1 <= lastep < |code|
  {
    lastep == -1 || code[lastep] == CBRA || code[lastep] == CKET
  }

  function Emitted(code: seq<int>, lastep: int, nbra: int, closed: int, t: Token): seq<int>
    requires TokOk(t) && -1 <= lastep < |code| && (IsRange(t) ==> lastep >= 0)
  {
    match t
    case Plain(c) => code + [CCHR, c]
    case Quoted(c) => code + [CCHR, c]
    case Newline => code + [CCHR, NEWLINE]
    case DotT => code + [CDOT]
    case DolT => code + [CDOL]
    case StarT => if StarIsChar(code, lastep) then code + [CCHR, STAR_CH] else code[lastep := OrStar(code[lastep])]
    case ClassT(neg, body) => code + [CCL] + Bitmap(ClassSet(neg, body))
    case OpenT => code + [CBRA, nbra]
    case CloseT => code + [CKET, closed]
    case BackT(d) => code + [CBACK, d]
    case _ => code[lastep := OrRnge(code[lastep])] + [Lo(t), Hi(t)]
  }

  function NewLast(code: seq<int>, lastep: int, t: Token): int
    requires -1 <= lastep < |code|
  {
    if IsRange(t) || (t.StarT? && !StarIsChar(code, lastep)) then lastep else |code|
  }

  /** The code of the items, and where that of the last begins. */
  ghost predicate Coded(items: seq<Item>, code: seq<int>, lastep: int) {
    && code == Codes(items)
    && lastep == if items == [] then -1 else |Codes(items[..|items| - 1])|
  }

  lemma CodeLength(x: Item)
    ensures |Code(x)| > 0
    ensures (x.Open? <==> Code(x)[0] == CBRA) && (x.Close? <==> Code(x)[0] == CKET)
    ensures x.One? ==> Code(x) == [Op(x.u)] + Operand(x.u)
    ensures x.Star? ==> Code(x) == [Op(x.u) + STAR] + Operand(x.u)
    ensures x.Range? ==> Code(x)[0] == Op(x.u) + RNGE
  {
  }

  lemma OpBits(u: Unit)
    ensures OrStar(Op(u)) == OrStar(Op(u) + STAR) == Op(u) + STAR && OrStar(Op(u) + RNGE) == Op(u) + RNGE
    ensures OrRnge(Op(u)) == OrRnge(Op(u) + STAR) == Op(u) + RNGE
  {
  }

  lemma CodedBounds(items: seq<Item>, code: seq<int>, lastep: int)
    requires Coded(items, code, lastep)
    ensures -1 <= lastep < |code| && (items == [] <==> lastep == -1) && (items == [] ==> code == [])
    ensures items != [] ==>
      code == Codes(items[..|items| - 1]) + Code(items[|items| - 1]) && code[lastep] == Code(items[|items| - 1])[0]
    ensures items == [] ==> StarIsChar(code, lastep)
    ensures items != [] ==> (StarIsChar(code, lastep) <==> items[|items| - 1].Open? || items[|items| - 1].Close?)
  {
    hide Code;
    if items != [] {
      CodeLength(items[|items| - 1]);
    }
  }

  lemma CodedSnoc(items: seq<Item>, code: seq<int>, lastep: int, x: Item)
    requires Coded(items, code, lastep)
    ensures Coded(items + [x], code + Code(x), |code|)
  {
    hide Code;
    assert (items + [x])[..|items|] == items;
  }

  lemma CodedLast(items: seq<Item>, code: seq<int>, lastep: int, x: Item, code': seq<int>)
    requires Coded(items, code, lastep) && items != [] && code' == Codes(items[..|items| - 1]) + Code(x)
    ensures Coded(Last(items, x), code', lastep)
  {
    hide Code;
    var front := items[..|items| - 1];
    assert (front + [x])[..|front|] == front;
  }

  /** The token's code is that of what it builds. */
  lemma EmittedIsCode(items: seq<Item>, code: seq<int>, lastep: int, nbra: int, closed: int, t: Token)
    requires Coded(items, code, lastep) && nbra == Opens(items) && closed == Closes(items)
    requires TokOk(t) && -1 <= lastep < |code| && (IsRange(t) ==> lastep >= 0) && Apply(items, t).Good?
    ensures Coded(Apply(items, t).items, Emitted(code, lastep, nbra, closed, t), NewLast(code, lastep, t))
  {
    hide *;
    TokenKinds(t);
    EmittedKinds(items, code, lastep, nbra, closed, t);
    if IsRange(t) {
      RangeIsCode(items, code, lastep, Lo(t), Hi(t));
    } else if t.StarT? {
      StarIsCode(items, code, lastep);
    } else {
      var x := OneIsCode(items, code, lastep, nbra, closed, t);
      CodedSnoc(items, code, lastep, x);
    }
  }

  lemma TokenKinds(t: Token)
    ensures IsRange(t) ==> !t.StarT?
  {
  }

  lemma EmittedKinds(items: seq<Item>, code: seq<int>, lastep: int, nbra: int, closed: int, t: Token)
    requires TokOk(t) && -1 <= lastep < |code| && (IsRange(t) ==> lastep >= 0)
    ensures t.StarT? ==> Apply(items, t) == Starred(items)
    ensures t.StarT? ==> Emitted(code, lastep, nbra, closed, t) == Emitted(code, lastep, 0, 0, StarT)
    ensures IsRange(t) ==> Apply(items, t) == Ranged(items, Lo(t), Hi(t)) && NewLast(code, lastep, t) == lastep
    ensures IsRange(t) ==>
      Emitted(code, lastep, nbra, closed, t) == code[lastep := OrRnge(code[lastep])] + [Lo(t), Hi(t)]
    ensures !IsRange(t) && !t.StarT? ==> NewLast(code, lastep, t) == |code|
  {
    hide TokOk;
  }

  lemma OneIsCode(items: seq<Item>, code: seq<int>, lastep: int, nbra: int, closed: int, t: Token) returns (x: Item)
    requires nbra == Opens(items) && closed == Closes(items) && TokOk(t) && -1 <= lastep < |code|
    requires !IsRange(t) && !t.StarT? && Apply(items, t).Good?
    ensures Apply(items, t).items == items + [x] && Emitted(code, lastep, nbra, closed, t) == code + Code(x)
  {
    hide TokOk, Opens, Closes, ClassSet, Bitmap;
    var r := Apply(items, t).items;
    x := r[|items|];
  }

  lemma StarIsCode(items: seq<Item>, code: seq<int>, lastep: int)
    requires Coded(items, code, lastep) && -1 <= lastep < |code| && Starred(items).Good?
    ensures Coded(Starred(items).items, Emitted(code, lastep, 0, 0, StarT), NewLast(code, lastep, StarT))
  {
    hide Coded, Codes, OrStar, StarIsChar, Operand, Op, Code;
    CodedBounds(items, code, lastep);
    if StarIsChar(code, lastep) {
      CodedSnoc(items, code, lastep, One(Char(STAR_CH)));
      assert items == [] ==> items + [One(Char(STAR_CH))] == [One(Char(STAR_CH))];
      StarCode();
    } else {
      LastStarred(items, code, lastep);
    }
  }

  lemma LastStarred(items: seq<Item>, code: seq<int>, lastep: int)
    requires Coded(items, code, lastep) && 0 <= lastep < |code| && items != [] && Starred(items).Good?
    requires !items[|items| - 1].Open? && !items[|items| - 1].Close?
    ensures Coded(Starred(items).items, code[lastep := OrStar(code[lastep])], lastep)
  {
    hide Coded, Codes, OrStar, StarIsChar, Operand, Op, Code;
    CodedBounds(items, code, lastep);
    var x := items[|items| - 1];
    OpBits(x.u);
    CodeLength(x);
    LastOp(items, code, lastep, OrStar(code[lastep]));
    if x.One? {
      CodeLength(Star(x.u));
      assert Code(x)[0 := Op(x.u) + STAR] == Code(Star(x.u));
      CodedLast(items, code, lastep, Star(x.u), code[lastep := OrStar(code[lastep])]);
    } else {
      assert code[lastep := OrStar(code[lastep])] == code;
    }
  }

  lemma StarCode()
    ensures Code(One(Char(STAR_CH))) == [CCHR, STAR_CH]
  {
  }

  /** Changing the operation of the last item. */
  lemma LastOp(items: seq<Item>, code: seq<int>, lastep: int, op: int)
    requires Coded(items, code, lastep) && items != []
    ensures 0 <= lastep < |code|
    ensures code[lastep := op] == Codes(items[..|items| - 1]) + Code(items[|items| - 1])[0 := op]
  {
    hide Code;
    CodeLength(items[|items| - 1]);
  }

  lemma RangeIsCode(items: seq<Item>, code: seq<int>, lastep: int, lo: int, hi: int)
    requires Coded(items, code, lastep) && 0 <= lastep < |code| && Ranged(items, lo, hi).Good?
    ensures Coded(Ranged(items, lo, hi).items, code[lastep := OrRnge(code[lastep])] + [lo, hi], lastep)
  {
    hide Coded, Codes, OrRnge, Operand, Op;
    CodedBounds(items, code, lastep);
    var x := items[|items| - 1];
    OpBits(x.u);
    CodeLength(x);
    LastOp(items, code, lastep, OrRnge(code[lastep]));
    var front := Codes(items[..|items| - 1]);
    assert Code(x)[0 := Op(x.u) + RNGE] == [Op(x.u) + RNGE] + Operand(x.u);
    var mid := [Op(x.u) + RNGE] + Operand(x.u);
    assert (front + mid) + [lo, hi] == front + (mid + [lo, hi]);
    CodedLast(items, code, lastep, Range(x.u, lo, hi), code[lastep := OrRnge(code[lastep])] + [lo, hi]);
  }

  /** A token makes the code no shorter, and a class longer by its 17 bytes. */
  lemma ApplyGrows(items: seq<Item>, t: Token)
    requires TokOk(t) && Apply(items, t).Good?
    ensures |Codes(Apply(items, t).items)| >= |Codes(items)| + if t.ClassT? then 17 else 0
  {
    hide *;
    var code := Codes(items);
    var lastep := CodedAny(items);
    CodedBounds(items, code, lastep);
    if IsRange(t) {
      RangedLast(items, t);
    }
    EmittedIsCode(items, code, lastep, Opens(items), Closes(items), t);
    EmittedSize(code, lastep, Opens(items), Closes(items), t);
    CodedCode(Apply(items, t).items, Emitted(code, lastep, Opens(items), Closes(items), t), NewLast(code, lastep, t));
  }

  lemma CodedAny(items: seq<Item>) returns (lastep: int)
    ensures Coded(items, Codes(items), lastep)
  {
    lastep := if items == [] then -1 else |Codes(items[..|items| - 1])|;
  }

  lemma CodedCode(items: seq<Item>, code: seq<int>, lastep: int)
    requires Coded(items, code, lastep)
    ensures code == Codes(items)
  {
  }

  lemma RangedLast(items: seq<Item>, t: Token)
    requires TokOk(t) && Apply(items, t).Good? && IsRange(t)
    ensures items != []
  {
  }

  lemma EmittedSize(code: seq<int>, lastep: int, nbra: int, closed: int, t: Token)
    requires TokOk(t) && -1 <= lastep < |code| && (IsRange(t) ==> lastep >= 0)
    ensures |Emitted(code, lastep, nbra, closed, t)| >= |code| + if t.ClassT? then 17 else 0
  {
    hide TokOk;
  }

  /** A token that builds something may come next, and one that may does not fail. */
  lemma ApplyAllowed(items: seq<Item>, code: seq<int>, lastep: int, t: Token)
    requires TokOk(t) && Coded(items, code, lastep)
    requires (t == Quoted(LBRACE) ==> items == []) && (IsRange(t) ==> items != [])
    ensures -1 <= lastep < |code|
    ensures Apply(items, t).Good? ==> Allowed(lastep, Opens(items), Closes(items), t)
    ensures Allowed(lastep, Opens(items), Closes(items), t) && Opens(items) <= NBRA ==> !Apply(items, t).Fail?
  {
    hide TokOk, Opens, Closes, ClassSet, Coded;
    CodedBounds(items, code, lastep);
  }

  /** What must hold for the token to come next. */
  predicate Allowed(lastep: int, nbra: int, closed: int, t: Token) {
    && (t == Quoted(LBRACE) ==> lastep == -1) && (IsRange(t) ==> lastep >= 0)
    && (t.OpenT? ==> nbra < NBRA) && (t.CloseT? ==> nbra == closed + 1) && (t.BackT? ==> t.d < closed)
  }

  /** What tokens have built before is part of what they build in all. */
  lemma {:induction false} FoldPrefix(ts: seq<Token>, k: nat)
    requires (forall t | t in ts :: TokOk(t)) && Fold(ts).Good? && k <= |ts|
    ensures (forall t | t in ts[..k] :: TokOk(t)) && Fold(ts[..k]).Good?
    ensures |Codes(Fold(ts[..k]).items)| <= |Codes(Fold(ts).items)|
    decreases |ts|
  {
    hide TokOk, Apply, Codes;
    if k < |ts| {
      var front := ts[..|ts| - 1];
      assert ts[|ts| - 1] in ts;
      FoldPrefix(front, k);
      assert front[..k] == ts[..k];
      ApplyGrows(Fold(front).items, ts[|ts| - 1]);
    } else {
      assert ts[..k] == ts;
    }
  }

  /** After what has been read, a token that builds something may come, and its code is known. */
  lemma NextAllowed(ts: seq<Token>, k: nat, code: seq<int>, lastep: int)
    requires (forall t | t in ts :: TokOk(t)) && Fold(ts).Good? && k < |ts|
    requires (ts[k] == Quoted(LBRACE) ==> k == 0) && (IsRange(ts[k]) ==> k > 0)
    requires forall t | t in ts[..k] :: TokOk(t)
    requires Fold(ts[..k]).Good? ==> Coded(Fold(ts[..k]).items, code, lastep)
    ensures Fold(ts[..k]).Good? && Allowed(lastep, Opens(Fold(ts[..k]).items), Closes(Fold(ts[..k]).items), ts[k])
    ensures |code| + (if ts[k].ClassT? then 17 else 0) <= |Codes(Fold(ts).items)|
  {
    hide *;
    var read, t := ts[..k], ts[k];
    assert ts[..k + 1] == read + [t];
    assert ts[k] in ts;
    FoldPrefix(ts, k);
    FoldPrefix(ts, k + 1);
    FoldNext(read, t);
    FoldSound(read);
    FoldNone();
    CodedCode(Fold(read).items, code, lastep);
    ApplyAllowed(Fold(read).items, code, lastep, t);
    ApplyGrows(Fold(read).items, t);
  }

  lemma FoldNone()
    ensures Fold([]) == Good([])
  {
  }

  lemma ApplyCounts(items: seq<Item>, t: Token)
    requires TokOk(t) && Apply(items, t).Good?
    ensures Opens(Apply(items, t).items) == Opens(items) + if t.OpenT? then 1 else 0
    ensures Closes(Apply(items, t).items) == Closes(items) + if t.CloseT? then 1 else 0
  {
    hide TokOk, ClassSet, Opens, Closes;
    var r := Apply(items, t).items;
    if r != items {
      var x := r[|r| - 1];
      if |r| == |items| + 1 {
        assert r == items + [x];
        CountsSnoc(items, x);
      } else {
        var front := items[..|items| - 1];
        assert items == front + [items[|items| - 1]] && r == front + [x];
        CountsSnoc(front, x);
        CountsSnoc(front, items[|items| - 1]);
      }
    }
  }

  lemma CountsSnoc(items: seq<Item>, x: Item)
    ensures Opens(items + [x]) == Opens(items) + if x.Open? then 1 else 0
    ensures Closes(items + [x]) == Closes(items) + if x.Close? then 1 else 0
  {
    assert (items + [x])[..|items|] == items;
  }

  // Bits.

  /** PLACE: sets bit k of a byte. */
  function SetBit(byte: int, k: int): int {
    if Bit(byte, k) then byte else byte + Pow(k)
  }

  lemma PlaceByte(s: set<int>, c: int)
    requires 0 <= c < 128
    ensures SetBit(ByteOf(s, c / 8), c % 8) == ByteOf(s + {c}, c / 8)
  {
    hide Bit, Weight;
    var i, k := c / 8, c % 8;
    assert c == 8 * i + k;
    ByteBit(s, i, k);
    forall j | 0 <= j < 8
      ensures Weight(s + {c}, 8 * i + j, Pow(j)) == if j == k then Pow(j) else Weight(s, 8 * i + j, Pow(j))
    {
      WeightAdd(s, c, 8 * i + j, Pow(j));
    }
    WeightAdd(s, c, c, Pow(k));
    PowTable();
  }

  lemma PowTable()
    ensures Pow(0) == 1 && Pow(1) == 2 && Pow(2) == 4 && Pow(3) == 8
    ensures Pow(4) == 16 && Pow(5) == 32 && Pow(6) == 64 && Pow(7) == 128
  {
  }

  lemma WeightAdd(s: set<int>, c: int, j: int, w: int)
    ensures Weight(s + {c}, j, w) == if j == c then w else Weight(s, j, w)
    ensures Weight(s, j, w) == if j in s then w else 0
  {
  }

  lemma OtherByte(s: set<int>, c: int, i: int)
    requires 0 <= c < 128 && 0 <= i < 16 && i != c / 8
    ensures ByteOf(s + {c}, i) == ByteOf(s, i)
  {
  }

  lemma PlaceBit(s: set<int>, c: int)
    requires 0 <= c < 128
    ensures Bitmap(s)[c / 8 := SetBit(Bitmap(s)[c / 8], c % 8)] == Bitmap(s + {c})
  {
    hide ByteOf, SetBit;
    PlaceByte(s, c);
    forall i | 0 <= i < 16 && i != c / 8
      ensures ByteOf(s + {c}, i) == ByteOf(s, i)
    {
      OtherByte(s, c, i);
    }
  }

  lemma ComplementByte(s: set<int>, i: int)
    requires 0 <= i < 16
    ensures 255 - ByteOf(s, i) == ByteOf(Span(0, 128) - s, i)
  {
  }

  lemma WithoutNul(s: set<int>)
    ensures ByteOf(s, 0) - ByteOf(s, 0) % 2 == ByteOf(s - {0}, 0)
    ensures forall i | 0 < i < 16 :: ByteOf(s, i) == ByteOf(s - {0}, i)
  {
    var h := Weight(s, 1, 1) + Weight(s, 2, 2) + Weight(s, 3, 4) + Weight(s, 4, 8) + Weight(s, 5, 16) +
             Weight(s, 6, 32) + Weight(s, 7, 64);
    assert ByteOf(s, 0) == 2 * h + Weight(s, 0, 1);
    DivisionUnique(2, h, Weight(s, 0, 1));
  }
}
