/** The byte code of regexp.h, and what a stretch of it means. */
module EdCode {
  import opened Arith
  import opened EdPattern

  // Character classes are 16 bytes of bits.

  function Pow(k: int): int {
    if k <= 0 then 1 else if k == 1 then 2 else if k == 2 then 4 else if k == 3 then 8
    else if k == 4 then 16 else if k == 5 then 32 else if k == 6 then 64 else 128
  }

  predicate Bit(byte: int, k: int) {
    var p := Pow(k);
    byte / p % 2 == 1
  }

  function Weight(s: set<int>, c: int, w: int): int {
    if c in s then w else 0
  }

  /** Byte i of the class s. */
  function ByteOf(s: set<int>, i: int): int {
    Weight(s, 8 * i, 1) + Weight(s, 8 * i + 1, 2) + Weight(s, 8 * i + 2, 4) + Weight(s, 8 * i + 3, 8) +
    Weight(s, 8 * i + 4, 16) + Weight(s, 8 * i + 5, 32) + Weight(s, 8 * i + 6, 64) + Weight(s, 8 * i + 7, 128)
  }

  function Bitmap(s: set<int>): (b: seq<int>)
    ensures |b| == 16
  {
    seq(16, i => ByteOf(s, i))
  }

  /** The eight bits of byte i. */
  function Bits(s: set<int>, i: int): (w: seq<int>)
    ensures |w| == 8 && forall j | 0 <= j < 8 :: w[j] == if 8 * i + j in s then 1 else 0
  {
    seq(8, j => if 8 * i + j in s then 1 else 0)
  }

  function Sum(w: seq<int>): int
    requires |w| == 8
  {
    w[0] + 2 * w[1] + 4 * w[2] + 8 * w[3] + 16 * w[4] + 32 * w[5] + 64 * w[6] + 128 * w[7]
  }

  lemma EightBits(w: seq<int>, k: int)
    requires |w| == 8 && (forall j | 0 <= j < 8 :: 0 <= w[j] <= 1) && 0 <= k < 8
    ensures Bit(Sum(w), k) <==> w[k] == 1
  {
    var a, b, c, d, e, f, g, h := w[0], w[1], w[2], w[3], w[4], w[5], w[6], w[7];
    var n := Sum(w);
    if k == 0 {
      HighBit(n, 1, 0, b + 2 * c + 4 * d + 8 * e + 16 * f + 32 * g + 64 * h, a);
    } else if k == 1 {
      HighBit(n, 2, a, c + 2 * d + 4 * e + 8 * f + 16 * g + 32 * h, b);
    } else if k == 2 {
      HighBit(n, 4, a + 2 * b, d + 2 * e + 4 * f + 8 * g + 16 * h, c);
    } else if k == 3 {
      HighBit(n, 8, a + 2 * b + 4 * c, e + 2 * f + 4 * g + 8 * h, d);
    } else if k == 4 {
      HighBit(n, 16, a + 2 * b + 4 * c + 8 * d, f + 2 * g + 4 * h, e);
    } else if k == 5 {
      HighBit(n, 32, a + 2 * b + 4 * c + 8 * d + 16 * e, g + 2 * h, f);
    } else if k == 6 {
      HighBit(n, 64, a + 2 * b + 4 * c + 8 * d + 16 * e + 32 * f, h, g);
    } else {
      HighBit(n, 128, a + 2 * b + 4 * c + 8 * d + 16 * e + 32 * f + 64 * g, 0, h);
    }
  }

  lemma HighBit(n: int, p: nat, low: int, high: int, bit: int)
    requires p > 0 && 0 <= low < p && 0 <= bit <= 1 && n == (2 * high + bit) * p + low
    ensures n / p % 2 == bit
  {
    DivisionUnique(p, 2 * high + bit, low);
  }

  lemma ByteIsSum(s: set<int>, i: int)
    ensures ByteOf(s, i) == Sum(Bits(s, i))
  {
    hide Bits;
    var w := Bits(s, i);
    assert w[0] == Weight(s, 8 * i, 1) && 2 * w[1] == Weight(s, 8 * i + 1, 2);
  }

  lemma ByteBit(s: set<int>, i: int, k: int)
    requires 0 <= k < 8
    ensures Bit(ByteOf(s, i), k) <==> 8 * i + k in s
  {
    hide *;
    ByteIsSum(s, i);
    EightBits(Bits(s, i), k);
  }

  /** The bit for character c says whether it is in the class. */
  lemma BitmapBit(s: set<int>, c: int)
    requires 0 <= c < 128
    ensures Bit(Bitmap(s)[c / 8], c % 8) <==> c in s
  {
    hide Bit, ByteOf;
    ByteBit(s, c / 8, c % 8);
    assert c == 8 * (c / 8) + c % 8;
  }

  // Code.

  function Op(u: Unit): int {
    match u
    case Char(_) => CCHR
    case Dot => CDOT
    case Class(_) => CCL
  }

  function Operand(u: Unit): seq<int> {
    match u
    case Char(c) => [c]
    case Dot => []
    case Class(s) => Bitmap(s)
  }

  function Width(op: int): nat {
    if op == CCHR then 1 else if op == CDOT then 0 else 16
  }

  function Code(x: Item): seq<int> {
    match x
    case One(u) => [Op(u)] + Operand(u)
    case Star(u) => [Op(u) + STAR] + Operand(u)
    case Range(u, lo, hi) => [Op(u) + RNGE] + Operand(u) + [lo, hi]
    case Dol => [CDOL]
    case Open(k) => [CBRA, k]
    case Close(k) => [CKET, k]
    case Back(k) => [CBACK, k]
  }

  function Codes(items: seq<Item>): seq<int> {
    if items == [] then [] else Codes(items[..|items| - 1]) + Code(items[|items| - 1])
  }

  function Encode(items: seq<Item>): seq<int> {
    if items == [] then [CCEOF] else Code(items[0]) + Encode(items[1..])
  }

  lemma CodesSnoc(items: seq<Item>, x: Item)
    ensures Codes(items + [x]) == Codes(items) + Code(x)
  {
    assert (items + [x])[..|items|] == items;
  }

  lemma {:induction false} CodesCons(x: Item, items: seq<Item>)
    ensures Codes([x] + items) == Code(x) + Codes(items)
  {
    hide Code, Codes;
    NoCodes();
    if items == [] {
      CodesSnoc([], x);
      assert [] + [x] == [x] + items;
    } else {
      var front, y := items[..|items| - 1], items[|items| - 1];
      CodesCons(x, front);
      CodesSnoc([x] + front, y);
      CodesSnoc(front, y);
      assert [x] + items == ([x] + front) + [y] && items == front + [y];
      assert (Code(x) + Codes(front)) + Code(y) == Code(x) + (Codes(front) + Code(y));
    }
  }

  lemma NoCodes()
    ensures Codes([]) == []
  {
  }

  /** The code of the items, one after the other, and the end. */
  lemma {:induction false} EncodeIsCodes(items: seq<Item>)
    ensures Encode(items) == Codes(items) + [CCEOF]
  {
    hide Code;
    if items != [] {
      EncodeIsCodes(items[1..]);
      CodesCons(items[0], items[1..]);
      assert items == [items[0]] + items[1..];
    }
  }

  /** ISTHERE and its like: whether c is one of the unit whose code is op and whose operand is at
      ep. */
  predicate Fits(code: seq<int>, op: int, ep: nat, c: int)
    requires ep + Width(op) <= |code|
  {
    if op == CCHR then c == code[ep]
    else if op == CDOT then c != 0
    else Bit(code[ep + c % 128 / 8], c % 8)
  }

  lemma FitsHits(code: seq<int>, u: Unit, ep: nat, c: int)
    requires ep + Width(Op(u)) <= |code| && code[ep..ep + Width(Op(u))] == Operand(u)
    ensures Fits(code, Op(u), ep, c) <==> Hits(u, c)
  {
    hide Bit, Bitmap;
    if u.Class? {
      var d := c % 128;
      assert 0 <= d / 8 < 16 && d % 8 == c % 8;
      assert code[ep..ep + 16][d / 8] == code[ep + d / 8];
      BitmapBit(u.s, d);
    } else if u.Char? {
      assert code[ep..ep + 1][0] == code[ep];
    }
  }
}
