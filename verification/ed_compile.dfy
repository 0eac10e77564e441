/** compile of regexp.h: the text of a pattern becomes code. */
module EdCompile {
  import opened EdPattern
  import opened EdCode
  import opened EdMatch
  import opened EdText
  import opened EdBuild
  import opened EdEmit

  /** How a step of the compiler comes out; Beyond is a pattern that is not ended, Same an empty one,
      which leaves the code as it was. */
  datatype Status = More | Ended | Same | Error(code: int) | Beyond

  class Compiler {
    const p: seq<int>
    const eof: int
    const sed: bool
    const room: nat
    var pos: nat
    var code: seq<int>
    var lastep: int         // -1 for none
    var bracket: seq<int>
    var nbra: int
    var ebra: int
    var closed: int
    var circf: bool
    var nodelim: bool

    constructor (p: seq<int>, eof: int, sed: bool, room: nat)
      requires TextOk(p)
      ensures this.p == p && this.eof == eof && this.sed == sed && this.room == room && Valid()
      ensures pos == 0 && code == [] && lastep == -1 && nbra == ebra == 0 && !circf
    {
      this.p, this.eof, this.sed, this.room := p, eof, sed, room;
      pos, code, lastep, bracket, nbra, ebra, closed, circf, nodelim := 0, [], -1, [], 0, 0, 0, false, false;
    }

    /** Characters are ASCII, and NUL comes last if at all. */
    static predicate TextOk(p: seq<int>) {
      (forall i | 0 <= i < |p| :: 0 <= p[i] < 128) && forall i | 0 <= i < |p| - 1 :: p[i] != 0
    }

    ghost predicate Valid()
      reads this
    {
      TextOk(p) && pos <= |p| && -1 <= lastep < |code| && Stack(bracket, ebra, nbra) && ebra == closed
    }

    /** GETC */
    method Getc() returns (ok: bool, c: int)
      requires pos <= |p|
      modifies this`pos
      ensures ok == (old(pos) < |p|) && pos <= |p|
      ensures ok ==> c == p[old(pos)] && pos == old(pos) + 1
      ensures !ok ==> pos == old(pos)
    {
      ok, c := pos < |p|, 0;
      if ok {
        c := p[pos];
        pos := pos + 1;
      }
    }

    /** PEEKC */
    method Peekc() returns (c: int)
      requires pos <= |p|
      ensures c == if pos < |p| then p[pos] else -1
    {
      c := -1;
      if pos < |p| {
        c := p[pos];
      }
    }

    // Classes.

    /** From start to i the elements of a class have been seen: s, and lc last. */
    ghost predicate Seen(start: nat, i: nat, lc: int, s: set<int>) {
      start <= i <= |p| && Elements(p[start..], 0, {}) == Plus(Elements(p[i..], lc, s), i - start)
    }

    /** The same where a bracket would end the class. */
    ghost predicate SeenAll(start: nat, i: nat, lc: int, s: set<int>) {
      start <= i <= |p| &&
      var e := Elements(p[start..], 0, {});
      if i == |p| then e.Bad?
      else if p[i] == RBRACK then e == Scanned(s, i + 1 - start)
      else Seen(start, i, lc, s)
    }

    lemma SeenStep(start: nat, i: nat, lc: int, s: set<int>)
      requires i < |p| && Seen(start, i, lc, s)
      ensures var e := Elements(p[start..], 0, {});
        if p[i] == 0 || p[i] == NEWLINE then e.Bad?
        else if p[i] == DASH && lc != 0 then
          if i + 1 == |p| then e.Bad?
          else if p[i + 1] == RBRACK then e == Scanned(s + {DASH}, i + 2 - start)
          else SeenAll(start, i + 2, p[i + 1], s + Span(lc, p[i + 1]) + {p[i + 1]})
        else SeenAll(start, i + 1, p[i], s + {p[i]})
    {
      hide Elements, Rest, Span;
      ElementsIs(i, lc, s);
      if p[i] == DASH && lc != 0 {
        if i + 1 < |p| {
          RestIs(i + 2, p[i + 1], s + Span(lc, p[i + 1]) + {p[i + 1]});
        }
      } else {
        RestIs(i + 1, p[i], s + {p[i]});
      }
    }

    lemma ElementsIs(i: nat, lc: int, s: set<int>)
      requires i < |p|
      ensures Elements(p[i..], lc, s) ==
        if p[i] == 0 || p[i] == NEWLINE then Bad
        else if p[i] == DASH && lc != 0 then
          if i + 1 == |p| then Bad
          else if p[i + 1] == RBRACK then Scanned(s + {DASH}, 2)
          else Plus(Rest(p[i + 2..], p[i + 1], s + Span(lc, p[i + 1]) + {p[i + 1]}), 2)
        else Plus(Rest(p[i + 1..], p[i], s + {p[i]}), 1)
    {
      assert p[i..][1..] == p[i + 1..];
      assert i + 1 < |p| ==> p[i..][2..] == p[i + 2..];
    }

    lemma RestIs(i: nat, lc: int, s: set<int>)
      requires i <= |p|
      ensures Rest(p[i..], lc, s) ==
        if i == |p| then Bad else if p[i] == RBRACK then Scanned(s, 1) else Elements(p[i..], lc, s)
    {
    }

    lemma SeenStart(start: nat)
      requires start <= |p|
      ensures Seen(start, start, 0, {}) && (start == |p| ==> Elements(p[start..], 0, {}).Bad?)
    {
    }

    /** The elements of a class, from start on: the bits of what they stand for. */
    method ReadElements() returns (st: Status, bits: seq<int>)
      requires TextOk(p) && pos <= |p|
      modifies this`pos
      ensures pos <= |p| && var e := Elements(p[old(pos)..], 0, {});
        (st.More? <==> e.Scanned?) && (st.More? ==> pos == old(pos) + e.n && bits == Bitmap(e.s))
      ensures !st.Ended? && !st.Same?
    {
      hide Elements, Rest, Bitmap, Span, TextOk, Seen;
      AsciiText();
      ghost var start, s := pos, {};
      var lc := 0;
      bits := seq(16, _ => 0);
      NoBits();
      SeenStart(start);
      var ok, c := Getc();
      if !ok {
        return Beyond, bits;
      }
      while true
        invariant start < pos <= |p| && c == p[pos - 1] && 0 <= lc < 128
        invariant bits == Bitmap(s) && Seen(start, pos - 1, lc, s)
        decreases |p| - pos
      {
        SeenStep(start, pos - 1, lc, s);
        if c == 0 || c == NEWLINE {
          return Error(49), bits;
        }
        if c == DASH && lc != 0 {
          ok, c := Getc();
          if !ok {
            return Beyond, bits;
          }
          if c == RBRACK {
            bits := Place(bits, DASH, s);
            return More, bits;
          }
          bits, s := PlaceSpan(bits, lc, c, s);
        }
        lc := c;
        bits := Place(bits, c, s);
        s := s + {c};
        ok, c := Getc();
        if !ok {
          return Beyond, bits;
        }
        if c == RBRACK {
          return More, bits;
        }
      }
    }

    method Place(bits: seq<int>, c: int, ghost s: set<int>) returns (bits': seq<int>)
      requires 0 <= c < 128 && bits == Bitmap(s)
      ensures bits' == Bitmap(s + {c})
    {
      PlaceBit(s, c);
      bits' := bits[c / 8 := SetBit(bits[c / 8], c % 8)];
    }

    /** Places the characters from lc up to, but not including, c. */
    method PlaceSpan(bits0: seq<int>, lc0: int, c: int, ghost s0: set<int>) returns (bits: seq<int>, ghost s: set<int>)
      requires 0 <= lc0 && c < 128 && bits0 == Bitmap(s0)
      ensures s == s0 + Span(lc0, c) && bits == Bitmap(s)
    {
      hide Bitmap;
      bits, s := bits0, s0;
      var lc := lc0;
      while lc < c
        invariant lc0 <= lc && (lc0 <= c ==> lc <= c) && (c < lc0 ==> lc == lc0)
        invariant s == s0 + Span(lc0, lc) && bits == Bitmap(s)
        decreases c - lc
      {
        bits := Place(bits, lc, s);
        s := s + {lc};
        lc := lc + 1;
      }
      assert c < lc0 ==> Span(lc0, lc0) == Span(lc0, c);
    }

    lemma AsciiText()
      requires TextOk(p)
      ensures forall i | 0 <= i < |p| :: 0 <= p[i] < 128
    {
    }

    lemma NoBits()
      ensures seq(16, _ => 0) == Bitmap({})
    {
    }

    /** The text at i goes on with s. */
    ghost predicate Has(i: nat, s: seq<int>) {
      i + |s| <= |p| && p[i..i + |s|] == s
    }

    /** The text at i goes on with the token's. */
    ghost predicate TextAt(i: nat, t: Token) {
      TokOk(t) && Has(i, Spell(t))
    }

    /** A class: the bracket at i has been read. */
    method ReadClass(ghost i: nat, ghost want: Token) returns (st: Status, ghost t: Token)
      requires TextOk(p) && pos == i + 1 <= |p| && p[i] == LBRACK
      modifies this`pos, this`code
      ensures pos <= |p| && !st.Ended? && !st.Same?
      ensures st.More? ==> t.ClassT? && TextAt(i, t) && pos == i + |Spell(t)|
      ensures st.More? ==> code == old(code) + [CCL] + Bitmap(ClassSet(t.neg, t.body))
      ensures !st.More? ==> code == old(code)
      ensures want.ClassT? && TextAt(i, want) && |old(code)| + 17 < room ==> st.More? && t == want
    {
      hide Elements, Spell, TokOk, ClassSet, Bitmap, Span, TextAt, TextOk;
      t := DotT;
      if |code| + 17 >= room {
        return Error(50), t;
      }
      var peek := Peekc();
      var neg := peek == CIRC;
      if neg {
        var ok, c := Getc();
      }
      ghost var start := pos;
      var bits;
      if want.ClassT? && TextAt(i, want) {
        WantedClass(i, neg, want);
      }
      st, bits := ReadElements();
      if st.More? {
        t := ReadIsClass(i, start, pos, neg);
        if neg {
          bits := Complement(bits, Elements(p[start..], 0, {}).s);
        }
        code := code + [CCL] + bits;
      }
    }

    /** Inverts the bits, but for that of NUL. */
    method Complement(bits0: seq<int>, ghost s: set<int>) returns (bits: seq<int>)
      requires bits0 == Bitmap(s)
      ensures bits == Bitmap(Span(1, 128) - s)
    {
      hide ByteOf, Span;
      bits := bits0;
      for cclcnt := 0 to 16
        invariant |bits| == 16
        invariant forall i | 0 <= i < 16 :: bits[i] == if i < cclcnt then ByteOf(Span(0, 128) - s, i) else ByteOf(s, i)
      {
        ComplementByte(s, cclcnt);
        bits := bits[cclcnt := 255 - bits[cclcnt]];
      }
      WithoutNul(Span(0, 128) - s);
      assert Span(0, 128) - s - {0} == Span(1, 128) - s;
      bits := bits[0 := bits[0] - bits[0] % 2];
    }

    lemma HasConcat(i: nat, s: seq<int>, t: seq<int>)
      ensures Has(i, s + t) <==> Has(i, s) && Has(i + |s|, t)
    {
      if Has(i, s + t) {
        assert p[i..i + |s| + |t|][..|s|] == s;
        assert p[i..i + |s| + |t|][|s|..] == t;
      }
    }

    lemma HasHead(i: nat, s: seq<int>)
      requires Has(i, s) && s != []
      ensures i + |s| <= |p| && p[i] == s[0]
    {
    }

    lemma HasTwo(i: nat, c: int, d: int)
      ensures Has(i, [c, d]) <==> i + 1 < |p| && p[i] == c && p[i + 1] == d
    {
    }

    lemma NumberParts(i: nat, d: seq<int>)
      ensures NumberAt(i, d) <==>
        Digits(d) && Has(i, d) && i + |d| < |p| && (p[i + |d|] == BSLASH || p[i + |d|] == COMMA)
    {
    }

    /** The text of a class, piece by piece. */
    lemma ClassText(i: nat, t: Token)
      requires t.ClassT?
      ensures var start := if t.neg then i + 2 else i + 1;
        && |Spell(t)| == start - i + |t.body| + 1
        && (Has(i, Spell(t)) <==>
          Has(i, [LBRACK]) && (t.neg ==> Has(i + 1, [CIRC])) && Has(start, t.body) && Has(start + |t.body|, [RBRACK]))
    {
      hide Has;
      var neg := if t.neg then [CIRC] else [];
      HasConcat(i, [LBRACK] + neg + t.body, [RBRACK]);
      HasConcat(i, [LBRACK] + neg, t.body);
      if t.neg {
        HasConcat(i, [LBRACK], [CIRC]);
      } else {
        assert [LBRACK] + neg == [LBRACK];
      }
    }

    /** What is wanted of a class is what will be read. */
    lemma WantedClass(i: nat, neg: bool, want: Token)
      requires i + 1 <= |p| && p[i] == LBRACK && neg == (i + 1 < |p| && p[i + 1] == CIRC)
      requires want.ClassT? && TextAt(i, want)
      ensures neg == want.neg
      ensures var start := if neg then i + 2 else i + 1;
        var e := Elements(p[start..], 0, {});
        e.Scanned? && e.n == |want.body| + 1 && start + e.n <= |p| && p[start..start + e.n - 1] == want.body
    {
      hide Elements, Spell;
      ClassText(i, want);
      if !want.neg {
        assert want.body[0] == p[i + 1];
      }
      var start := if want.neg then i + 2 else i + 1;
      var end := start + |want.body| + 1;
      assert p[start..] == (want.body + [RBRACK]) + p[end..];
      ElementsLocal(want.body + [RBRACK], p[end..], 0, {});
    }

    /** What has been read of a class is one. */
    lemma ReadIsClass(i: nat, start: nat, end: nat, neg: bool) returns (t: Token)
      requires TextOk(p) && i < |p| && p[i] == LBRACK && neg == (i + 1 < |p| && p[i + 1] == CIRC)
      requires start == (if neg then i + 2 else i + 1) <= end <= |p|
      requires Elements(p[start..], 0, {}).Scanned? && end == start + Elements(p[start..], 0, {}).n
      ensures start < end && t == ClassT(neg, p[start..end - 1]) && TextAt(i, t) && end == i + |Spell(t)|
      ensures var s := Elements(p[start..], 0, {}).s; ClassSet(t.neg, t.body) == if neg then Span(1, 128) - s else s
    {
      hide Elements, Spell, Span;
      ElementsPrefix(p[start..], 0, {});
      var body := p[start..end - 1];
      assert p[start..][..end - start] == body + [RBRACK];
      BodyBegins(neg, body);
      t := ClassT(neg, body);
      ClassText(i, t);
      assert p[start..][end - 1 - start] == p[end - 1];
      assert Has(i, [LBRACK]) && (neg ==> Has(i + 1, [CIRC])) && Has(start, body) && Has(start + |body|, [RBRACK]);
      assert TokOk(t);
    }

    /** A class has an element, and begins with what is not a circumflex where that was looked for. */
    lemma BodyBegins(neg: bool, body: seq<int>)
      requires Elements(body + [RBRACK], 0, {}).Scanned? && Elements(body + [RBRACK], 0, {}).n == |body| + 1
      ensures body != []
    {
    }

    // Ranges.

    /** The text at i is the number d and a delimiter. */
    ghost predicate NumberAt(i: nat, d: seq<int>) {
      Digits(d) && Has(i, d) && i + |d| < |p| && (p[i + |d|] == BSLASH || p[i + |d|] == COMMA)
    }

    /** A number and the character after it. */
    method ReadNumber(ghost want: seq<int>) returns (st: Status, i: int, c: int, ghost d: seq<int>)
      requires pos <= |p|
      modifies this`pos
      ensures pos <= |p| && !st.Ended? && !st.Same?
      ensures st.More? ==> NumberAt(old(pos), d) && pos == old(pos) + |d| + 1 && c == p[pos - 1] && i == Number(d)
      ensures NumberAt(old(pos), want) ==> st.More? && d == want
    {
      hide *;
      ghost var start := pos;
      i, d := 0, [];
      NumberBegins(start, want);
      var ok;
      ok, c := Getc();
      if !ok {
        return Beyond, i, c, d;
      }
      while true
        invariant start < pos <= |p| && c == p[pos - 1] && Gone(start, pos - 1, i, d)
        invariant d != [] ==> c != BSLASH && c != COMMA
        decreases |p| - pos
      {
        GoesOn(start, pos - 1, i, d, want);
        if !IsDigit(c) {
          return Error(16), i, c, d;
        }
        OneMore(start, pos - 1, i, d, c);
        i := 10 * i + c - ZERO;
        d := d + [c];
        GoesOn(start, pos, i, d, want);
        ok, c := Getc();
        if !ok {
          return Beyond, i, c, d;
        }
        if c == BSLASH || c == COMMA {
          break;
        }
      }
      st := More;
      GoesOn(start, pos - 1, i, d, want);
      NumberEnds(start, pos - 1, i, d);
    }

    /** The digits d from start up to k have been read; i is their number. */
    ghost predicate Gone(start: nat, k: nat, i: int, d: seq<int>) {
      start <= k <= |p| && d == p[start..k] && i == Number(d) && AllDigits(d)
    }

    lemma NumberBegins(start: nat, want: seq<int>)
      requires start <= |p|
      ensures Gone(start, start, 0, [])
      ensures NumberAt(start, want) ==> start < |p|
    {
      NoDigits();
      NumberIs(start, start, want);
    }

    /** While there are digits the number goes on. */
    lemma GoesOn(start: nat, k: nat, i: int, d: seq<int>, want: seq<int>)
      requires Gone(start, k, i, d)
      ensures |d| == k - start
      ensures k < |p| && NumberAt(start, want) && (!IsDigit(p[k]) || p[k] == BSLASH || p[k] == COMMA) ==>
        d == want && d != [] && (p[k] == BSLASH || p[k] == COMMA)
      ensures NumberAt(start, want) ==> k < |p|
    {
      hide Number, Digits, NumberAt;
      NumberIs(start, k, want);
    }

    lemma OneMore(start: nat, k: nat, i: int, d: seq<int>, c: int)
      requires Gone(start, k, i, d) && k < |p| && c == p[k] && IsDigit(c)
      ensures Gone(start, k + 1, 10 * i + c - ZERO, d + [c])
    {
      hide Number;
      NextDigit(d, c);
      SliceSnoc(start, k);
    }

    lemma NumberEnds(start: nat, k: nat, i: int, d: seq<int>)
      requires Gone(start, k, i, d) && start < k < |p| && (p[k] == BSLASH || p[k] == COMMA)
      ensures NumberAt(start, d) && i == Number(d) && |d| == k - start
    {
      hide Number;
      NumberHere(start, k, d);
    }

    lemma SliceSnoc(i: nat, k: nat)
      requires i <= k < |p|
      ensures p[i..k + 1] == p[i..k] + [p[k]]
    {
    }

    /** A number of which this much has been read. */
    lemma NumberIs(start: nat, k: nat, want: seq<int>)
      requires start <= k <= |p| && AllDigits(p[start..k])
      ensures NumberAt(start, want) ==>
        var e := start + |want|;
        want != [] && k <= e < |p| && (p[e] == BSLASH || p[e] == COMMA) && (k < e ==> IsDigit(p[k])) &&
          (k == e ==> p[start..k] == want)
    {
      if NumberAt(start, want) {
        var e := start + |want|;
        DigitsAll(want);
        if k > e {
          assert false;
        }
        if k < e {
          assert want[k - start] == p[k];
        }
      }
    }

    lemma NumberHere(start: nat, k: nat, d: seq<int>)
      requires start < k < |p| && d == p[start..k] && AllDigits(d) && (p[k] == BSLASH || p[k] == COMMA)
      ensures NumberAt(start, d) && !IsDigit(p[k])
    {
      DigitsAll(d);
    }

    static predicate AllDigits(d: seq<int>) {
      forall i | 0 <= i < |d| :: IsDigit(d[i])
    }

    static lemma NoDigits()
      ensures Number([]) == 0 && AllDigits([])
    {
    }

    static lemma NextDigit(d: seq<int>, c: int)
      requires AllDigits(d) && IsDigit(c)
      ensures AllDigits(d + [c]) && Number(d + [c]) == 10 * Number(d) + c - ZERO
    {
      assert (d + [c])[..|d|] == d;
    }

    static lemma DigitsAll(d: seq<int>)
      ensures Digits(d) <==> d != [] && AllDigits(d)
    {
    }

    /** What comes after the first number of a range. */
    ghost predicate RangeTail(k: nat, t: Token)
      requires IsRange(t)
    {
      match t
      case ExactT(_) => Has(k, [BSLASH, RBRACE])
      case LeastT(_) => Has(k, [COMMA, BSLASH, RBRACE])
      case BetweenT(_, b) => Has(k, [COMMA]) && Has(k + 1, b) && Has(k + 1 + |b|, [BSLASH, RBRACE])
    }

    /** The text of a range, piece by piece. */
    lemma RangeText(i: nat, t: Token)
      requires IsRange(t)
      ensures TextAt(i, t) <==> TokOk(t) && Has(i, [BSLASH, LBRACE]) && Has(i + 2, t.a) && RangeTail(i + 2 + |t.a|, t)
      ensures |Spell(t)| == 2 + |t.a| + if t.ExactT? then 2 else if t.LeastT? then 3 else 3 + |t.b|
    {
      hide Has, TokOk;
      var front := [BSLASH, LBRACE] + t.a;
      HasConcat(i, [BSLASH, LBRACE], t.a);
      match t
      case ExactT(_) => HasConcat(i, front, [BSLASH, RBRACE]);
      case LeastT(_) => HasConcat(i, front, [COMMA, BSLASH, RBRACE]);
      case BetweenT(_, b) =>
        HasConcat(i, front + [COMMA] + b, [BSLASH, RBRACE]);
        HasConcat(i, front + [COMMA], b);
        HasConcat(i, front, [COMMA]);
    }

    /** Ranges are all right if their numbers are. */
    static lemma RangeOk(t: Token)
      ensures t.ExactT? || t.LeastT? ==> (TokOk(t) <==> Digits(t.a) && Number(t.a) <= 255)
      ensures t.BetweenT? ==> (TokOk(t) <==> Digits(t.a) && Digits(t.b) && Number(t.a) <= Number(t.b) <= 255)
    {
    }

    /** A range: the backslash at i and the brace after it have been read. */
    method ReadRange(ghost i: nat, ghost want: Token) returns (st: Status, ghost t: Token)
      requires pos == i + 2 <= |p| && p[i] == BSLASH && p[i + 1] == LBRACE && 0 <= lastep < |code|
      modifies this`pos, this`code
      ensures pos <= |p| && !st.Ended? && !st.Same?
      ensures st.More? ==> IsRange(t) && TextAt(i, t) && pos == i + |Spell(t)|
      ensures st.More? ==> code == old(code)[lastep := OrRnge(old(code)[lastep])] + [Lo(t), Hi(t)]
      ensures |code| >= |old(code)|
      ensures IsRange(want) && TextAt(i, want) ==> st.More? && t == want
    {
      hide Number, Digits, NumberAt, Spell, OrRnge, TokOk, TextAt, Has;
      t := DotT;
      code := code[lastep := OrRnge(code[lastep])];
      ghost var a := if IsRange(want) then want.a else [];
      if IsRange(want) && TextAt(i, want) {
        WantedRange(i, want);
      }
      var lo, c;
      st, lo, c, a := ReadNumber(a);
      if !st.More? {
        return;
      }
      if lo > 255 {
        return Error(11), t;
      }
      NumberParts(i + 2, a);
      HasTwo(i, BSLASH, LBRACE);
      RangeOk(ExactT(a));
      RangeText(i, ExactT(a));
      code := code + [lo];
      if c == COMMA {
        st, t := ReadUpper(i, a, lo, want);
      } else {
        t := ExactT(a);
        st := ReadClosing(i, t, want);
        code := code + [lo];
      }
    }

    /** A wanted range has its number here. */
    lemma WantedRange(i: nat, want: Token)
      requires IsRange(want) && TextAt(i, want)
      ensures NumberAt(i + 2, want.a) && Number(want.a) <= 255
      ensures p[i + 2 + |want.a|] == BSLASH <==> want.ExactT?
    {
      hide Number, Digits, TokOk, Spell, Has, TextAt, NumberAt;
      RangeText(i, want);
      RangeOk(want);
      NumberParts(i + 2, want.a);
      var k := i + 2 + |want.a|;
      HasHead(k, if want.ExactT? then [BSLASH, RBRACE] else if want.LeastT? then [COMMA, BSLASH, RBRACE] else [COMMA]);
    }

    /** The brace that closes a range. */
    method ReadClosing(ghost i: nat, ghost t: Token, ghost want: Token) returns (st: Status)
      requires pos <= |p| && IsRange(t) && TokOk(t) && pos + 1 == i + |Spell(t)|
      requires Has(i, [BSLASH, LBRACE]) && Has(i + 2, t.a) && p[pos - 1] == BSLASH
      requires !t.ExactT? ==> p[i + 2 + |t.a|] == COMMA
      requires t.BetweenT? ==> Has(i + 3 + |t.a|, t.b)
      modifies this`pos
      ensures pos <= |p| && !st.Ended? && !st.Same?
      ensures st.More? ==> pos == old(pos) + 1 && TextAt(i, t)
      ensures t == want && TextAt(i, want) ==> st.More?
    {
      hide Spell, TokOk, TextAt;
      RangeText(i, t);
      var ok, c := Getc();
      if !ok {
        return Beyond;
      }
      if c != RBRACE {
        return Error(45);
      }
      st := More;
    }

    /** The upper bound of a range, if it has one. */
    method ReadUpper(ghost i: nat, ghost a: seq<int>, lo: int, ghost want: Token) returns (st: Status, ghost t: Token)
      requires pos == i + 3 + |a| <= |p| && Has(i, [BSLASH, LBRACE]) && Has(i + 2, a) && p[pos - 1] == COMMA
      requires Digits(a) && lo == Number(a) <= 255 && |code| > 0 && code[|code| - 1] == lo
      modifies this`pos, this`code
      ensures pos <= |p| && !st.Ended? && !st.Same? && old(code) <= code
      ensures st.More? ==>
        IsRange(t) && TextAt(i, t) && pos == i + |Spell(t)| && Lo(t) == lo && code == old(code) + [Hi(t)]
      ensures (want.LeastT? || want.BetweenT?) && want.a == a && TextAt(i, want) ==> st.More? && t == want
    {
      hide Number, Digits, NumberAt, TokOk, TextAt, Has, Spell;
      t := LeastT(a);
      RangeOk(t);
      RangeText(i, t);
      if (want.LeastT? || want.BetweenT?) && want.a == a && TextAt(i, want) {
        WantedUpper(i, want);
      }
      var ok, c := Getc();
      if !ok {
        return Beyond, t;
      }
      if c == BSLASH {
        code := code + [255];
        st := ReadClosing(i, t, want);
      } else {
        pos := pos - 1;
        ghost var b := if want.BetweenT? then want.b else [];
        var hi;
        st, hi, c, b := ReadNumber(b);
        if !st.More? {
          return;
        }
        if hi > 255 {
          return Error(11), t;
        }
        code := code + [hi];
        if c == COMMA {
          return Error(44), t;
        }
        NumberParts(i + 3 + |a|, b);
        st, t := ReadOrder(i, a, b, want);
      }
    }

    /** The end of a range with two bounds. */
    method ReadOrder(ghost i: nat, ghost a: seq<int>, ghost b: seq<int>, ghost want: Token)
      returns (st: Status, ghost t: Token)
      requires pos == i + 4 + |a| + |b| <= |p| && Has(i, [BSLASH, LBRACE]) && Has(i + 2, a) && p[i + 2 + |a|] == COMMA
      requires Digits(a) && Number(a) <= 255 && NumberAt(i + 3 + |a|, b) && p[pos - 1] == BSLASH && Number(b) <= 255
      requires |code| > 1 && code[|code| - 2] == Number(a) && code[|code| - 1] == Number(b)
      modifies this`pos
      ensures pos <= |p| && !st.Ended? && !st.Same?
      ensures st.More? ==> t == BetweenT(a, b) && TextAt(i, t) && pos == i + |Spell(t)|
      ensures want == BetweenT(a, b) && TextAt(i, want) ==> st.More? && t == want
    {
      hide Number, Digits, TokOk, TextAt, Has, Spell;
      t := BetweenT(a, b);
      RangeOk(t);
      RangeText(i, t);
      if want == t && TextAt(i, want) {
        WantedUpper(i, want);
      }
      if code[|code| - 1] < code[|code| - 2] {
        return Error(46), t;
      }
      st := ReadClosing(i, t, want);
    }

    /** A wanted bound is here, or its absence. */
    lemma WantedUpper(i: nat, want: Token)
      requires (want.LeastT? || want.BetweenT?) && TextAt(i, want)
      ensures var k := i + 3 + |want.a|; k < |p| && (want.LeastT? <==> p[k] == BSLASH)
      ensures want.BetweenT? ==>
        var k := i + 3 + |want.a|;
        NumberAt(k, want.b) && p[k + |want.b|] == BSLASH && Number(want.a) <= Number(want.b) <= 255
    {
      hide Number, Digits, TokOk, Spell, TextAt, NumberAt;
      RangeText(i, want);
      RangeOk(want);
      var k := i + 3 + |want.a|;
      if want.BetweenT? {
        NumberParts(k, want.b);
        DigitsAll(want.b);
        HasHead(k + |want.b|, [BSLASH, RBRACE]);
        assert IsDigit(want.b[0]);
        HasHead(k, want.b);
      }
    }

    // The rest.

    /** What a wanted token begins with says which it is. */
    lemma WantedKind(i: nat, want: Token)
      requires TextAt(i, want)
      ensures i < |p| && p[i] == Spell(want)[0] && p[i] != 0
      ensures (p[i] == DOT_CH <==> want.DotT?) && (p[i] == STAR_CH <==> want.StarT?)
      ensures (p[i] == LBRACK <==> want.ClassT?)
      ensures p[i] == DOLLAR <==> want.DolT? || want == Plain(DOLLAR)
      ensures p[i] !in {DOT_CH, STAR_CH, LBRACK, DOLLAR, BSLASH} ==> want == Plain(p[i])
      ensures p[i] != NEWLINE
      ensures p[i] == BSLASH ==> i + 1 < |p| && p[i + 1] == Spell(want)[1] && !want.Plain?
    {
      hide BodyOk, Digits, Number, Elements, Ascii;
    }

    lemma WantedEscape(i: nat, want: Token)
      requires TextAt(i, want) && p[i] == BSLASH && i + 1 < |p| && p[i + 1] == Spell(want)[1] && !want.Plain?
      requires !want.DotT? && !want.StarT? && !want.ClassT? && !want.DolT?
      ensures var c := p[i + 1];
        && (c == LPAREN <==> want.OpenT?) && (c == RPAREN <==> want.CloseT?) && (c == LETTER_N <==> want.Newline?)
        && (c == LBRACE <==> IsRange(want) || want == Quoted(LBRACE)) && c != NEWLINE && c != 0
        && (ZERO + 1 <= c <= ZERO + 9 <==> want.BackT?) && (want.BackT? ==> want.d == c - ZERO - 1)
        && (c !in {LPAREN, RPAREN, LETTER_N, LBRACE} && !(ZERO + 1 <= c <= ZERO + 9) ==> want == Quoted(c))
    {
      hide BodyOk, Digits, Number, Elements, Ascii;
    }

    /** A token of one character or two. */
    lemma ShortText(i: nat, t: Token)
      requires TokOk(t) && |Spell(t)| <= 2 && i + |Spell(t)| <= |p| && Spell(t) != []
      requires p[i] == Spell(t)[0] && (|Spell(t)| == 2 ==> p[i + 1] == Spell(t)[1])
      ensures TextAt(i, t)
    {
      hide TokOk, Spell;
    }

    /** After a backslash at i; before is what lastep was when this began. */
    method ReadEscape(ghost i: nat, ghost want: Token, ghost before: int) returns (st: Status, ghost t: Token)
      requires TextOk(p) && pos == i + 1 <= |p| && p[i] == BSLASH && Stack(bracket, ebra, nbra) && closed == ebra
      requires -1 <= before < |code| && lastep == if i + 1 < |p| && p[i + 1] == LBRACE then before else |code|
      modifies this`pos, this`code, this`lastep, this`bracket, this`nbra, this`ebra, this`closed
      ensures pos <= |p| && !st.Ended? && !st.Same?
      ensures st.More? ==>
        TextAt(i, t) && pos == i + |Spell(t)| && Spell(t)[0] == BSLASH && Allowed(before, old(nbra), old(closed), t)
      ensures st.More? ==>
        code == Emitted(old(code), before, old(nbra), old(closed), t) && lastep == NewLast(old(code), before, t)
      ensures st.More? ==> Stack(bracket, ebra, nbra) && closed == ebra
      ensures st.More? ==>
        nbra == old(nbra) + (if t.OpenT? then 1 else 0) && closed == old(closed) + if t.CloseT? then 1 else 0
      ensures TextAt(i, want) && Allowed(before, old(nbra), old(closed), want) ==> st.More? && t == want
    {
      hide BodyOk, Digits, Number, Elements, Ascii, TextAt, OrRnge, OrStar, ClassSet, Bitmap, Stack, TextOk;
      t := DotT;
      if TextAt(i, want) {
        WantedKind(i, want);
        WantedEscape(i, want);
      }
      var ok, c := Getc();
      if !ok {
        return Beyond, t;
      }
      if c == LPAREN || c == RPAREN {
        t := if c == LPAREN then OpenT else CloseT;
        st := ReadGroup(c);
        if !st.More? {
          return;
        }
      } else if c == LBRACE && lastep != -1 {
        st, t := ReadRange(i, want);
        return;
      } else if c == NEWLINE {
        return Error(36), t;
      } else if c == LETTER_N {
        t := Newline;
        lastep := |code|;
        code := code + [CCHR, NEWLINE];
      } else if ZERO + 1 <= c <= ZERO + 9 {
        if c - ZERO - 1 >= closed {
          return Error(25), t;
        }
        t := BackT(c - ZERO - 1);
        code := code + [CBACK, c - ZERO - 1];
      } else {
        if c == 0 {
          return Beyond, t;
        }
        t := Quoted(c);
        lastep := |code|;
        code := code + [CCHR, c];
      }
      ShortText(i, t);
      st := More;
    }

    /** The beginning or the end of a group. */
    method ReadGroup(c: int) returns (st: Status)
      requires (c == LPAREN || c == RPAREN) && Stack(bracket, ebra, nbra) && closed == ebra
      modifies this`bracket, this`code, this`nbra, this`ebra, this`closed
      ensures st.More? || st == Error(42) || st == Error(43)
      ensures st.More? <==> if c == LPAREN then old(nbra) < NBRA else old(nbra) == old(closed) + 1
      ensures st.More? ==> code == old(code) + if c == LPAREN then [CBRA, old(nbra)] else [CKET, old(closed)]
      ensures st.More? ==> Stack(bracket, ebra, nbra) && closed == ebra
      ensures st.More? ==>
        nbra == old(nbra) + (if c == LPAREN then 1 else 0) && closed == old(closed) + if c == RPAREN then 1 else 0
    {
      if c == LPAREN {
        if nbra >= NBRA {
          return Error(43);
        }
        bracket := bracket + [nbra];
        code := code + [CBRA, nbra];
        nbra := nbra + 1;
      } else {
        if |bracket| == 0 {
          return Error(42);
        }
        ebra := ebra + 1;
        if ebra != nbra {
          return Error(42);
        }
        code := code + [CKET, bracket[|bracket| - 1]];
        bracket := bracket[..|bracket| - 1];
        closed := closed + 1;
      }
      st := More;
    }

    static predicate Stack(bracket: seq<int>, ebra: int, nbra: int) {
      0 <= ebra <= nbra <= NBRA && |bracket| == nbra - ebra && forall i | 0 <= i < |bracket| :: bracket[i] == ebra + i
    }

    /** The token may come next at i: it does not begin with the delimiter, and there is room. */
    ghost predicate Wanted(i: nat, want: Token)
      reads this
    {
      TextAt(i, want) && Spell(want)[0] != eof && Allowed(lastep, nbra, closed, want) && Fits(i, want, |code|)
    }

    /** A dollar fits its place, and there is room after n bytes of code. */
    ghost predicate Fits(i: nat, want: Token, n: nat) {
      DollarFits(want, i + |Spell(want)|) && n + (if want.ClassT? then 17 else 0) < room
    }

    /** A dollar is an anchor where the pattern ends after it. */
    ghost predicate DollarFits(t: Token, k: nat) {
      var ends := k < |p| && (p[k] == eof || p[k] == NEWLINE);
      (t == DolT ==> ends) && (t == Plain(DOLLAR) ==> !ends)
    }

    /** A character that is no escape and begins no class: c at i, before what was lastep. */
    method ReadPlain(ghost i: nat, c: int, peek: int, ghost want: Token, ghost before: int)
      returns (st: Status, ghost t: Token)
      requires TextOk(p) && pos == i + 1 <= |p| && c == p[i] && peek == (if pos < |p| then p[pos] else -1)
      requires c != NEWLINE && c != BSLASH && c != LBRACK && c != eof
      requires -1 <= before < |code| && lastep == if c == STAR_CH then before else |code|
      modifies this`code, this`lastep
      ensures st.More? || st.Beyond?
      ensures st.More? ==> TextAt(i, t) && pos == i + |Spell(t)| && Spell(t)[0] == c && DollarFits(t, pos)
      ensures st.More? ==> t.Plain? || t.DotT? || t.StarT? || t.DolT?
      ensures st.More? ==>
        code == Emitted(old(code), before, nbra, closed, t) && lastep == NewLast(old(code), before, t)
      ensures TextAt(i, want) && DollarFits(want, i + |Spell(want)|) ==> st.More? && t == want
    {
      hide BodyOk, Digits, Number, Elements, Ascii, TextAt, OrRnge, OrStar, ClassSet, Bitmap, TextOk;
      t := DotT;
      if TextAt(i, want) {
        WantedKind(i, want);
      }
      if c == STAR_CH && !(lastep == -1 || code[lastep] == CBRA || code[lastep] == CKET) {
        code := code[lastep := OrStar(code[lastep])];
        t := StarT;
      } else if c == DOT_CH {
        code := code + [CDOT];
        t := DotT;
      } else if c == DOLLAR && (peek == eof || peek == NEWLINE) && pos < |p| {
        code := code + [CDOL];
        t := DolT;
      } else {
        if c == 0 {
          return Beyond, t;
        }
        t := if c == STAR_CH then StarT else Plain(c);
        lastep := |code|;
        code := code + [CCHR, c];
      }
      ShortText(i, t);
      st := More;
    }

    /** The token at i has been read, and its code added to what there was. */
    ghost predicate Took(i: nat, t: Token, code0: seq<int>, lastep0: int, nbra0: int, closed0: int)
      reads this
    {
      && Valid() && TextAt(i, t) && pos == i + |Spell(t)| && Spell(t)[0] != eof && DollarFits(t, pos)
      && -1 <= lastep0 < |code0| && Allowed(lastep0, nbra0, closed0, t)
      && code == Emitted(code0, lastep0, nbra0, closed0, t) && lastep == NewLast(code0, lastep0, t)
      && nbra == nbra0 + (if t.OpenT? then 1 else 0) && closed == closed0 + if t.CloseT? then 1 else 0
    }

    /** The token that begins with c at i. */
    method ReadAny(ghost i: nat, c: int, peek: int, ghost want: Token, ghost before: int)
      returns (st: Status, ghost t: Token)
      requires TextOk(p) && pos == i + 1 <= |p| && c == p[i] && peek == (if pos < |p| then p[pos] else -1)
      requires c != NEWLINE && c != eof && Stack(bracket, ebra, nbra) && closed == ebra && |code| < room
      requires -1 <= before < |code|
      requires lastep == if c == STAR_CH || (c == BSLASH && peek == LBRACE) then before else |code|
      modifies this`pos, this`code, this`lastep, this`bracket, this`nbra, this`ebra, this`closed
      ensures pos <= |p| && !st.Ended? && !st.Same?
      ensures st.More? ==> Took(i, t, old(code), before, old(nbra), old(closed))
      ensures TextAt(i, want) && Allowed(before, old(nbra), old(closed), want) && Fits(i, want, |old(code)|) ==>
        st.More? && t == want
    {
      hide TokOk, Elements, TextAt, Emitted, ClassSet, Bitmap, Stack, TextOk, Allowed, DollarFits, NewLast;
      ghost var was := code;
      if TextAt(i, want) {
        WantedKind(i, want);
      }
      if c == BSLASH {
        st, t := ReadEscape(i, want, before);
        if st.More? {
          EscapeKind(i, t);
        }
      } else if c == LBRACK {
        st, t := ReadClass(i, want);
        ClassKind(was, before, nbra, closed, t);
      } else {
        st, t := ReadPlain(i, c, peek, want, before);
        OneKind(before, nbra, closed, t);
      }
      if st.More? {
        EmittedLast(i, was, before, old(nbra), old(closed), t);
      }
    }

    /** The last operation is within the code. */
    lemma EmittedLast(i: nat, code: seq<int>, lastep: int, nbra: int, closed: int, t: Token)
      requires TextAt(i, t) && -1 <= lastep < |code| && Allowed(lastep, nbra, closed, t)
      ensures TokOk(t) && -1 <= NewLast(code, lastep, t) < |Emitted(code, lastep, nbra, closed, t)|
    {
      hide TokOk;
    }

    /** One token, or the end. */
    method ReadToken(ghost want: Token) returns (st: Status, ghost t: Token)
      requires Valid()
      modifies this`pos, this`code, this`lastep, this`bracket, this`nbra, this`ebra, this`closed, this`nodelim
      ensures pos <= |p| && !st.Same?
      ensures st.More? ==> Took(old(pos), t, old(code), old(lastep), old(nbra), old(closed))
      ensures st.Ended? ==> Ends(old(pos)) && code == old(code) + [CCEOF]
      ensures old(Wanted(pos, want)) ==> st.More? && t == want
      ensures Ends(old(pos)) && |old(code)| < room ==> st.Ended?
    {
      hide TokOk, Elements, TextAt, Emitted, ClassSet, Bitmap, Stack, Allowed, DollarFits, NewLast, Took;
      t := DotT;
      if |code| >= room {
        return Error(50), t;
      }
      ghost var i, before := pos, lastep;
      if TextAt(i, want) {
        WantedKind(i, want);
      }
      var ok, c := Getc();
      if !ok {
        return Beyond, t;
      }
      var peek := Peekc();
      if c != STAR_CH && (c != BSLASH || peek != LBRACE) {
        lastep := |code|;
      }
      if c == eof {
        code := code + [CCEOF];
        st := Ended;
      } else if c == NEWLINE && !sed {
        pos := pos - 1;
        code := code + [CCEOF];
        nodelim := true;
        st := Ended;
      } else if c == NEWLINE {
        st := Error(36);
      } else {
        st, t := ReadAny(i, c, peek, want, before);
      }
    }

    lemma EscapeKind(i: nat, t: Token)
      requires TextAt(i, t) && Spell(t)[0] == BSLASH
      ensures forall k :: DollarFits(t, k)
    {
      hide BodyOk, Digits, Number, Elements, Ascii;
    }

    lemma ClassKind(code: seq<int>, lastep: int, nbra: int, closed: int, t: Token)
      requires -1 <= lastep < |code|
      ensures t.ClassT? ==>
        Allowed(lastep, nbra, closed, t) && Spell(t)[0] == LBRACK && NewLast(code, lastep, t) == |code|
      ensures t.ClassT? ==> forall k :: DollarFits(t, k)
      ensures t.ClassT? && TokOk(t) ==>
        Emitted(code, lastep, nbra, closed, t) == code + [CCL] + Bitmap(ClassSet(t.neg, t.body))
    {
      hide ClassSet, Bitmap;
    }

    static lemma OneKind(lastep: int, nbra: int, closed: int, t: Token)
      ensures t.Plain? || t.DotT? || t.StarT? || t.DolT? ==> Allowed(lastep, nbra, closed, t)
    {
    }

    /** The tokens from from on have been read, up to i, and this is their code. */
    ghost predicate ReadUpTo(from: nat, read: seq<Token>, i: nat, code: seq<int>, lastep: int, nbra: int, closed: int) {
      && Has(from, SpellAll(read)) && i == from + |SpellAll(read)|
      && (forall t | t in read :: TokOk(t)) && Placed(read) && (read != [] ==> DollarFits(read[|read| - 1], i))
      && (read == [] <==> lastep == -1) && !Fold(read).Fail?
      && (Fold(read).Good? ==>
        Coded(Fold(read).items, code, lastep) && nbra == Opens(Fold(read).items) && closed == Closes(Fold(read).items))
    }

    ghost predicate Compiling(from: nat, read: seq<Token>)
      reads this
    {
      Valid() && ReadUpTo(from, read, pos, code, lastep, nbra, closed)
    }

    /** Every token but the last is in its place, and the last is so as far as it can be told. */
    ghost predicate Placed(read: seq<Token>) {
      forall i | 0 <= i < |read| ::
        Spell(read[i])[0] != eof && (read[i] == DolT ==> i == |read| - 1) &&
          (read[i] == Quoted(LBRACE) ==> i == 0) && (IsRange(read[i]) ==> i > 0)
    }

    /** The pattern ends here: with the delimiter, or for others than sed with the line. */
    ghost predicate Ends(k: nat) {
      k < |p| && (p[k] == eof || (p[k] == NEWLINE && !sed))
    }

    /** The text from from on is that of the tokens, which are a pattern that builds items for whose
        code there is room. */
    ghost predicate IsPattern(from: nat, ts: seq<Token>) {
      && Proper(ts, eof) && (forall t | t in ts :: TokOk(t)) && Fold(ts).Good? && |Codes(Fold(ts).items)| < room
      && Has(from, SpellAll(ts)) && Ends(from + |SpellAll(ts)|)
    }

    /** The next of the wanted tokens. */
    lemma NextWanted(from: nat, read: seq<Token>, ts: seq<Token>)
      requires Compiling(from, read) && IsPattern(from, ts) && read < ts
      ensures Wanted(pos, ts[|read|])
    {
      hide *;
      var k := |read|;
      assert ts[..k] == read;
      CompilingCode(from, read);
      PatternToken(from, ts, k);
      NextText(from, ts, k);
      NextAllowed(ts, k, code, lastep);
      WantedIs(pos, ts[k]);
    }

    lemma WantedIs(i: nat, t: Token)
      requires TextAt(i, t) && Spell(t)[0] != eof && Allowed(lastep, nbra, closed, t) && DollarFits(t, i + |Spell(t)|)
      requires |code| + (if t.ClassT? then 17 else 0) < room
      ensures Wanted(i, t)
    {
    }

    lemma CompilingCode(from: nat, read: seq<Token>)
      requires Compiling(from, read)
      ensures (forall t | t in read :: TokOk(t)) && pos == from + |SpellAll(read)|
      ensures Fold(read).Good? ==>
        Coded(Fold(read).items, code, lastep) && nbra == Opens(Fold(read).items) && closed == Closes(Fold(read).items)
    {
      hide TokOk, Fold;
    }

    lemma PatternToken(from: nat, ts: seq<Token>, k: nat)
      requires IsPattern(from, ts) && k < |ts|
      ensures (forall t | t in ts :: TokOk(t)) && Fold(ts).Good?
      ensures |Codes(Fold(ts).items)| < room && Has(from, SpellAll(ts))
      ensures Spell(ts[k])[0] != eof && (ts[k] == Quoted(LBRACE) ==> k == 0) && (IsRange(ts[k]) ==> k > 0)
    {
      hide TokOk, Fold, Codes;
      assert InPlace(ts, k, eof);
    }

    lemma SubText(from: nat, all: seq<int>, i: nat, s: seq<int>)
      requires Has(from, all) && i + |s| <= |all| && all[i..i + |s|] == s
      ensures Has(from + i, s)
    {
      forall k | 0 <= k < |s|
        ensures p[from + i + k] == s[k]
      {
        assert p[from..from + |all|][i + k] == all[i..i + |s|][k];
      }
    }

    /** A wanted token stands where those before it end. */
    lemma TokenText(from: nat, ts: seq<Token>, k: nat)
      requires Has(from, SpellAll(ts)) && k < |ts| && TokOk(ts[k])
      ensures TextAt(from + |SpellAll(ts[..k])|, ts[k])
    {
      hide Spell, TokOk, SpellAll;
      SpellAt(ts, k);
      SubText(from, SpellAll(ts), |SpellAll(ts[..k])|, Spell(ts[k]));
    }

    lemma NextText(from: nat, ts: seq<Token>, k: nat)
      requires IsPattern(from, ts) && k < |ts|
      ensures var i := from + |SpellAll(ts[..k])|; TextAt(i, ts[k]) && DollarFits(ts[k], i + |Spell(ts[k])|)
    {
      hide *;
      PatternToken(from, ts, k);
      assert ts[k] in ts;
      TokenText(from, ts, k);
      assert ts[..k + 1] == ts[..k] + [ts[k]];
      SpellSnoc(ts[..k], ts[k]);
      NextDollar(from, ts, k);
    }

    /** A dollar among the tokens fits its place. */
    lemma NextDollar(from: nat, ts: seq<Token>, k: nat)
      requires IsPattern(from, ts) && k < |ts|
      ensures DollarFits(ts[k], from + |SpellAll(ts[..k + 1])|)
    {
      hide Spell, TokOk, Has, TextAt, Fold, SpellAll, Codes;
      var j := from + |SpellAll(ts[..k + 1])|;
      assert InPlace(ts, k, eof);
      if k + 1 < |ts| {
        assert InPlace(ts, k + 1, eof);
        TokenText(from, ts, k + 1);
        WantedKind(j, ts[k + 1]);
      } else {
        assert ts[..k + 1] == ts;
      }
    }

    /** A token that has been taken is one more of those read. */
    lemma TookNext(from: nat, read: seq<Token>, t: Token, i: nat, code0: seq<int>, lastep0: int, nbra0: int,
                   closed0: int)
      requires ReadUpTo(from, read, i, code0, lastep0, nbra0, closed0) && Took(i, t, code0, lastep0, nbra0, closed0)
      requires -1 <= lastep0 < |code0|
      ensures Compiling(from, read + [t])
    {
      hide *;
      TookText(from, read, t, i, code0, lastep0, nbra0, closed0);
      TookPlaced(from, read, t, i, code0, lastep0, nbra0, closed0);
      TookCode(from, read, t, i, code0, lastep0, nbra0, closed0);
      ReadMore(from, read, t);
    }

    lemma ReadMore(from: nat, read: seq<Token>, t: Token)
      requires Valid() && Has(from, SpellAll(read + [t])) && pos == from + |SpellAll(read + [t])|
      requires (forall x | x in read + [t] :: TokOk(x)) && Placed(read + [t]) && DollarFits(t, pos) && lastep != -1
      requires !Fold(read + [t]).Fail?
      requires Fold(read + [t]).Good? ==> var items := Fold(read + [t]).items;
        Coded(items, code, lastep) && nbra == Opens(items) && closed == Closes(items)
      ensures Compiling(from, read + [t])
    {
      hide TokOk, Placed, Fold, SpellAll, Has, DollarFits;
    }

    lemma TookText(from: nat, read: seq<Token>, t: Token, i: nat, code0: seq<int>, lastep0: int, nbra0: int,
                   closed0: int)
      requires ReadUpTo(from, read, i, code0, lastep0, nbra0, closed0) && Took(i, t, code0, lastep0, nbra0, closed0)
      ensures Valid() && Has(from, SpellAll(read + [t])) && pos == from + |SpellAll(read + [t])| && DollarFits(t, pos)
      ensures forall x | x in read + [t] :: TokOk(x)
    {
      hide Spell, TokOk, Fold, SpellAll, Has, DollarFits, Placed, Emitted;
      SpellSnoc(read, t);
      HasConcat(from, SpellAll(read), Spell(t));
    }

    lemma TookPlaced(from: nat, read: seq<Token>, t: Token, i: nat, code0: seq<int>, lastep0: int, nbra0: int,
                     closed0: int)
      requires ReadUpTo(from, read, i, code0, lastep0, nbra0, closed0) && Took(i, t, code0, lastep0, nbra0, closed0)
      ensures Placed(read + [t])
    {
      hide Spell, TokOk, Fold, SpellAll, Has, Emitted;
      WantedKind(i, t);
    }

    lemma TookCode(from: nat, read: seq<Token>, t: Token, i: nat, code0: seq<int>, lastep0: int, nbra0: int,
                   closed0: int)
      requires ReadUpTo(from, read, i, code0, lastep0, nbra0, closed0) && Took(i, t, code0, lastep0, nbra0, closed0)
      requires forall x | x in read + [t] :: TokOk(x)
      ensures lastep != -1 && !Fold(read + [t]).Fail?
      ensures Fold(read + [t]).Good? ==> var items := Fold(read + [t]).items;
        Coded(items, code, lastep) && nbra == Opens(items) && closed == Closes(items)
    {
      hide Spell, TokOk, Fold, SpellAll, Has, Emitted, Placed, DollarFits, Coded, Apply, StarIsChar, Opens;
      hide Closes, TextAt;
      FoldNext(read, t);
      FoldNone();
      if Fold(read).Good? {
        var items := Fold(read).items;
        FoldSound(read);
        SoundCounts(items);
        CodedBounds(items, code0, lastep0);
        ApplyAllowed(items, code0, lastep0, t);
        if Apply(items, t).Good? {
          EmittedIsCode(items, code0, lastep0, nbra0, closed0, t);
          ApplyCounts(items, t);
        }
      }
    }

    /** The text from from on is that of the tokens, which are a pattern, and then ends. */
    ghost predicate IsText(from: nat, ts: seq<Token>) {
      && Proper(ts, eof) && (forall t | t in ts :: TokOk(t)) && !Fold(ts).Fail? && Has(from, SpellAll(ts))
      && Ends(from + |SpellAll(ts)|)
    }

    lemma CompilingNone(from: nat)
      requires Valid() && pos == from <= |p| && code == [] && lastep == -1 && nbra == closed == 0
      ensures Compiling(from, [])
    {
      assert Has(from, []);
    }

    /** What has been read when the pattern ends. */
    lemma TextEnds(from: nat, read: seq<Token>)
      requires Compiling(from, read) && Ends(pos)
      ensures IsText(from, read) && (Fold(read).Good? ==> code + [CCEOF] == Encode(Fold(read).items))
    {
      hide TokOk, Fold, SpellAll, Has, Codes, Encode, Stack;
      if Fold(read).Good? {
        EncodeIsCodes(Fold(read).items);
      }
    }

    /** What is read is wanted, or it is the end. */
    lemma WantedOrEnd(from: nat, read: seq<Token>, ts: seq<Token>) returns (want: Token)
      requires Compiling(from, read) && (IsPattern(from, ts) ==> read <= ts)
      ensures IsPattern(from, ts) && read != ts ==> |read| < |ts| && want == ts[|read|] && Wanted(pos, want)
      ensures IsPattern(from, ts) && read == ts ==> Ends(pos) && |code| < room
    {
      hide TokOk, Fold, SpellAll, Has, Codes, Stack, Placed, DollarFits, Proper, Wanted;
      want := DotT;
      if IsPattern(from, ts) && read != ts {
        assert read < ts;
        want := ts[|read|];
        NextWanted(from, read, ts);
      }
    }

    /** compile: reads the pattern up to where it ends. If that goes well the text was a
        pattern, and the code is that of what it builds; and it goes well for every pattern. */
    method Compile(ghost ts: seq<Token>) returns (st: Status, ghost read: seq<Token>)
      requires Valid() && pos == 0 && code == [] && lastep == -1 && nbra == ebra == 0 && !circf
      modifies this
      ensures st.Ended? ==> IsText(if circf then 1 else 0, read) && (circf ==> Has(0, [CIRC]))
      ensures st.Ended? && Fold(read).Good? ==> code == Encode(Fold(read).items)
      ensures IsPattern(1, ts) && Has(0, [CIRC]) && eof != CIRC ==> st.Ended? && circf && read == ts
      ensures IsPattern(0, ts) && ts != [] && ts[0] != Plain(CIRC) ==> st.Ended? && !circf && read == ts
    {
      hide TokOk, Fold, SpellAll, Spell, Codes, Encode, Stack, Placed, DollarFits, Proper, Wanted, Took;
      hide Compiling, IsPattern, TextOk, IsText;
      read := [];
      FirstWanted(ts);
      var ok, c := Getc();
      if !ok {
        return Beyond, read;
      }
      if c == eof || c == NEWLINE {
        if c == NEWLINE {
          pos := pos - 1;
          nodelim := true;
        }
        return Same, read;
      }
      if c == CIRC {
        circf := true;
      } else {
        pos := pos - 1;
      }
      ghost var from: nat := if circf then 1 else 0;
      st, read := CompileTokens(from, ts);
    }

    /** How a wanted pattern begins. */
    lemma FirstWanted(ts: seq<Token>)
      ensures Has(0, [CIRC]) ==> 0 < |p| && p[0] == CIRC
      ensures IsPattern(0, ts) && ts != [] && ts[0] != Plain(CIRC) ==>
        0 < |p| && p[0] != eof && p[0] != NEWLINE && p[0] != CIRC
    {
      hide TokOk, Fold, Spell, Codes;
      if IsPattern(0, ts) && ts != [] {
        TokenText(0, ts, 0);
        assert InPlace(ts, 0, eof);
        WantedKind(0, ts[0]);
      }
    }

    /** The tokens one after the other. */
    method CompileTokens(ghost from: nat, ghost ts: seq<Token>) returns (st: Status, ghost read: seq<Token>)
      requires Valid() && pos == from <= |p| && code == [] && lastep == -1 && nbra == closed == 0
      modifies this`pos, this`code, this`lastep, this`bracket, this`nbra, this`ebra, this`closed, this`nodelim
      ensures st.Ended? ==> IsText(from, read)
      ensures st.Ended? && Fold(read).Good? ==> code == Encode(Fold(read).items)
      ensures IsPattern(from, ts) ==> st.Ended? && read == ts
    {
      hide *;
      read := [];
      CompilingNone(from);
      while true
        invariant Compiling(from, read) && (IsPattern(from, ts) ==> read <= ts)
        decreases |p| - pos
      {
        ghost var want := WantedOrEnd(from, read, ts);
        ghost var i, code0, lastep0, nbra0, closed0 := pos, code, lastep, nbra, closed;
        CompilingFacts(from, read);
        ghost var t;
        st, t := ReadToken(want);
        if st.More? {
          TookNext(from, read, t, i, code0, lastep0, nbra0, closed0);
          TookSome(i, t, code0, lastep0, nbra0, closed0);
          read := read + [t];
        } else {
          return;
        }
      }
    }

    lemma CompilingFacts(from: nat, read: seq<Token>)
      requires Compiling(from, read)
      ensures Valid() && -1 <= lastep < |code| && ReadUpTo(from, read, pos, code, lastep, nbra, closed)
      ensures Ends(pos) ==>
        IsText(from, read) && (forall t | t in read :: TokOk(t)) &&
          (Fold(read).Good? ==> code + [CCEOF] == Encode(Fold(read).items))
    {
      hide TokOk, Fold, SpellAll, Has, Codes, Encode, Stack, Placed, DollarFits, Proper;
      if Ends(pos) {
        TextEnds(from, read);
      }
    }

    lemma TookSome(i: nat, t: Token, code0: seq<int>, lastep0: int, nbra0: int, closed0: int)
      requires Took(i, t, code0, lastep0, nbra0, closed0)
      ensures i < pos <= |p|
    {
    }
  }
}
