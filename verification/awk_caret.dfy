/** The intended reading of '^': only a '^' consumes the start of the text. The compiled machine
    departs from it when some word can begin with '^' and another with a dot, because on the
    transition for '^' the dot is followed too. */
module AwkCaret {
  import opened AwkRegex
  import opened AwkSearch
  import opened AwkMeaning

  predicate IsChar(c: int) {
    -128 <= c < NONE
  }

  /** The same leaf, but consuming HAT only if it is '^'. NONE is no character. */
  function StrictSym(s: Sym): Sym {
    match s
    case Char(k) => s
    case Dot => Nccl([HAT])
    case Ccl(cs) => Ccl(WithoutHat(cs))
    case Nccl(cs) => Nccl(cs + [HAT])
  }

  function WithoutHat(cs: seq<int>): (r: seq<int>)
    ensures |r| == |cs|
    ensures forall i | 0 <= i < |r| :: r[i] == if cs[i] == HAT then NONE else cs[i]
  {
    seq(|cs|, i requires 0 <= i < |cs| => if cs[i] == HAT then NONE else cs[i])
  }

  function Strict(r: Re): Re {
    match r
    case Leaf(i, s) => Leaf(i, StrictSym(s))
    case Star(e) => Star(Strict(e))
    case Plus(e) => Plus(Strict(e))
    case Quest(e) => Quest(Strict(e))
    case Cat(a, b) => Cat(Strict(a), Strict(b))
    case Or(a, b) => Or(Strict(a), Strict(b))
  }

  lemma StrictAccepts(s: Sym, c: int)
    requires IsChar(c)
    ensures Accepts(StrictSym(s), c) <==> Accepts(s, c) && (c == HAT ==> s == Char(HAT))
    ensures EmptyClass(StrictSym(s)) <==> EmptyClass(s)
  {
    match s
    case Ccl(cs) =>
      if c in cs {
        var i :| 0 <= i < |cs| && cs[i] == c;
        assert WithoutHat(cs)[i] == if c == HAT then NONE else c;
      }
    case _ =>
  }

  predicate NoHat(w: seq<int>) {
    forall c | c in w :: IsChar(c) && c != HAT
  }

  /** On words without HAT the two readings agree. */
  lemma {:induction false} StrictSame(r: Re, w: seq<int>)
    requires NoHat(w)
    ensures In(Strict(r), w) <==> In(r, w)
    decreases r, 0, 0
  {
    match r
    case Leaf(_, s) =>
      StrictAccepts(s, if |w| == 1 then w[0] else 0);
    case Star(e) =>
      StrictRepeated(e, w);
    case Plus(e) =>
      forall k | 0 <= k <= |w|
        ensures In(Strict(e), w[..k]) <==> In(e, w[..k])
        ensures Repeated(Strict(e), w[k..]) <==> Repeated(e, w[k..])
      {
        StrictSame(e, w[..k]);
        StrictRepeated(e, w[k..]);
      }
    case Quest(e) =>
      StrictSame(e, w);
    case Cat(a, b) =>
      forall k | 0 <= k <= |w|
        ensures In(Strict(a), w[..k]) <==> In(a, w[..k])
        ensures In(Strict(b), w[k..]) <==> In(b, w[k..])
      {
        StrictSame(a, w[..k]);
        StrictSame(b, w[k..]);
      }
    case Or(a, b) =>
      StrictSame(a, w);
      StrictSame(b, w);
  }

  lemma {:induction false} StrictRepeated(e: Re, w: seq<int>)
    requires NoHat(w)
    ensures Repeated(Strict(e), w) <==> Repeated(e, w)
    decreases e, 1, |w|
  {
    forall k | 0 < k <= |w|
      ensures In(Strict(e), w[..k]) <==> In(e, w[..k])
      ensures Repeated(Strict(e), w[k..]) <==> Repeated(e, w[k..])
    {
      StrictSame(e, w[..k]);
      StrictRepeated(e, w[k..]);
    }
  }

  /** No leaf at which a word can begin, other than a '^', consumes HAT. */
  predicate HatAlone(r: Re) {
    match r
    case Leaf(_, s) => Accepts(s, HAT) ==> s == Char(HAT)
    case Star(e) => HatAlone(e)
    case Plus(e) => HatAlone(e)
    case Quest(e) => HatAlone(e)
    case Cat(a, b) => HatAlone(a) && (Nullable(a) ==> HatAlone(b))
    case Or(a, b) => HatAlone(a) && HatAlone(b)
  }

  /** A word that starts with HAT and then has none is read the same way by an expression that
      is HatAlone. */
  lemma {:induction false} StrictHat(r: Re, v: seq<int>)
    requires NoHat(v) && HatAlone(r)
    ensures In(Strict(r), [HAT] + v) <==> In(r, [HAT] + v)
    decreases r, 1, 0
  {
    match r
    case Leaf(_, s) => StrictAccepts(s, HAT);
    case Star(e) => StrictHatRepeated(e, v);
    case Plus(e) => StrictHatPlus(e, v);
    case Quest(e) => StrictHat(e, v);
    case Cat(a, b) => StrictHatCat(a, b, v);
    case Or(a, b) => StrictHat(a, v); StrictHat(b, v);
  }

  lemma {:induction false} StrictHatRepeated(e: Re, v: seq<int>)
    requires NoHat(v) && HatAlone(e)
    ensures Repeated(Strict(e), [HAT] + v) <==> Repeated(e, [HAT] + v)
    decreases e, 2, |v|
  {
    var w := [HAT] + v;
    forall k | 0 < k <= |w|
      ensures In(Strict(e), w[..k]) <==> In(e, w[..k])
      ensures Repeated(Strict(e), w[k..]) <==> Repeated(e, w[k..])
    {
      assert w[..k] == [HAT] + v[..k - 1] && w[k..] == v[k - 1..];
      StrictHat(e, v[..k - 1]);
      StrictRepeated(e, v[k - 1..]);
    }
  }

  lemma {:induction false} StrictHatPlus(e: Re, v: seq<int>)
    requires NoHat(v) && HatAlone(e)
    ensures In(Strict(Plus(e)), [HAT] + v) <==> In(Plus(e), [HAT] + v)
    decreases Plus(e), 0, 0
  {
    var w := [HAT] + v;
    forall k | 0 <= k <= |w|
      ensures In(Strict(e), w[..k]) <==> In(e, w[..k])
      ensures Repeated(Strict(e), w[k..]) <==> Repeated(e, w[k..])
    {
      if k == 0 {
        assert w[..k] == [] && w[k..] == w;
        StrictSame(e, []);
        StrictHatRepeated(e, v);
      } else {
        assert w[..k] == [HAT] + v[..k - 1] && w[k..] == v[k - 1..];
        StrictHat(e, v[..k - 1]);
        StrictRepeated(e, v[k - 1..]);
      }
    }
  }

  lemma {:induction false} StrictHatCat(a: Re, b: Re, v: seq<int>)
    requires NoHat(v) && HatAlone(Cat(a, b))
    ensures In(Strict(Cat(a, b)), [HAT] + v) <==> In(Cat(a, b), [HAT] + v)
    decreases Cat(a, b), 0, 0
  {
    var w := [HAT] + v;
    NullableIsEmptyWord(a);
    forall k | 0 <= k <= |w|
      ensures In(Strict(a), w[..k]) && In(Strict(b), w[k..]) <==> In(a, w[..k]) && In(b, w[k..])
    {
      if k == 0 {
        assert w[..k] == [] && w[k..] == w;
        StrictSame(a, []);
        if Nullable(a) {
          StrictHat(b, v);
        }
      } else {
        assert w[..k] == [HAT] + v[..k - 1] && w[k..] == v[k - 1..];
        StrictHat(a, v[..k - 1]);
        StrictSame(b, v[k - 1..]);
      }
    }
  }

  /** No word of the strict reading begins with HAT unless one can begin with '^'. */
  lemma {:induction false} StrictStart(r: Re, v: seq<int>)
    requires !HatFirst(r)
    ensures !In(Strict(r), [HAT] + v)
    decreases r, |v|
  {
    var w := [HAT] + v;
    match r
    case Leaf(_, s) => StrictAccepts(s, HAT);
    case Star(e) => StrictStartRepeated(e, v);
    case Plus(e) =>
      forall k | 0 <= k <= |w|
        ensures !(In(Strict(e), w[..k]) && Repeated(Strict(e), w[k..]))
      {
        if k == 0 {
          assert w[k..] == w;
          StrictStartRepeated(e, v);
        } else {
          assert w[..k] == [HAT] + v[..k - 1];
          StrictStart(e, v[..k - 1]);
        }
      }
    case Quest(e) => StrictStart(e, v);
    case Cat(a, b) =>
      NullableIsEmptyWord(a);
      StrictSame(a, []);
      forall k | 0 <= k <= |w|
        ensures !(In(Strict(a), w[..k]) && In(Strict(b), w[k..]))
      {
        if k == 0 {
          assert w[..k] == [] && w[k..] == w;
          if Nullable(a) {
            StrictStart(b, v);
          }
        } else {
          assert w[..k] == [HAT] + v[..k - 1];
          StrictStart(a, v[..k - 1]);
        }
      }
    case Or(a, b) => StrictStart(a, v); StrictStart(b, v);
  }

  lemma {:induction false} StrictStartRepeated(e: Re, v: seq<int>)
    requires !HatFirst(e)
    ensures !Repeated(Strict(e), [HAT] + v)
    decreases e, |v| + 1
  {
    var w := [HAT] + v;
    forall k | 0 < k <= |w|
      ensures !In(Strict(e), w[..k])
    {
      assert w[..k] == [HAT] + v[..k - 1];
      StrictStart(e, v[..k - 1]);
    }
  }

  /** The pieces of a text behind a '^'. */
  lemma StrictPieces(r: Re, rest: seq<int>, i: int, j: int)
    requires NoHat(rest) && (HatFirst(r) ==> HatAlone(r))
    requires 0 <= i <= j <= |rest| + 1
    ensures HatFirst(r) || i > 0 || j == 0 ==>
      (In(Strict(r), ([HAT] + rest)[i..j]) <==> In(r, ([HAT] + rest)[i..j]))
    ensures !HatFirst(r) && i == 0 < j ==> !In(Strict(r), ([HAT] + rest)[i..j])
    ensures i > 0 ==> ([HAT] + rest)[i..j] == rest[i - 1..j - 1]
  {
    hide In, Repeated, HatFirst, HatAlone, Strict;
    var w := [HAT] + rest;
    if i > 0 {
      assert w[i..j] == rest[i - 1..j - 1];
      StrictSame(r, w[i..j]);
    } else if j == 0 {
      StrictSame(r, w[i..j]);
    } else {
      assert w[i..j] == [HAT] + rest[..j - 1];
      if HatFirst(r) { StrictHat(r, rest[..j - 1]); } else { StrictStart(r, rest[..j - 1]); }
    }
  }

  lemma {:induction false} HatAloneReads(r: Re, text: seq<int>)
    requires NoHat(text)
    requires HatFirst(r) ==> HatAlone(r)
    ensures Occurs(r, Reading(r, text)) <==> Occurs(Strict(r), [HAT] + text + [0])
  {
    hide In, Repeated, HatFirst, HatAlone, Strict;
    var rest := text + [0];
    var w := [HAT] + rest;
    assert [HAT] + text + [0] == w;
    var read := Reading(r, text);
    assert read == if HatFirst(r) then w else rest;
    if i, j :| 0 <= i <= j <= |read| && In(r, read[i..j]) {
      if HatFirst(r) {
        StrictPieces(r, rest, i, j);
        assert In(Strict(r), w[i..j]);
      } else {
        StrictPieces(r, rest, i + 1, j + 1);
        assert In(Strict(r), w[i + 1..j + 1]);
      }
    }
    if i, j :| 0 <= i <= j <= |w| && In(Strict(r), w[i..j]) {
      StrictPieces(r, rest, i, j);
      if HatFirst(r) {
        assert In(r, read[i..j]);
      } else if i == 0 {
        assert w[i..j] == read[0..0];
        assert In(r, read[0..0]);
      } else {
        assert In(r, read[i - 1..j - 1]);
      }
    }
  }

  /** Is '^' alone a word? */
  predicate CaretWord(r: Re) {
    match r
    case Leaf(_, s) => s == Char(HAT)
    case Star(e) => CaretWord(e)
    case Plus(e) => CaretWord(e)
    case Quest(e) => CaretWord(e)
    case Cat(a, b) => (CaretWord(a) && Nullable(b)) || (Nullable(a) && CaretWord(b))
    case Or(a, b) => CaretWord(a) || CaretWord(b)
  }

  lemma EmptyWord(r: Re)
    ensures In(Strict(r), []) <==> Nullable(r)
    ensures In(r, []) <==> Nullable(r)
  {
    hide In, Strict, Nullable;
    NullableIsEmptyWord(r);
    StrictSame(r, []);
  }

  /** Then it is one in both readings. */
  lemma {:induction false} CaretWordIs(r: Re)
    requires CaretWord(r)
    ensures In(Strict(r), [HAT]) && In(r, [HAT])
  {
    assert [HAT] + [] == [HAT] && [] + [HAT] == [HAT];
    match r
    case Leaf(_, _) =>
    case Star(e) =>
      CaretWordIs(e);
      assert [HAT][..1] == [HAT] && [HAT][1..] == [];
    case Plus(e) =>
      CaretWordIs(e);
      InPlus(e, [HAT], []);
      InPlus(Strict(e), [HAT], []);
    case Quest(e) => CaretWordIs(e);
    case Cat(a, b) =>
      EmptyWord(a);
      EmptyWord(b);
      if CaretWord(a) && Nullable(b) {
        CaretWordIs(a);
        InCat(a, b, [HAT], []);
        InCat(Strict(a), Strict(b), [HAT], []);
      } else {
        CaretWordIs(b);
        InCat(a, b, [], [HAT]);
        InCat(Strict(a), Strict(b), [], [HAT]);
      }
    case Or(a, b) => if CaretWord(a) { CaretWordIs(a); } else { CaretWordIs(b); }
  }

  /** In these two cases there is a match in every text. */
  lemma AlwaysOccurs(r: Re, text: seq<int>)
    requires HatFirst(r) && (Nullable(r) || CaretWord(r))
    ensures Occurs(r, Reading(r, text)) && Occurs(Strict(r), [HAT] + text + [0])
  {
    hide In, Strict, HatFirst, CaretWord, Nullable;
    var w := [HAT] + text + [0];
    assert Reading(r, text) == w;
    if Nullable(r) {
      EmptyWord(r);
      assert w[0..0] == [];
    } else {
      CaretWordIs(r);
      assert w[0..1] == [HAT];
    }
  }

  /** Without words that begin with '^', with '^' alone at the beginning of words, or with '^' or
      nothing for a word, a match finds exactly what the strict reading finds in the text after
      a '^'. */
  lemma {:induction false} MatchReadsCaretsStrictly(r: Re, text: seq<int>)
    requires NoHat(text)
    requires HatFirst(r) ==> HatAlone(r) || Nullable(r) || CaretWord(r)
    ensures Occurs(r, Reading(r, text)) <==> Occurs(Strict(r), [HAT] + text + [0])
  {
    if HatFirst(r) && (Nullable(r) || CaretWord(r)) {
      AlwaysOccurs(r, text);
    } else {
      HatAloneReads(r, text);
    }
  }

  function CaretOrDot(): Re {
    Or(Cat(Leaf(0, Char(HAT)), Leaf(0, Char(97))), Cat(Leaf(0, Dot), Leaf(0, Char(98))))
  }

  /** (^a|.b) is not such an expression, and finds a b at the start of a text. */
  lemma CaretDotDeparts()
    ensures HatFirst(CaretOrDot()) && !HatAlone(CaretOrDot())
    ensures !Nullable(CaretOrDot()) && !CaretWord(CaretOrDot())
    ensures Occurs(CaretOrDot(), Reading(CaretOrDot(), [98]))
    ensures !Occurs(Strict(CaretOrDot()), [HAT] + [98] + [0])
  {
    var r := CaretOrDot();
    var w := [HAT] + [98] + [0];
    assert !Accepts(Dot, HAT) || !HatAlone(Leaf(0, Dot));
    assert Reading(r, [98]) == w;
    InCat(Leaf(0, Dot), Leaf(0, Char(98)), [HAT], [98]);
    assert w[0..2] == [HAT] + [98];
    assert In(r, w[0..2]);
    forall i, j | 0 <= i <= j <= |w|
      ensures !In(Strict(r), w[i..j])
    {
      var u := w[i..j];
      assert |u| == 2 ==> u[0] == w[i] && u[1] == w[i + 1];
      if In(Strict(r), u) {
        CaretDotWords(u);
      }
    }
  }

  /** The words of (^a|.b), strictly read. */
  lemma CaretDotWords(u: seq<int>)
    requires In(Strict(CaretOrDot()), u)
    ensures |u| == 2 && ((u[0] == HAT && u[1] == 97) || (u[0] != 0 && u[0] != HAT && u[1] == 98))
  {
    var r := Strict(CaretOrDot());
    if In(r.left, u) {
      var x, y := SplitCat(r.left.left, r.left.right, u);
    } else {
      var x, y := SplitCat(r.right.left, r.right.right, u);
      assert HAT in [HAT];
    }
  }
}
