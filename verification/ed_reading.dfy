/** How the parts of a pattern are written, character by character, and what each of them means. */
module EdReading {
  import opened Strings
  import opened EdPattern
  import opened EdText
  import opened EdBuild

  lemma CharsAre()
    ensures Codes("\\n") == [BSLASH, LETTER_N] && Codes(".") == [DOT_CH] && Codes("*") == [STAR_CH]
    ensures Codes("$") == [DOLLAR] && Codes("[") == [LBRACK] && Codes("[^") == [LBRACK, CIRC] && Codes("]") == [RBRACK]
    ensures Codes("\\(") == [BSLASH, LPAREN] && Codes("\\)") == [BSLASH, RPAREN] && Codes("\\") == [BSLASH]
    ensures Codes("\\{") == [BSLASH, LBRACE] && Codes("\\}") == [BSLASH, RBRACE]
    ensures Codes(",") == [COMMA] && Codes(",\\}") == [COMMA, BSLASH, RBRACE]
    ensures Codes("123456789") == seq(9, i => ZERO + 1 + i)
  {
  }

  /** How each part is written. */
  lemma Spelled(c: int, body: seq<int>, d: nat, a: seq<int>, b: seq<int>)
    ensures Spell(Plain(c)) == [c] && Spell(Quoted(c)) == Codes("\\") + [c] && Spell(Newline) == Codes("\\n")
    ensures Spell(DotT) == Codes(".") && Spell(StarT) == Codes("*") && Spell(DolT) == Codes("$")
    ensures Spell(ClassT(false, body)) == Codes("[") + body + Codes("]")
    ensures Spell(ClassT(true, body)) == Codes("[^") + body + Codes("]")
    ensures Spell(OpenT) == Codes("\\(") && Spell(CloseT) == Codes("\\)")
    ensures d < 9 ==> Spell(BackT(d)) == Codes("\\") + [Codes("123456789")[d]]
    ensures Spell(ExactT(a)) == Codes("\\{") + a + Codes("\\}")
    ensures Spell(LeastT(a)) == Codes("\\{") + a + Codes(",\\}")
    ensures Spell(BetweenT(a, b)) == Codes("\\{") + a + Codes(",") + b + Codes("\\}")
  {
    hide Codes;
    CharsAre();
    assert Spell(ClassT(false, body)) == [LBRACK] + [] + body + [RBRACK];
  }

  /** Which characters are read as themselves, and which behind a backslash. */
  lemma Themselves(c: int)
    ensures TokOk(Plain(c)) <==> c != 0 && c != '\n' as int && c !in Codes(".*[\\")
    ensures TokOk(Quoted(c)) <==> c != 0 && c != '\n' as int && c !in Codes("()n123456789")
  {
    var s, t := Codes(".*[\\"), Codes("()n123456789");
    assert s == [DOT_CH, STAR_CH, LBRACK, BSLASH];
    assert t == [LPAREN, RPAREN, LETTER_N] + seq(9, i => ZERO + 1 + i);
    if ZERO + 1 <= c <= ZERO + 9 {
      assert t[3 + (c - ZERO - 1)] == c;
    }
  }

  // Numbers.

  predicate AllDigits(d: seq<int>) {
    forall i | 0 <= i < |d| :: '0' as int <= d[i] <= '9' as int
  }

  function Ten(k: nat): (t: int)
    ensures t >= 1
  {
    if k == 0 then 1 else 10 * Ten(k - 1)
  }

  /** A number is decimal: its first digit has the greatest weight. */
  lemma {:induction false} NumberIs(d: seq<int>)
    requires d != []
    ensures Number(d) == (d[0] - '0' as int) * Ten(|d| - 1) + Number(d[1..])
  {
    hide Ten, Number;
    var n := |d| - 1;
    LastDigit(d);
    LastDigit([]);
    TenIs(n);
    if n == 0 {
      assert d[..0] == [] && d[1..] == [];
    } else {
      NumberIs(d[..n]);
      LastDigit(d[1..]);
      assert d[..n][1..] == d[1..][..n - 1];
      Scaled(d[0] - '0' as int, Ten(n - 1));
    }
  }

  lemma Scaled(x: int, t: int)
    ensures 10 * (x * t) == x * (10 * t)
  {
  }

  lemma LastDigit(d: seq<int>)
    ensures Number(d) == if d == [] then 0 else 10 * Number(d[..|d| - 1]) + (d[|d| - 1] - '0' as int)
  {
  }

  /** Only digits make a number. */
  lemma DigitsAre(d: seq<int>)
    ensures Digits(d) <==> d != [] && AllDigits(d)
  {
    if AllDigits(d) {
      assert forall c | c in d :: IsDigit(c);
    } else {
      var i :| 0 <= i < |d| && !('0' as int <= d[i] <= '9' as int);
      assert d[i] in d;
    }
  }

  lemma TenIs(k: nat)
    ensures Ten(k) == if k == 0 then 1 else 10 * Ten(k - 1)
  {
  }

  // Classes.

  /** The characters of a class are those of its elements, or, behind a caret, all but those and NUL. */
  lemma ClassMeans(es: seq<Elem>, neg: bool, c: int)
    requires es != [] && forall e | e in es :: ElemOk(e)
    ensures Elements(ElemsText(es) + [RBRACK], 0, {}).Scanned?
    ensures c in ClassSet(neg, ElemsText(es)) <==> if neg then 1 <= c < 128 && !Among(c, es) else Among(c, es)
  {
    var t := ElemsText(es) + [RBRACK];
    ElemsMeaning(es, [], 0, {});
    assert t + [] == t;
    assert es[0] in es;
    FirstElem(es);
  }

  lemma FirstElem(es: seq<Elem>)
    requires es != [] && ElemOk(es[0])
    ensures ElemsText(es) != [] && ElemsText(es)[0] != RBRACK
  {
  }

  /** What an element stands for. */
  lemma ElemIs(e: Elem, c: int)
    ensures e.Single? ==> ElemText(e) == [e.c] && (Has(e, c) <==> c == e.c)
    ensures e.Through? ==> ElemText(e) == [e.a] + Codes("-") + [e.b]
    ensures e.Through? && e.a <= e.b ==> (Has(e, c) <==> e.a <= c <= e.b)
    ensures ElemOk(e) <==> var x := Codes("-]"); var y := if e.Single? then e.c else e.a;
      y != 0 && y != '\n' as int && y !in x && (e.Through? ==> e.b != ']' as int)
  {
    assert Codes("-") == [DASH] && Codes("-]") == [DASH, RBRACK];
  }

  // What is built.

  /** What stands for one character. */
  predicate ForOne(t: Token) {
    t.Plain? || t.Quoted? || t.Newline? || t.DotT? || t.ClassT?
  }

  /** The characters that it stands for. */
  ghost predicate StandsFor(t: Token, c: int)
    requires ForOne(t) && TokOk(t)
  {
    match t
    case Plain(x) => c == x
    case Quoted(x) => c == x
    case Newline => c == '\n' as int
    case DotT => c != 0
    case ClassT(neg, body) => c % 128 in ClassSet(neg, body)
  }

  ghost predicate UnitFor(t: Token, u: Unit)
    requires ForOne(t) && TokOk(t)
  {
    forall c :: Hits(u, c) <==> StandsFor(t, c)
  }

  ghost predicate AllTokOk(ts: seq<Token>) {
    forall t | t in ts :: TokOk(t)
  }

  lemma OneBuilt(ts: seq<Token>, t: Token) returns (u: Unit)
    requires AllTokOk(ts + [t]) && AllTokOk(ts) && TokOk(t) && ForOne(t) && Fold(ts).Good?
    ensures Fold(ts + [t]) == Good(Fold(ts).items + [One(u)]) && UnitFor(t, u)
  {
    hide ClassSet;
    FoldNext(ts, t);
    u := match t
      case Plain(c) => Char(c)
      case Quoted(c) => Char(c)
      case Newline => Char(NEWLINE)
      case DotT => Dot
      case ClassT(neg, body) => Class(ClassSet(neg, body));
  }

  /** What a part that stands for one character makes of a pattern, by itself, with a star, and with
      a range. */
  lemma PartBuilt(ts: seq<Token>, t: Token, r: Token) returns (u: Unit)
    requires AllTokOk(ts) && TokOk(t) && TokOk(r) && ForOne(t) && IsRange(r) && Fold(ts).Good?
    ensures AllTokOk(ts + [t]) && AllTokOk(ts + [t] + [StarT]) && AllTokOk(ts + [t] + [r]) && UnitFor(t, u)
    ensures Fold(ts + [t]) == Good(Fold(ts).items + [One(u)])
    ensures Fold(ts + [t] + [StarT]) == Good(Fold(ts).items + [Star(u)])
    ensures Fold(ts + [t] + [r]) == Good(Fold(ts).items +
      [Range(u, Number(r.a), if r.ExactT? then Number(r.a) else if r.LeastT? then 255 else Number(r.b))])
  {
    hide TokOk, Fold, UnitFor;
    assert TokOk(StarT) by {
      StarOk();
    }
    assert AllTokOk(ts + [t]);
    u := OneBuilt(ts, t);
    var items := Fold(ts).items;
    FoldNext(ts + [t], StarT);
    FoldNext(ts + [t], r);
    assert (items + [One(u)])[..|items|] == items;
  }

  /** A star is itself where nothing is there to repeat, and changes no repetition; a dollar is the end. */
  lemma StarBuilt(ts: seq<Token>)
    requires AllTokOk(ts) && Fold(ts).Good?
    ensures AllTokOk(ts + [StarT]) && AllTokOk(ts + [DolT]) && Fold(ts + [DolT]) == Good(Fold(ts).items + [Dol])
    ensures var items := Fold(ts).items;
      var last := if items == [] then Open(0) else items[|items| - 1];
      && (last.Open? || last.Close? ==> Fold(ts + [StarT]) == Good(items + [One(Char('*' as int))]))
      && (last.Star? || last.Range? ==> Fold(ts + [StarT]) == Good(items))
  {
    hide TokOk, Fold;
    StarOk();
    FoldNext(ts, StarT);
    FoldNext(ts, DolT);
    assert Fold(ts).items == [] ==> Fold(ts).items + [One(Char(42))] == [One(Char(42))];
  }

  lemma StarOk()
    ensures TokOk(StarT) && TokOk(DolT) && TokOk(OpenT) && TokOk(CloseT)
  {
  }

  /** Groups are numbered in the order of their openings, and close only when there is just one open. */
  lemma GroupsBuilt(ts: seq<Token>, d: nat)
    requires AllTokOk(ts) && Fold(ts).Good? && d < 9
    ensures AllTokOk(ts + [OpenT]) && AllTokOk(ts + [CloseT]) && AllTokOk(ts + [BackT(d)])
    ensures var items := Fold(ts).items;
      var o, c := |Openings(items)|, |Closings(items)|;
      && Fold(ts + [OpenT]) == (if o >= 9 then Fail(43) else Good(items + [Open(o)]))
      && Fold(ts + [CloseT]) == (if o != c + 1 then Fail(42) else Good(items + [Close(c)]))
      && Fold(ts + [BackT(d)]) == (if d >= c then Fail(25) else Good(items + [Back(d)]))
  {
    hide TokOk, Fold, Openings, Closings, Opens, Closes, ClassSet, Starred, Ranged;
    StarOk();
    assert TokOk(BackT(d)) by {
      BackOk(d);
    }
    FoldNext(ts, OpenT);
    FoldNext(ts, CloseT);
    FoldNext(ts, BackT(d));
    CountsAre(Fold(ts).items);
  }

  lemma BackOk(d: nat)
    ensures TokOk(BackT(d)) <==> d < 9
  {
  }

  // The places where groups begin and end.

  function Openings(items: seq<Item>): set<int> {
    set i | 0 <= i < |items| && items[i].Open?
  }

  function Closings(items: seq<Item>): set<int> {
    set i | 0 <= i < |items| && items[i].Close?
  }

  lemma CountsAre(items: seq<Item>)
    ensures Opens(items) == |Openings(items)| && Closes(items) == |Closings(items)|
  {
    OpensAre(items);
    ClosesAre(items);
  }

  lemma {:induction false} OpensAre(items: seq<Item>)
    ensures Opens(items) == |Openings(items)|
  {
    if items != [] {
      var n := |items| - 1;
      OpensAre(items[..n]);
      NextOpening(items[..n], items[n]);
      assert items == items[..n] + [items[n]];
    }
  }

  lemma NextOpening(items: seq<Item>, x: Item)
    ensures |Openings(items + [x])| == |Openings(items)| + if x.Open? then 1 else 0
  {
    var o, all := Openings(items), items + [x];
    assert forall i | 0 <= i < |items| :: all[i] == items[i];
    assert Openings(all) == if x.Open? then o + {|items|} else o;
  }

  lemma {:induction false} ClosesAre(items: seq<Item>)
    ensures Closes(items) == |Closings(items)|
  {
    if items != [] {
      var n := |items| - 1;
      ClosesAre(items[..n]);
      NextClosing(items[..n], items[n]);
      assert items == items[..n] + [items[n]];
    }
  }

  lemma NextClosing(items: seq<Item>, x: Item)
    ensures |Closings(items + [x])| == |Closings(items)| + if x.Close? then 1 else 0
  {
    var c, all := Closings(items), items + [x];
    assert forall i | 0 <= i < |items| :: all[i] == items[i];
    assert Closings(all) == if x.Close? then c + {|items|} else c;
  }
}
