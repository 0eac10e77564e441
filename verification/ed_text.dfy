/** How patterns are written: the text of a pattern as a list of tokens, and the items it stands
    for. */
module EdText {

  const CIRC := 94
  const STAR_CH := 42
  const DOT_CH := 46
  const DOLLAR := 36
  const LBRACK := 91
  const RBRACK := 93
  const BSLASH := 92
  const LPAREN := 40
  const RPAREN := 41
  const LBRACE := 123
  const RBRACE := 125
  const COMMA := 44
  const DASH := 45
  const NEWLINE := 10
  const LETTER_N := 110
  const ZERO := 48

  datatype Token =
    | Plain(c: int)                     // itself
    | Quoted(c: int)                    // \\c
    | Newline                           // \\n
    | DotT
    | StarT
    | DolT
    | ClassT(neg: bool, body: seq<int>)  // [body] or [^body]
    | OpenT
    | CloseT
    | BackT(d: int)                     // \\1 is 0
    | ExactT(a: seq<int>)               // \\{a\\}
    | LeastT(a: seq<int>)               // \\{a,\\}
    | BetweenT(a: seq<int>, b: seq<int>) // \\{a,b\\}

  function Spell(t: Token): seq<int> {
    match t
    case Plain(c) => [c]
    case Quoted(c) => [BSLASH, c]
    case Newline => [BSLASH, LETTER_N]
    case DotT => [DOT_CH]
    case StarT => [STAR_CH]
    case DolT => [DOLLAR]
    case ClassT(neg, body) => [LBRACK] + (if neg then [CIRC] else []) + body + [RBRACK]
    case OpenT => [BSLASH, LPAREN]
    case CloseT => [BSLASH, RPAREN]
    case BackT(d) => [BSLASH, ZERO + 1 + d]
    case ExactT(a) => [BSLASH, LBRACE] + a + [BSLASH, RBRACE]
    case LeastT(a) => [BSLASH, LBRACE] + a + [COMMA, BSLASH, RBRACE]
    case BetweenT(a, b) => [BSLASH, LBRACE] + a + [COMMA] + b + [BSLASH, RBRACE]
  }

  function SpellAll(ts: seq<Token>): seq<int> {
    if ts == [] then [] else SpellAll(ts[..|ts| - 1]) + Spell(ts[|ts| - 1])
  }

  lemma SpellSnoc(ts: seq<Token>, t: Token)
    ensures SpellAll(ts + [t]) == SpellAll(ts) + Spell(t)
  {
    assert (ts + [t])[..|ts|] == ts;
  }

  /** The text of a token is where the texts of those before it end. */
  lemma {:induction false} SpellAt(ts: seq<Token>, k: nat)
    requires k < |ts|
    ensures var i := |SpellAll(ts[..k])|;
      i + |Spell(ts[k])| <= |SpellAll(ts)| && SpellAll(ts)[..i] == SpellAll(ts[..k]) &&
      SpellAll(ts)[i..i + |Spell(ts[k])|] == Spell(ts[k])
    decreases |ts|
  {
    hide Spell;
    var front := ts[..|ts| - 1];
    if k < |ts| - 1 {
      SpellAt(front, k);
      assert front[..k] == ts[..k];
    }
  }

  // Numbers.

  predicate IsDigit(c: int) {
    ZERO <= c <= ZERO + 9
  }

  predicate Digits(d: seq<int>) {
    d != [] && forall c | c in d :: IsDigit(c)
  }

  function Number(d: seq<int>): int {
    if d == [] then 0 else 10 * Number(d[..|d| - 1]) + d[|d| - 1] - ZERO
  }

  // Character classes.

  datatype Scanned = Scanned(s: set<int>, n: nat) | Bad

  /** The characters from lo up to, not including, hi. */
  function Span(lo: int, hi: int): (r: set<int>)
    ensures forall c :: c in r <==> lo <= c < hi
    decreases hi - lo
  {
    if hi <= lo then {} else Span(lo, hi - 1) + {hi - 1}
  }

  /** The rest of the text of a class, up to its bracket: s has been seen, and lc came last; n
      characters are used. */
  function Rest(t: seq<int>, lc: int, s: set<int>): (r: Scanned)
    ensures r.Scanned? ==> r.n <= |t|
    decreases |t|, 1
  {
    if t == [] then Bad else if t[0] == RBRACK then Scanned(s, 1) else Elements(t, lc, s)
  }

  /** The same where a bracket is an element. */
  function Elements(t: seq<int>, lc: int, s: set<int>): (r: Scanned)
    ensures r.Scanned? ==> r.n <= |t|
    decreases |t|, 0
  {
    if t == [] || t[0] == 0 || t[0] == NEWLINE then Bad
    else if t[0] == DASH && lc != 0 then
      if |t| == 1 then Bad
      else if t[1] == RBRACK then Scanned(s + {DASH}, 2)
      else Plus(Rest(t[2..], t[1], s + Span(lc, t[1]) + {t[1]}), 2)
    else Plus(Rest(t[1..], t[0], s + {t[0]}), 1)
  }

  function Plus(r: Scanned, k: nat): Scanned {
    if r.Bad? then Bad else Scanned(r.s, r.n + k)
  }

  /** The characters of a class; the bits for NUL are never set. */
  function ClassSet(neg: bool, body: seq<int>): set<int>
    requires Elements(body + [RBRACK], 0, {}).Scanned?
  {
    var s := Elements(body + [RBRACK], 0, {}).s;
    if neg then Span(1, 128) - s else s
  }

  predicate BodyOk(neg: bool, body: seq<int>) {
    && Elements(body + [RBRACK], 0, {}).Scanned? && Elements(body + [RBRACK], 0, {}).n == |body| + 1
    && (!neg ==> body != [] && body[0] != CIRC)
  }

  /** What is read does not depend on what follows. */
  lemma {:induction false} RestLocal(t: seq<int>, u: seq<int>, lc: int, s: set<int>)
    requires Rest(t, lc, s).Scanned?
    ensures Rest(t + u, lc, s) == Rest(t, lc, s)
    decreases |t|, 1
  {
    if t[0] != RBRACK {
      ElementsLocal(t, u, lc, s);
    }
  }

  lemma {:induction false} ElementsLocal(t: seq<int>, u: seq<int>, lc: int, s: set<int>)
    requires Elements(t, lc, s).Scanned?
    ensures Elements(t + u, lc, s) == Elements(t, lc, s)
    decreases |t|, 0
  {
    if t[0] == DASH && lc != 0 {
      if t[1] != RBRACK {
        assert (t + u)[2..] == t[2..] + u;
        RestLocal(t[2..], u, t[1], s + Span(lc, t[1]) + {t[1]});
      }
    } else {
      assert (t + u)[1..] == t[1..] + u;
      RestLocal(t[1..], u, t[0], s + {t[0]});
    }
  }

  /** ... and ends with a bracket. */
  lemma {:induction false} RestPrefix(t: seq<int>, lc: int, s: set<int>)
    requires Rest(t, lc, s).Scanned?
    ensures var n := Rest(t, lc, s).n; 0 < n <= |t| && t[n - 1] == RBRACK && Rest(t[..n], lc, s) == Rest(t, lc, s)
    decreases |t|, 1
  {
    if t[0] != RBRACK {
      ElementsPrefix(t, lc, s);
    }
  }

  lemma {:induction false} ElementsPrefix(t: seq<int>, lc: int, s: set<int>)
    requires Elements(t, lc, s).Scanned?
    ensures var n := Elements(t, lc, s).n;
      0 < n <= |t| && t[n - 1] == RBRACK && Elements(t[..n], lc, s) == Elements(t, lc, s)
    decreases |t|, 0
  {
    var n := Elements(t, lc, s).n;
    if t[0] == DASH && lc != 0 {
      if t[1] != RBRACK {
        RestPrefix(t[2..], t[1], s + Span(lc, t[1]) + {t[1]});
        assert t[..n][2..] == t[2..][..n - 2];
      }
    } else {
      RestPrefix(t[1..], t[0], s + {t[0]});
      assert t[..n][1..] == t[1..][..n - 1];
    }
  }

  // What the text of a class means.

  datatype Elem = Single(c: int) | Through(a: int, b: int)

  predicate ElemOk(e: Elem) {
    match e
    case Single(c) => c !in {0, NEWLINE, DASH, RBRACK}
    case Through(a, b) => a !in {0, NEWLINE, DASH, RBRACK} && b != RBRACK
  }

  function ElemText(e: Elem): seq<int> {
    match e
    case Single(c) => [c]
    case Through(a, b) => [a, DASH, b]
  }

  function ElemsText(es: seq<Elem>): seq<int> {
    if es == [] then [] else ElemText(es[0]) + ElemsText(es[1..])
  }

  predicate Has(e: Elem, c: int) {
    match e
    case Single(x) => c == x
    case Through(a, b) => a <= c < b || c == a || c == b
  }

  /** c is among the characters that the elements stand for. */
  predicate Among(c: int, es: seq<Elem>) {
    es != [] && (Has(es[0], c) || Among(c, es[1..]))
  }

  lemma ElemStep(e: Elem, rest: seq<int>, lc: int, s: set<int>) returns (s': set<int>, lc': int)
    requires ElemOk(e)
    ensures Rest(ElemText(e) + rest, lc, s) == Plus(Rest(rest, lc', s'), |ElemText(e)|)
    ensures forall c :: c in s' <==> c in s || Has(e, c)
  {
    var t := ElemText(e) + rest;
    match e
    case Single(x) =>
      s', lc' := s + {x}, x;
      assert t[1..] == rest;
    case Through(a, b) =>
      s', lc' := s + {a} + Span(a, b) + {b}, b;
      assert t[1..] == [DASH, b] + rest && t[1..][2..] == rest;
      assert Elements(t, lc, s) == Plus(Rest(t[1..], a, s + {a}), 1);
      assert Elements(t[1..], a, s + {a}) == Plus(Rest(rest, b, s'), 2);
  }

  /** A class of single characters and ranges stands for their union. */
  lemma {:induction false} ElemsMeaning(es: seq<Elem>, u: seq<int>, lc: int, s: set<int>)
    requires forall e | e in es :: ElemOk(e)
    ensures var r := Rest(ElemsText(es) + [RBRACK] + u, lc, s);
      r.Scanned? && r.n == |ElemsText(es)| + 1 && forall c :: c in r.s <==> c in s || Among(c, es)
    decreases |es|
  {
    hide ElemText, Has, ElemOk;
    if es != [] {
      var rest := ElemsText(es[1..]) + [RBRACK] + u;
      assert es[0] in es && ElemsText(es) + [RBRACK] + u == ElemText(es[0]) + rest;
      hide Rest;
      var s', lc' := ElemStep(es[0], rest, lc, s);
      ElemsMeaning(es[1..], u, lc', s');
    }
  }
}
