/** What the lines of dag's input say, told by the characters on them. */
module DagSaid {
  import opened Strings
  import opened DagLines
  import opened DagRead

  predicate NameChar(c: char) {
    'a' <= c <= 'z' || 'A' <= c <= 'Z' || '0' <= c <= '9' || c == '_'
  }

  predicate SpaceChar(c: char) {
    c == ' ' || c == '\t' || c == '\n' || c == '\r' || c as int == 11 || c as int == 12
  }

  predicate Naming(x: Text) {
    forall i | 0 <= i < |x| :: 0 <= x[i] < 128 && NameChar(x[i] as char)
  }

  predicate Space(x: Text) {
    forall i | 0 <= i < |x| :: 0 <= x[i] < 128 && SpaceChar(x[i] as char)
  }

  /** Blanks, x, blanks, the sign and r. */
  ghost predicate SignLine(t: Text, x: Text, sign: char, r: Text) {
    Naming(x) && exists a, b :: Space(a) && Space(b) && t == a + (x + (b + ([sign as int] + r)))
  }

  /** Blanks, x, blanks, =, blanks and v. */
  ghost predicate ValueLine(t: Text, x: Text, v: Text) {
    (v != [] ==> !Space(v[..1])) && exists c :: Space(c) && SignLine(t, x, '=', c + v)
  }

  lemma CharsAre(x: Text)
    ensures Naming(x) <==> forall i | 0 <= i < |x| :: IsName(x[i])
    ensures Space(x) <==> forall i | 0 <= i < |x| :: IsSpace(x[i])
  {
  }

  lemma SignIs(sign: char)
    requires sign == '=' || sign == ':'
    ensures !IsName(sign as int) && !IsSpace(sign as int)
    ensures sign as int == if sign == '=' then EQUALS else COLON
  {
  }

  lemma SkipsSpace(a: Text, r: Text)
    requires Space(a) && (r != [] ==> !IsSpace(r[0]))
    ensures Skip(a + r) == r
  {
    hide *;
    CharsAre(a);
    SkipEnds(a + r, |a|);
  }

  lemma SkippedSpace(t: Text)
    ensures var a := t[..|t| - |Skip(t)|];
      Space(a) && t == a + Skip(t) && (Skip(t) != [] ==> !IsSpace(Skip(t)[0]))
  {
    hide IsSpace, Space;
    BlanksAre(t, Blanks(t));
    CharsAre(t[..Blanks(t)]);
  }

  lemma TakenName(q: Text)
    ensures Naming(NameOf(q)) && q == NameOf(q) + Behind(q)
  {
    hide IsName, Naming;
    NameLenIs(q, NameLen(q));
    CharsAre(NameOf(q));
  }

  lemma NotBoth(c: int)
    ensures !(IsName(c) && IsSpace(c))
  {
  }

  /** A line with a sign behind at most one name is taken apart there. */
  lemma SignTold(t: Text, x: Text, sign: char, r: Text)
    requires (sign == '=' || sign == ':') && SignLine(t, x, sign, r)
    ensures Parse(t) == if sign == '=' then Value(x, Skip(r)) else Refers(x, r)
  {
    hide IsName, IsSpace, Naming, Space, Skip, NameOf, Behind;
    var a, b :| Space(a) && Space(b) && t == a + (x + (b + ([sign as int] + r)));
    var u := [sign as int] + r;
    SignIs(sign);
    CharsAre(x);
    CharsAre(b);
    assert u[1..] == r;
    SkipsSpace(b, u);
    if x == [] {
      CharsAre(a);
      CharsAre(a + b);
      assert t == (a + b) + u && x + (b + u) == b + u;
      SkipsSpace(a + b, u);
      NameEnds(u, 0);
      SkipEnds(u, 0);
      assert u[0..] == u && u[..0] == [];
    } else {
      var q := x + (b + u);
      assert q[0] == x[0];
      NotBoth(x[0]);
      SkipsSpace(a, q);
      if b != [] {
        assert (b + u)[0] == b[0];
        NotBoth(b[0]);
      }
      NameEnds(q, |x|);
      assert q[..|x|] == x && q[|x|..] == b + u;
    }
  }

  lemma SignFound(t: Text, x: Text, r: Text, sign: char)
    requires x == NameOf(Skip(t)) && [sign as int] + r == Skip(Behind(Skip(t)))
    ensures SignLine(t, x, sign, r)
  {
    var q, u := Skip(t), [sign as int] + r;
    SkippedSpace(t);
    TakenName(q);
    SkippedSpace(Behind(q));
    hide *;
    var a, b := t[..|t| - |q|], Behind(q)[..|Behind(q)| - |u|];
    assert t == a + (x + (b + u));
    SignHas(a, x, b, sign, r);
  }

  lemma SignHas(a: Text, x: Text, b: Text, sign: char, r: Text)
    requires Space(a) && Naming(x) && Space(b)
    ensures SignLine(a + (x + (b + ([sign as int] + r))), x, sign, r)
  {
  }

  lemma ValueFound(t: Text, x: Text, r: Text)
    requires SignLine(t, x, '=', r)
    ensures ValueLine(t, x, Skip(r))
  {
    hide SignLine, Skip, IsSpace;
    var v := Skip(r);
    SkippedSpace(r);
    assert r == r[..|r| - |v|] + v;
    if v != [] {
      CharsAre(v[..1]);
    }
  }

  /** And only such a line is. */
  lemma ToldSign(t: Text)
    ensures Parse(t).Value? ==> ValueLine(t, Parse(t).name, Parse(t).text)
    ensures Parse(t).Refers? ==> SignLine(t, Parse(t).name, ':', Parse(t).others)
  {
    hide ValueLine, SignLine, Skip, NameOf, Behind;
    var x, r := NameOf(Skip(t)), Skip(Behind(Skip(t)));
    if r != [] {
      assert r == [r[0]] + r[1..];
      if r[0] == EQUALS {
        SignFound(t, x, r[1..], '=');
        ValueFound(t, x, r[1..]);
      } else if r[0] == COLON {
        SignFound(t, x, r[1..], ':');
      }
    }
  }

  /** Just the lines with = give a text, and just those with : say what a name refers to. */
  lemma LinesTold(t: Text, x: Text, v: Text)
    ensures Parse(t) == Value(x, v) <==> ValueLine(t, x, v)
    ensures Parse(t) == Refers(x, v) <==> SignLine(t, x, ':', v)
  {
    hide Parse, IsSpace, Space, SignLine;
    ToldSign(t);
    if ValueLine(t, x, v) {
      var c :| Space(c) && SignLine(t, x, '=', c + v);
      SignTold(t, x, '=', c + v);
      if v != [] {
        CharsAre(v[..1]);
      }
      SkipsSpace(c, v);
    }
    if SignLine(t, x, ':', v) {
      SignTold(t, x, ':', v);
    }
  }

  // In which order names are met.

  /** The names in a line. */
  function Spoken(t: Text): seq<Text> {
    match Parse(t)
    case Value(x, _) => [x]
    case Refers(x, others) => [x] + Entered(others)
    case Other => []
  }

  function AllSpoken(ls: seq<Text>): seq<Text> {
    if ls == [] then [] else AllSpoken(ls[..|ls| - 1]) + Spoken(ls[|ls| - 1])
  }

  /** The names to which the line says that x refers. */
  function SpokenOf(t: Text, x: Text): seq<Text> {
    match Parse(t)
    case Refers(y, others) => if y == x then Entered(others) else []
    case _ => []
  }

  function AllSpokenOf(ls: seq<Text>, x: Text): seq<Text> {
    if ls == [] then [] else AllSpokenOf(ls[..|ls| - 1], x) + SpokenOf(ls[|ls| - 1], x)
  }

  /** x has been met when y has not. */
  ghost predicate MetBefore(ms: seq<Text>, x: Text, y: Text) {
    exists k :: 0 <= k <= |ms| && x in ms[..k] && y !in ms[..k]
  }

  /** l has what is in ms, each once, in the order in which they are first met. */
  ghost predicate FirstMet(l: seq<Text>, ms: seq<Text>) {
    && (forall x :: x in l <==> x in ms)
    && forall i, j | 0 <= i < j < |l| :: l[i] != l[j] && MetBefore(ms, l[i], l[j])
  }

  lemma MetMore(ms: seq<Text>, more: seq<Text>, x: Text, y: Text)
    requires MetBefore(ms, x, y)
    ensures MetBefore(ms + more, x, y)
  {
    var k :| 0 <= k <= |ms| && x in ms[..k] && y !in ms[..k];
    assert (ms + more)[..k] == ms[..k];
  }

  lemma MetNoted(l: seq<Text>, ms: seq<Text>, x: Text)
    requires FirstMet(l, ms)
    ensures FirstMet(Noted(l, x), ms + [x])
  {
    hide MetBefore;
    var l' := Noted(l, x);
    forall i, j | 0 <= i < j < |l'|
      ensures l'[i] != l'[j] && MetBefore(ms + [x], l'[i], l'[j])
    {
      if j < |l| {
        MetMore(ms, [x], l[i], l[j]);
      } else {
        assert l[i] in l;
        NewMet(ms, l[i], x);
      }
    }
  }

  lemma NewMet(ms: seq<Text>, x: Text, y: Text)
    requires x in ms && y !in ms
    ensures MetBefore(ms + [y], x, y)
  {
    assert (ms + [y])[..|ms|] == ms;
  }

  lemma {:induction false} RefsSaid(s: Said, x: Text, ys: seq<Text>, ms: seq<Text>, ns: seq<Text>, z: Text)
    requires FirstMet(s.order, ms) && FirstMet(Others(s, z), ns)
    ensures FirstMet(Refs(s, x, ys).order, ms + ys)
    ensures FirstMet(Others(Refs(s, x, ys), z), ns + if x == z then ys else [])
    ensures Refs(s, x, ys).texts == s.texts
  {
    hide FirstMet, Noted;
    if ys == [] {
      assert ms + ys == ms && ns + [] == ns;
    } else {
      var n := |ys| - 1;
      var r := Refs(s, x, ys[..n]);
      RefsSaid(s, x, ys[..n], ms, ns, z);
      assert ms + ys[..n] + [ys[n]] == ms + ys && ns + ys[..n] + [ys[n]] == ns + ys && ns + [] == ns;
      MetNoted(r.order, ms + ys[..n], ys[n]);
      if x == z {
        MetNoted(Others(r, z), ns + ys[..n], ys[n]);
      }
    }
  }

  /** The last text for a name. */
  ghost predicate LastText(ls: seq<Text>, x: Text, v: Text) {
    exists k :: 0 <= k < |ls| && ValueLine(ls[k], x, v) && forall i, w | k < i < |ls| :: !ValueLine(ls[i], x, w)
  }

  /** What has been said: every name on the lines, in order, the others of each in order, and for each
      the text of its last line with one. */
  lemma {:induction false} SaidIs(ls: seq<Text>, x: Text)
    ensures FirstMet(HearAll(ls).order, AllSpoken(ls)) && FirstMet(Others(HearAll(ls), x), AllSpokenOf(ls, x))
    ensures forall v :: LastText(ls, x, v) <==> x in HearAll(ls).texts && HearAll(ls).texts[x] == v
  {
    hide FirstMet, Noted, Parse, Entered, LastText;
    if ls == [] {
      NothingSaid(x);
    } else {
      var n := |ls| - 1;
      var s, t := HearAll(ls[..n]), ls[n];
      var ms, ns := AllSpoken(ls[..n]), AllSpokenOf(ls[..n], x);
      SaidIs(ls[..n], x);
      assert ls == ls[..n] + [t];
      TextSaid(ls[..n], t, x);
      assert ns + [] == ns && ms + [] == ms;
      match Parse(t)
      case Value(y, v) => MetNoted(s.order, ms, y);
      case Refers(y, others) =>
        MetNoted(s.order, ms, y);
        RefsSaid(Name(s, y), y, Entered(others), ms + [y], ns, x);
        assert ms + [y] + Entered(others) == ms + ([y] + Entered(others));
      case Other =>
    }
  }

  lemma NothingSaid(x: Text)
    ensures FirstMet([], []) && forall v :: !LastText([], x, v)
  {
  }

  lemma TextSaid(ls: seq<Text>, t: Text, x: Text)
    ensures forall v :: LastText(ls + [t], x, v) <==>
      if Parse(t).Value? && Parse(t).name == x then Parse(t).text == v else LastText(ls, x, v)
  {
    hide Parse, ValueLine;
    var n := |ls|;
    forall v
      ensures ValueLine(t, x, v) <==> Parse(t) == Value(x, v)
    {
      LinesTold(t, x, v);
    }
    assert (ls + [t])[n] == t;
    var mine := Parse(t).Value? && Parse(t).name == x;
    forall v
      ensures LastText(ls + [t], x, v) <==> if mine then Parse(t).text == v else LastText(ls, x, v)
    {
      if mine {
        TextIsLast(ls, t, x, v);
      } else {
        TextStays(ls, t, x, v);
      }
    }
  }

  lemma TextIsLast(ls: seq<Text>, t: Text, x: Text, v: Text)
    requires exists w :: ValueLine(t, x, w)
    ensures LastText(ls + [t], x, v) <==> ValueLine(t, x, v)
  {
    hide ValueLine;
    var m := ls + [t];
    assert m[|ls|] == t;
    if ValueLine(t, x, v) {
      assert ValueLine(m[|ls|], x, v);
    }
  }

  lemma TextStays(ls: seq<Text>, t: Text, x: Text, v: Text)
    requires forall w :: !ValueLine(t, x, w)
    ensures LastText(ls + [t], x, v) <==> LastText(ls, x, v)
  {
    hide ValueLine;
    var m := ls + [t];
    assert m[|ls|] == t && forall i | 0 <= i < |ls| :: m[i] == ls[i];
    if LastText(ls, x, v) {
      var k :| 0 <= k < |ls| && ValueLine(ls[k], x, v) && forall i, w | k < i < |ls| :: !ValueLine(ls[i], x, w);
      assert ValueLine(m[k], x, v);
      assert forall i, w | k < i < |m| :: !ValueLine(m[i], x, w);
    }
  }
}
