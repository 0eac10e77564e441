/** The words of an expression in other terms, and the characters that texts are made of. */
module AwkWords {
  import opened AwkRegex
  import opened AwkSearch

  function Joined(ws: seq<seq<int>>): seq<int> {
    if ws == [] then [] else ws[0] + Joined(ws[1..])
  }

  ghost predicate AllIn(ws: seq<seq<int>>, r: Re) {
    forall i | 0 <= i < |ws| :: In(r, ws[i])
  }

  lemma WordInFront(e: Re, v: seq<int>, ws: seq<seq<int>>)
    requires AllIn(ws, e) && In(e, v)
    ensures AllIn([v] + ws, e) && Joined([v] + ws) == v + Joined(ws)
  {
    assert ([v] + ws)[1..] == ws;
  }

  lemma {:induction false} RepeatedWords(e: Re, w: seq<int>)
    requires Repeated(e, w)
    ensures exists ws :: AllIn(ws, e) && Joined(ws) == w
    decreases |w|
  {
    if w == [] {
      assert AllIn([], e) && Joined([]) == w;
    } else {
      var k :| 0 < k <= |w| && In(e, w[..k]) && Repeated(e, w[k..]);
      RepeatedWords(e, w[k..]);
      var ws :| AllIn(ws, e) && Joined(ws) == w[k..];
      WordInFront(e, w[..k], ws);
      assert w == w[..k] + w[k..];
    }
  }

  lemma {:induction false} WordsRepeated(e: Re, ws: seq<seq<int>>)
    requires AllIn(ws, e)
    ensures Repeated(e, Joined(ws))
  {
    if ws != [] {
      WordsRepeated(e, ws[1..]);
      var w, rest := ws[0], Joined(ws[1..]);
      if w == [] {
        assert w + rest == rest;
      } else {
        assert (w + rest)[..|w|] == w && (w + rest)[|w|..] == rest;
      }
    }
  }

  /** A star stands for any number of words, a plus for one or more, a question mark for one or none. */
  lemma RepetitionWords(e: Re, w: seq<int>)
    ensures In(Star(e), w) <==> exists ws :: AllIn(ws, e) && Joined(ws) == w
    ensures In(Plus(e), w) <==> exists ws :: ws != [] && AllIn(ws, e) && Joined(ws) == w
    ensures In(Quest(e), w) <==> exists ws :: |ws| <= 1 && AllIn(ws, e) && Joined(ws) == w
  {
    if Repeated(e, w) {
      RepeatedWords(e, w);
    }
    forall ws | AllIn(ws, e) && Joined(ws) == w
      ensures Repeated(e, w)
    {
      WordsRepeated(e, ws);
    }
    PlusWords(e, w);
    QuestWords(e, w);
  }

  lemma PlusWords(e: Re, w: seq<int>)
    ensures In(Plus(e), w) <==> exists ws :: ws != [] && AllIn(ws, e) && Joined(ws) == w
  {
    hide AllIn, Joined;
    if In(Plus(e), w) {
      var k :| 0 <= k <= |w| && In(e, w[..k]) && Repeated(e, w[k..]);
      RepeatedWords(e, w[k..]);
      var ws :| AllIn(ws, e) && Joined(ws) == w[k..];
      WordInFront(e, w[..k], ws);
      assert w == w[..k] + w[k..];
    }
    if ws :| ws != [] && AllIn(ws, e) && Joined(ws) == w {
      FirstWord(e, ws);
      WordsRepeated(e, ws[1..]);
      InPlus(e, ws[0], Joined(ws[1..]));
    }
  }

  lemma FirstWord(e: Re, ws: seq<seq<int>>)
    requires ws != [] && AllIn(ws, e)
    ensures In(e, ws[0]) && AllIn(ws[1..], e) && Joined(ws) == ws[0] + Joined(ws[1..])
  {
  }

  lemma QuestWords(e: Re, w: seq<int>)
    ensures In(Quest(e), w) <==> exists ws :: |ws| <= 1 && AllIn(ws, e) && Joined(ws) == w
  {
    if w == [] {
      assert AllIn([], e) && Joined([]) == w;
    } else if In(e, w) {
      assert [w][1..] == [] && AllIn([w], e) && Joined([w]) == w;
    }
    if ws :| |ws| <= 1 && AllIn(ws, e) && Joined(ws) == w {
      if ws != [] {
        assert ws[1..] == [] && ws[0] + [] == ws[0];
      }
    }
  }

  /** A character that can be typed and seen, a blank or a tab. */
  predicate Ordinary(c: int) {
    ' ' as int <= c <= '~' as int || c == '\t' as int
  }

  /** A text of such characters may be searched, and a dot stands for any of them, as does a negated
      class for those that are not in it. */
  lemma OrdinaryText(text: seq<int>, i: int, cs: seq<int>)
    requires forall c | c in text :: Ordinary(c)
    ensures Plain(text) && !Plain([127]) && !Plain([0])
    ensures forall c | c in text :: In(Leaf(i, Dot), [c]) && (In(Leaf(i, Nccl(cs)), [c]) <==> c !in cs)
    ensures forall c | c in text :: (In(Leaf(i, Ccl(cs)), [c]) <==> c in cs) && (In(Leaf(i, Char(c)), [c]))
  {
  }

  /** A leaf stands for one character, but for an empty class, which stands for none. */
  lemma LeafWords(i: int, s: Sym, w: seq<int>)
    requires In(Leaf(i, s), w)
    ensures |w| == if s == Ccl([]) then 0 else 1
    ensures s.Char? ==> w == [s.k]
  {
  }
}
