/** compile and step together: what a pattern finds is what it says. */
module EdSearch {
  import opened EdPattern
  import opened EdBounds
  import opened EdCode
  import opened EdMatch
  import opened EdText
  import opened EdBuild
  import opened EdCompile

  /** The tokens are the pattern that is to be compiled, after a circumflex if circ. */
  ghost predicate ToCompile(c: Compiler, ts: seq<Token>, circ: bool)
    reads c
  {
    && c.Valid() && c.pos == 0 && c.code == [] && c.lastep == -1 && c.nbra == c.ebra == 0 && !c.circf
    && if circ then c.IsPattern(1, ts) && c.Has(0, [CIRC]) && c.eof != CIRC
       else c.IsPattern(0, ts) && ts != [] && ts[0] != Plain(CIRC)
  }

  /** Where a match may begin. */
  predicate MayBegin(text: seq<int>, p1: nat, circ: bool, i: int) {
    p1 <= i <= |text| && (circ ==> i == p1)
  }

  /** A part of the text, counted out, is what a pattern asks for that ends in a range. */
  ghost predicate FoundCounted(g: EdPattern.Given, items: seq<Item>, p1: nat, circ: bool)
    requires EndsCounted(items) && AllOk(items)
  {
    FrontOk(items);
    exists i, j :: MayBegin(g.t, p1, circ, i) && Counted(g, items, i, j)
  }

  /** Compiles the pattern and looks for it in the text from p1 on. It is found if and only if some
      part of the text matches it; the match begins as early as can be, and every repetition in it
      in turn takes as much as it may. */
  method Search(c: Compiler, text: seq<int>, locs: int, unsigned: bool, p1: nat, ghost ts: seq<Token>, ghost circ: bool)
    returns (found: bool, loc1: int, loc2: int)
    requires ToCompile(c, ts, circ) && 0 !in text && p1 <= |text|
    modifies c
    ensures (forall t | t in ts :: TokOk(t)) && Fold(ts).Good? && AllOk(Fold(ts).items)
    ensures var g, items := EdPattern.Given(text, locs, unsigned), Fold(ts).items;
      && (found <==> exists i, j :: MayBegin(text, p1, circ, i) && In(g, items, i, j, NoGroups()))
      && (found ==> MayBegin(text, p1, circ, loc1) && In(g, items, loc1, loc2, NoGroups()))
      && (found ==> Best(g, items, loc1, NoGroups()) == Some(loc2))
      && (found ==> forall i, j | p1 <= i < loc1 :: !In(g, items, i, j, NoGroups()))
      && (Free(g) && EndsCounted(items) ==> (found <==> FoundCounted(g, items, p1, circ)))
  {
    hide Fold, TokOk, Encode, Best, In, Formed, AllOk, Spell, SpellAll, Compiler.Has;
    hide FoundCounted, Free, EndsCounted;
    PatternFacts(c, ts, circ);
    var st;
    ghost var read;
    st, read := c.Compile(ts);
    FoldSound(ts);
    ghost var items := Fold(ts).items;
    var m := new Matcher(text, c.code, locs, unsigned);
    WellFormed(items);
    found := m.Step(p1, c.circf, items);
    loc1, loc2 := m.loc1, m.loc2;
    Meaning(m, text, EdPattern.Given(text, locs, unsigned), items, p1, circ, found);
    CountedFound(EdPattern.Given(text, locs, unsigned), items, p1, circ);
  }

  /** A pattern that ends in a range is found where that is counted out. */
  lemma CountedFound(g: EdPattern.Given, items: seq<Item>, p1: nat, circ: bool)
    requires AllOk(items) && p1 <= |g.t|
    ensures Free(g) && EndsCounted(items) ==>
      (FoundCounted(g, items, p1, circ) <==>
        exists i, j :: MayBegin(g.t, p1, circ, i) && In(g, items, i, j, NoGroups()))
  {
    hide In, AllOk, Counted, NoGroups;
    if Free(g) && EndsCounted(items) {
      FrontOk(items);
      forall i, j | MayBegin(g.t, p1, circ, i)
        ensures In(g, items, i, j, NoGroups()) <==> Counted(g, items, i, j)
      {
        CountedIs(g, items, i, j);
      }
      if i, j :| MayBegin(g.t, p1, circ, i) && In(g, items, i, j, NoGroups()) {
        assert Counted(g, items, i, j);
      }
      if FoundCounted(g, items, p1, circ) {
        var i, j :| MayBegin(g.t, p1, circ, i) && Counted(g, items, i, j);
        assert In(g, items, i, j, NoGroups());
      }
    }
  }

  lemma PatternFacts(c: Compiler, ts: seq<Token>, circ: bool)
    requires ToCompile(c, ts, circ)
    ensures (forall t | t in ts :: TokOk(t)) && Fold(ts).Good?
  {
    hide Fold, TokOk;
  }

  lemma WellFormed(items: seq<Item>)
    requires Sound(items)
    ensures AllOk(items) && Formed(items, {}, {})
  {
  }

  lemma Meaning(m: Matcher, text: seq<int>, g: EdPattern.Given, items: seq<Item>, p1: nat, circ: bool, found: bool)
    requires text == m.text && g == m.G() && AllOk(items) && p1 <= |text|
    requires found <==> exists i, j :: m.Begins(p1, circ, i) && m.Matches(items, i, j)
    requires found ==> p1 <= m.loc1 <= |text| && forall i | p1 <= i < m.loc1 :: m.Fails(items, i)
    ensures found <==> exists i, j :: MayBegin(text, p1, circ, i) && In(g, items, i, j, NoGroups())
    ensures found ==> forall i, j | p1 <= i < m.loc1 :: !In(g, items, i, j, NoGroups())
  {
    hide In, AllOk;
    if found {
      var i, j :| m.Begins(p1, circ, i) && m.Matches(items, i, j);
      assert MayBegin(text, p1, circ, i) && In(g, items, i, j, NoGroups());
      forall i, j | p1 <= i < m.loc1
        ensures !In(g, items, i, j, NoGroups())
      {
        assert m.Fails(items, i) && !m.Matches(items, i, j);
      }
    } else {
      forall i, j | MayBegin(text, p1, circ, i)
        ensures !In(g, items, i, j, NoGroups())
      {
        assert m.Begins(p1, circ, i) ==> !m.Matches(items, i, j);
      }
    }
  }
}
