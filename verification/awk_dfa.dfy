/** The subset construction: from follow sets to a transition table. */
module AwkDfa {
  import opened AwkRegex
  import opened AwkSearch
  import opened AwkTree
  import opened AwkCompiler
  import opened AwkStates

  datatype Option<T> = None | Some(value: T)

  /** A state: the number of its transitions, or -1 when it is final, and the transitions
      themselves, each a character and a state. Characters without one lead to state 0. */
  datatype Fa = Fa(cch: int, edges: seq<(int, int)>)

  predicate HasEdge(edges: seq<(int, int)>, c: int) {
    exists i | 0 <= i < |edges| :: edges[i].0 == c
  }

  predicate NoneTwice(edges: seq<(int, int)>) {
    forall i, j | 0 <= i < j < |edges| :: edges[i].0 != edges[j].0
  }

  /** Position q of p has its follow set and its leaf in the tables. */
  ghost predicate PosOk(g: Compiler, p: Re, q: int)
    requires g.Sized() && Ordered(p)
    reads g, g.foll, g.point
  {
    && Has(p, q) && 0 <= q < g.maxlin
    && IsVec(g.foll[q]) && Members(g.foll[q]) == AwkRegex.Follow(p, q, g.line)
    && g.point[q] != null && g.point[q].kind == LEAF && g.point[q].sym == SymAt(p, q)
  }

  /** The tables hold p, whose positions are numbered from 1, and its initial positions as the
      follow set of position 0. */
  ghost predicate Tabulated(g: Compiler, p: Re)
    reads g, g.foll, g.point
  {
    && g.Sized() && Ordered(p) && Lo(p) == 1 && WellFormed(p)
    && g.line == Leaves(p) + 1 < g.maxlin
    && IsVec(g.foll[0]) && Members(g.foll[0]) == Initial(p, g.line)
    && (forall q | Has(p, q) :: PosOk(g, p, q))
    && g.point[g.line] != null && g.point[g.line].kind == FINAL
  }

  /** The row of state i: final or not, and a transition for each character that some position
      lists, leading to what follows on it. Positions in every state are left out of sets. */
  ghost predicate RowOk(row: Fa, sets: seq<set<int>>, i: int, p: Re, fin: int)
    requires 0 <= i < |sets| && Ordered(p)
  {
    var init := Initial(p, fin);
    if fin in sets[i] then row == Fa(-1, [])
    else
      && row.cch == |row.edges| <= NCHARS && NoneTwice(row.edges)
      && (forall c :: HasEdge(row.edges, c) <==> SomeLists(p, sets[i] + init, c))
      && (forall e | e in row.edges ::
            0 <= e.1 < |sets| && sets[e.1] == TakenStep(p, fin, sets[i] + init, e.0) - init)
  }

  /** A table that works the search automaton of p. */
  ghost predicate Works(m: seq<Fa>, sets: seq<set<int>>, p: Re, fin: int)
    requires Ordered(p)
  {
    && |m| == |sets| >= 1
    && sets[0] == Initial(p, fin)
    && (fin in Initial(p, fin) ==> |m| == 1)
    && (forall i | 0 <= i < |m| :: RowOk(m[i], sets, i, p, fin))
  }

  // The symbols of a state.

  /** ssyms lists, once each, the symbols in old' and in marks. */
  ghost predicate Lists(ssyms: seq<int>, old': set<int>, marks: set<int>) {
    old' !! marks && |ssyms| == |old'| + |marks| && forall k :: k in ssyms <==> k in old' + marks
  }

  /** Appends to ssyms the symbols listed for a leaf that are neither in old' nor in marks. */
  method ListSymbols(s: Sym, old': set<int>, marks: set<int>, ssyms: seq<int>)
    returns (marks': set<int>, ssyms': seq<int>)
    requires SymOk(s) && Lists(ssyms, old', marks)
    ensures Lists(ssyms', old', marks')
    ensures forall k :: k in old' + marks' <==> k in old' + marks || Listed(s, k)
  {
    hide Lists;
    marks', ssyms' := marks, ssyms;
    match s
    case Char(k) =>
      marks', ssyms' := ListSymbol(k, old', marks', ssyms');
    case Dot =>
      for k := 1 to NCHARS
        invariant Lists(ssyms', old', marks')
        invariant forall c :: c in old' + marks' <==> c in old' + marks || (c < k && Listed(s, c))
      {
        if k != HAT {
          marks', ssyms' := ListSymbol(k, old', marks', ssyms');
        }
      }
    case Ccl(cs) =>
      for i := 0 to |cs|
        invariant Lists(ssyms', old', marks')
        invariant forall c :: c in old' + marks' <==> c in old' + marks || (c in cs[..i] && c != HAT)
      {
        if cs[i] != HAT {
          marks', ssyms' := ListSymbol(cs[i], old', marks', ssyms');
        }
      }
      assert cs[..|cs|] == cs;
    case Nccl(cs) =>
      for k := 1 to NCHARS
        invariant Lists(ssyms', old', marks')
        invariant forall c :: c in old' + marks' <==> c in old' + marks || (c < k && Listed(s, c))
      {
        if k != HAT && k !in cs {
          marks', ssyms' := ListSymbol(k, old', marks', ssyms');
        }
      }
  }

  method ListSymbol(k: int, old': set<int>, marks: set<int>, ssyms: seq<int>)
    returns (marks': set<int>, ssyms': seq<int>)
    requires Lists(ssyms, old', marks)
    ensures Lists(ssyms', old', marks')
    ensures old' + marks' == old' + marks + {k}
  {
    marks', ssyms' := marks, ssyms;
    if k !in old' && k !in marks {
      marks', ssyms' := marks + {k}, ssyms + [k];
    }
  }

  /** The last entry of a remembered set tells whether it has the end marker. */
  lemma LastIsEnd(v: seq<int>, fin: int)
    requires IsVec(v) && fin > 0 && forall x | x in Members(v) :: x <= fin
    ensures v[v[0]] == fin <==> fin in Members(v)
  {
    assert forall i | 1 <= i < |v| :: v[i] == v[1..][i - 1];
    if fin in Members(v) {
      var i :| 0 <= i < |v| - 1 && v[1..][i] == fin;
      assert v[|v| - 1] in Members(v);
    }
  }

  lemma InitialBounds(p: Re, fin: int)
    requires Ordered(p) && Lo(p) == 1 && fin == Leaves(p) + 1
    ensures Initial(p, fin) != {}
    ensures forall q | q in Initial(p, fin) :: 1 <= q <= fin && (q == fin || Has(p, q))
  {
    FirstBounds(p);
  }

  /** ssyms lists, once each, the symbols in old' and those of the positions in s. */
  ghost predicate SymsOk(p: Re, s: set<int>, old': set<int>, marks: set<int>, ssyms: seq<int>)
    requires Ordered(p)
  {
    && Lists(ssyms, old', marks)
    && (forall k :: k in old' + marks <==> k in old' || SomeLists(p, s, k))
  }

  /** Adds the symbols of one position. */
  method PositionSymbols(g: Compiler, ghost p: Re, curpos: int, ghost s: set<int>, old': set<int>, marks: set<int>,
                         ssyms: seq<int>)
    returns (marks': set<int>, ssyms': seq<int>)
    requires Tabulated(g, p) && SymsOk(p, s, old', marks, ssyms)
    requires curpos == g.line || Has(p, curpos)
    ensures SymsOk(p, s + {curpos}, old', marks', ssyms')
  {
    marks', ssyms' := marks, ssyms;
    var cp := g.point[curpos];
    if cp.kind != FINAL {
      assert PosOk(g, p, curpos);
      SymAtOk(p, curpos);
      marks', ssyms' := ListSymbols(cp.sym, old', marks', ssyms');
    }
    SomeAdds(p, s, curpos);
  }

  lemma SomeAdds(p: Re, s: set<int>, q: int)
    requires Ordered(p)
    ensures forall c :: SomeLists(p, s + {q}, c) <==> SomeLists(p, s, c) || (Has(p, q) && Listed(SymAt(p, q), c))
  {
    forall c
      ensures SomeLists(p, s + {q}, c) <==> SomeLists(p, s, c) || (Has(p, q) && Listed(SymAt(p, q), c))
    {
      if Has(p, q) && Listed(SymAt(p, q), c) {
        assert q in s + {q};
      }
      if x :| x in s && Has(p, x) && Listed(SymAt(p, x), c) {
        assert x in s + {q};
      }
    }
  }

  /** Positions and symbols of state 0, kept for all states. */
  method InitialState(g: Compiler, ghost p: Re)
    returns (iposns: set<int>, sposns: seq<int>, isyms: set<int>, ssyms: seq<int>)
    requires Tabulated(g, p)
    ensures iposns == Initial(p, g.line) && iposns == Elems(sposns)
    ensures SymsOk(p, iposns, {}, isyms, ssyms)
  {
    hide *;
    InitialFacts(g, p);
    var ptr := g.foll[0];
    VecShape(ptr);
    iposns, sposns, isyms, ssyms := {}, [], {}, [];
    for i := 0 to ptr[0]
      invariant iposns == Elems(sposns) && iposns == Upto(ptr, i)
      invariant SymsOk(p, iposns, {}, isyms, ssyms)
    {
      var curpos := ptr[i + 1];
      UptoStep(ptr, i);
      ElemsSnoc(sposns, curpos);
      isyms, ssyms := PositionSymbols(g, p, curpos, iposns, {}, isyms, ssyms);
      sposns := sposns + [curpos];
      iposns := iposns + {curpos};
    }
  }

  lemma InitialFacts(g: Compiler, p: Re)
    requires Tabulated(g, p)
    ensures g.foll.Length > 0 && IsVec(g.foll[0]) && Members(g.foll[0]) == Initial(p, g.line)
    ensures forall q | q in Initial(p, g.line) :: q == g.line || Has(p, q)
    ensures Elems([]) == {} && Ordered(p) && SymsOk(p, {}, {}, {}, [])
  {
    InitialBounds(p, g.line);
  }

  /** The positions and symbols of a state in addition to those of state 0. */
  method StateSymbols(g: Compiler, ghost p: Re, ptr: seq<int>, iposns: set<int>, isyms: set<int>,
                      index0: set<int>, sposns0: seq<int>, ssyms0: seq<int>)
    returns (index: set<int>, sposns: seq<int>, ssyms: seq<int>)
    requires Tabulated(g, p) && IsVec(ptr) && forall q | q in Members(ptr) :: Has(p, q)
    requires iposns == Elems(sposns0) && SymsOk(p, iposns, {}, isyms, ssyms0)
    requires index0 == {}
    ensures Elems(sposns) == Members(ptr) + iposns && index == Members(ptr) - iposns
    ensures SymsOk(p, Members(ptr) + iposns, {}, Elems(ssyms), ssyms)
  {
    hide *;
    InitialFacts(g, p);
    var symbol: set<int> := {};
    index, sposns, ssyms := index0, sposns0, ssyms0;
    SymsStart(p, iposns, isyms, ssyms);
    VecShape(ptr);
    for i := 0 to ptr[0]
      invariant Elems(sposns) == iposns + index && index == Upto(ptr, i) - iposns
      invariant SymsOk(p, Upto(ptr, i), isyms, symbol, ssyms)
    {
      var curpos := ptr[i + 1];
      UptoStep(ptr, i);
      symbol, ssyms := PositionSymbols(g, p, curpos, Upto(ptr, i), isyms, symbol, ssyms);
      index, sposns := NotePosition(curpos, iposns, index, sposns);
    }
    SymsEnd(p, iposns, Members(ptr), isyms, symbol, ssyms0, ssyms);
  }

  /** Appends a position that is neither initial nor noted yet. */
  method NotePosition(curpos: int, iposns: set<int>, index: set<int>, sposns: seq<int>)
    returns (index': set<int>, sposns': seq<int>)
    requires Elems(sposns) == iposns + index
    ensures index' == index + ({curpos} - iposns) && Elems(sposns') == iposns + index'
  {
    index', sposns' := index, sposns;
    if curpos !in iposns && curpos !in index {
      ElemsSnoc(sposns, curpos);
      index', sposns' := index + {curpos}, sposns + [curpos];
    }
  }

  lemma SymsStart(p: Re, init: set<int>, isyms: set<int>, ssyms: seq<int>)
    requires Ordered(p) && SymsOk(p, init, {}, isyms, ssyms)
    ensures SymsOk(p, {}, isyms, {}, ssyms)
  {
  }

  lemma SymsEnd(p: Re, init: set<int>, s: set<int>, isyms: set<int>, symbol: set<int>, ssyms0: seq<int>,
                ssyms: seq<int>)
    requires Ordered(p) && SymsOk(p, init, {}, isyms, ssyms0) && SymsOk(p, s, isyms, symbol, ssyms)
    ensures SymsOk(p, s + init, {}, Elems(ssyms), ssyms)
  {
    forall k
      ensures k in Elems(ssyms) <==> k in isyms + symbol
    {
    }
    assert Elems(ssyms) == isyms + symbol;
    forall k
      ensures k in Elems(ssyms) <==> SomeLists(p, s + init, k)
    {
      SomeUnion(p, s, init, k);
      assert k in {} + isyms <==> SomeLists(p, init, k);
      assert k in isyms + symbol <==> k in isyms || SomeLists(p, s, k);
    }
  }

  lemma SomeUnion(p: Re, s: set<int>, t: set<int>, c: int)
    requires Ordered(p)
    ensures SomeLists(p, s + t, c) <==> SomeLists(p, s, c) || SomeLists(p, t, c)
  {
    if x :| x in s && Has(p, x) && Listed(SymAt(p, x), c) {
      assert x in s + t;
    }
    if x :| x in t && Has(p, x) && Listed(SymAt(p, x), c) {
      assert x in s + t;
    }
  }

  /** Collects in setvec what follows on c the positions listed in sposns, except the initial
      ones, and clears the index flags of those positions. */
  method NextState(g: Compiler, ghost p: Re, sposns: seq<int>, iposns: set<int>, index: set<int>, c: int)
    returns (index': set<int>)
    requires Tabulated(g, p)
    requires forall q | q in Elems(sposns) :: q == g.line || Has(p, q)
    modifies g.marks, g.marks.setvec
    ensures g.marks.setcnt == |g.marks.Vec(g.line)|
    ensures g.marks.Vec(g.line) == TakenStep(p, g.line, Elems(sposns), c) - iposns
    ensures index' == index - Elems(sposns)
  {
    hide Elems, Tabulated, TakenStep, Marks.Vec, Has, FollowIf;
    var line := g.line;
    var m := g.marks;
    NextStateStart(g, p, sposns, c);
    m.ClearAll(line);
    index' := index;
    for i := 0 to |sposns|
      invariant Tabulated(g, p)
      invariant index' == index - Elems(sposns[..i])
      invariant m.setcnt == |m.Vec(line)|
      invariant m.Vec(line) == TakenStep(p, line, Elems(sposns[..i]), c) - iposns
    {
      var q := sposns[i];
      assert sposns[..i + 1] == sposns[..i] + [q];
      ElemsSnoc(sposns[..i], q);
      index' := index' - {q};
      TakenAdds(p, line, Elems(sposns[..i]), q, c);
      TakePosition(g, p, q, iposns, c);
    }
    assert sposns[..|sposns|] == sposns;
  }

  lemma NextStateStart(g: Compiler, p: Re, sposns: seq<int>, c: int)
    requires Tabulated(g, p)
    ensures 0 <= g.line < g.marks.setvec.Length && Ordered(p)
    ensures Elems(sposns[..0]) == {} && TakenStep(p, g.line, {}, c) == {}
    ensures forall i | 0 <= i < |sposns| :: sposns[i] in Elems(sposns)
  {
  }

  /** Adds what follows position q if its leaf is taken on c. */
  method TakePosition(g: Compiler, ghost p: Re, q: int, iposns: set<int>, c: int)
    requires Tabulated(g, p) && (q == g.line || Has(p, q))
    requires g.marks.setcnt == |g.marks.Vec(g.line)|
    modifies g.marks, g.marks.setvec
    ensures g.marks.setcnt == |g.marks.Vec(g.line)|
    ensures g.marks.Vec(g.line) == old(g.marks.Vec(g.line)) + (FollowIf(p, g.line, q, c) - iposns)
  {
    hide Marks.Vec;
    var cp := g.point[q];
    if cp.kind != FINAL {
      assert PosOk(g, p, q);
      if Taken(cp.sym, c) {
        FollowBounds(p, q, g.line);
        g.marks.Collect(g.foll[q], iposns, g.line);
      }
    }
  }

  ghost function FollowIf(p: Re, fin: int, q: int, c: int): set<int>
    requires Ordered(p)
  {
    if Has(p, q) && Taken(SymAt(p, q), c) then AwkRegex.Follow(p, q, fin) else {}
  }

  lemma TakenAdds(p: Re, fin: int, s: set<int>, q: int, c: int)
    requires Ordered(p)
    ensures TakenStep(p, fin, s + {q}, c) == TakenStep(p, fin, s, c) + FollowIf(p, fin, q, c)
  {
    hide AwkRegex.Follow, SymAt;
    forall t
      ensures t in TakenStep(p, fin, s + {q}, c) <==> t in TakenStep(p, fin, s, c) + FollowIf(p, fin, q, c)
    {
      if t in TakenStep(p, fin, s + {q}, c) {
        var x :| x in s + {q} && Has(p, x) && Taken(SymAt(p, x), c) && t in AwkRegex.Follow(p, x, fin);
        if x != q {
          assert x in s && t in TakenStep(p, fin, s, c);
        }
      }
      if t in TakenStep(p, fin, s, c) {
        var x :| x in s && Has(p, x) && Taken(SymAt(p, x), c) && t in AwkRegex.Follow(p, x, fin);
        assert x in s + {q};
      }
    }
  }

  // The states and their rows.

  /** The remembered states stand for sets, of which only the first has initial positions. */
  ghost predicate StatesOk(g: Compiler, sets: seq<set<int>>, p: Re)
    requires Ordered(p)
    reads g, g.state
  {
    && 1 <= |sets| <= g.state.Length
    && sets[0] == Initial(p, g.line)
    && (forall i | 0 <= i < |sets| :: IsVec(g.state[i]) && Members(g.state[i]) == sets[i])
    && (forall i | 0 < i < |sets| :: sets[i] !! Initial(p, g.line))
    && (forall i | 0 <= i < |sets| :: PositionsOf(p, g.line, sets[i]))
  }

  ghost predicate PositionsOf(p: Re, fin: int, s: set<int>) {
    forall x | x in s :: x == fin || Has(p, x)
  }

  lemma StatesFacts(g: Compiler, sets: seq<set<int>>, p: Re)
    requires Tabulated(g, p) && StatesOk(g, sets, p)
    ensures forall i | 0 <= i < |sets| :: IsVec(g.state[i]) && forall x | x in Members(g.state[i]) :: x <= g.line
    ensures 0 < g.line < g.marks.setvec.Length && Initial(p, g.line) != {}
    ensures g.state != g.foll && Ordered(p) && 1 <= |sets| <= g.state.Length
  {
    InitialBounds(p, g.line);
    forall i | 0 <= i < |sets|
      ensures IsVec(g.state[i]) && forall x | x in Members(g.state[i]) :: x <= g.line
    {
      assert PositionsOf(p, g.line, sets[i]);
    }
  }

  lemma TakenStepBounds(p: Re, fin: int, s: set<int>, c: int)
    requires Ordered(p)
    ensures PositionsOf(p, fin, TakenStep(p, fin, s, c))
  {
    forall t | t in TakenStep(p, fin, s, c)
      ensures t == fin || Has(p, t)
    {
      var q :| q in s && Has(p, q) && t in AwkRegex.Follow(p, q, fin);
      FollowBounds(p, q, fin);
    }
  }

  /** The transitions entered so far lead where they should. */
  ghost predicate EdgesOk(edges: seq<(int, int)>, sets: seq<set<int>>, full: set<int>, p: Re, fin: int)
    requires Ordered(p)
  {
    forall e | e in edges ::
      0 <= e.1 < |sets| && sets[e.1] == TakenStep(p, fin, full, e.0) - Initial(p, fin)
  }

  lemma EdgesGrow(edges: seq<(int, int)>, sets: seq<set<int>>, sets': seq<set<int>>, full: set<int>, p: Re, fin: int,
                  c: int, t: int)
    requires Ordered(p) && EdgesOk(edges, sets, full, p, fin) && sets <= sets'
    requires 0 <= t < |sets'| && sets'[t] == TakenStep(p, fin, full, c) - Initial(p, fin)
    ensures EdgesOk(edges + [(c, t)], sets', full, p, fin)
  {
  }

  lemma StatesGrow(g: Compiler, sets: seq<set<int>>, s: set<int>, p: Re)
    requires Ordered(p) && StatesOk(g, sets, p) && |sets| < g.state.Length
    requires IsVec(g.state[|sets|]) && Members(g.state[|sets|]) == s
    requires s !! Initial(p, g.line) && PositionsOf(p, g.line, s)
    ensures StatesOk(g, sets + [s], p)
  {
  }

  lemma NewState(g: Compiler, sets: seq<set<int>>, p: Re, s: set<int>)
    requires Tabulated(g, p) && StatesOk(g, sets, p)
    requires forall i | 0 <= i < |sets| :: IsVec(g.state[i]) ==> Members(g.state[i]) != s
    ensures s !in sets
  {
    hide Tabulated, IsVec, Members, Initial;
  }

  /** One transition: the state that the machine goes to on c, made if it is new. Fails exactly
      when it is new and there is no room for it. */
  method Transition(g: Compiler, ghost p: Re, sposns: seq<int>, iposns: set<int>, index: set<int>, c: int,
                    n: int, edges: seq<(int, int)>, ghost sets: seq<set<int>>)
    returns (ok: bool, n': int, edges': seq<(int, int)>, index': set<int>, ghost sets': seq<set<int>>)
    requires Tabulated(g, p) && StatesOk(g, sets, p) && |sets| == n + 1
    requires iposns == Initial(p, g.line) && PositionsOf(p, g.line, Elems(sposns))
    requires EdgesOk(edges, sets, Elems(sposns), p, g.line)
    requires Distinct(p, g.line, sets)
    requires TakenStep(p, g.line, Elems(sposns), c) - iposns in States(p, g.line)
    modifies g.state, g.marks, g.marks.setvec
    ensures Tabulated(g, p)
    ensures !ok <==> |sets| == g.state.Length && TakenStep(p, g.line, Elems(sposns), c) - iposns !in sets
    ensures !ok ==> |States(p, g.line)| > g.state.Length
    ensures ok ==> StatesOk(g, sets', p) && |sets'| == n' + 1 && sets <= sets' && Distinct(p, g.line, sets')
    ensures ok ==> sets' == sets + if TakenStep(p, g.line, Elems(sposns), c) - iposns in sets then []
                                   else [TakenStep(p, g.line, Elems(sposns), c) - iposns]
    ensures ok ==> EdgesOk(edges', sets', Elems(sposns), p, g.line)
    ensures ok ==> |edges'| == |edges| + 1 && edges'[..|edges|] == edges && edges'[|edges|].0 == c
    ensures index' == index - Elems(sposns)
  {
    hide Tabulated, StatesOk, EdgesOk, TakenStep, Elems, Initial, IsVec, Members, Marks.Vec, States, Distinct;
    StatesFacts(g, sets, p);
    TakenStepBounds(p, g.line, Elems(sposns), c);
    n', edges', sets' := n, edges, sets;
    index' := NextState(g, p, sposns, iposns, index, c);
    ghost var next := TakenStep(p, g.line, Elems(sposns), c) - iposns;
    var b, prev := g.marks.Notin(g.state, n, g.line);
    if b == 1 {
      NewState(g, sets, p, next);
      DistinctGrows(p, g.line, sets, next);
      if n + 1 >= g.state.Length {
        DistinctFits(p, g.line, sets + [next]);
        return false, n', edges', index', sets';
      }
      n' := n + 1;
      AddState(g, p, n', sets, next);
      sets' := sets + [next];
      EdgesGrow(edges, sets, sets', Elems(sposns), p, g.line, c, n');
      edges' := edges + [(c, n')];
    } else {
      StateIs(g, sets, p, prev);
      if prev != 0 {
        EdgesGrow(edges, sets, sets, Elems(sposns), p, g.line, c, prev);
        edges' := edges + [(c, prev)];
      }
    }
    ok := true;
  }

  lemma StateIs(g: Compiler, sets: seq<set<int>>, p: Re, i: int)
    requires Tabulated(g, p) && StatesOk(g, sets, p) && 0 <= i < |sets|
    ensures IsVec(g.state[i]) && Members(g.state[i]) == sets[i]
    ensures sets[0] == Initial(p, g.line)
  {
  }

  method AddState(g: Compiler, ghost p: Re, n: int, ghost sets: seq<set<int>>, ghost s: set<int>)
    requires Tabulated(g, p) && StatesOk(g, sets, p) && |sets| == n < g.state.Length
    requires g.marks.setcnt == |g.marks.Vec(g.line)| && g.marks.Vec(g.line) == s
    requires s !! Initial(p, g.line) && PositionsOf(p, g.line, s)
    modifies g.state
    ensures Tabulated(g, p) && StatesOk(g, sets + [s], p)
  {
    hide EdgesOk, TakenStep, IsVec, Members, Marks.Vec, PosOk;
    var v := g.marks.Add(g.marks.setcnt, g.line);
    g.state[n] := v;
    StatesGrow(g, sets, s, p);
  }

  ghost predicate Inhabited(s: set<int>) {
    exists k :: k in s
  }

  lemma SymbolLeads(p: Re, fin: int, sets: seq<set<int>>, s: int, full: set<int>, ssyms: seq<int>, j: int)
    requires Ordered(p) && Distinct(p, fin, sets) && 0 <= s < |sets| && fin !in sets[s]
    requires full == sets[s] + Initial(p, fin) && SymsOk(p, full, {}, Elems(ssyms), ssyms) && 0 <= j < |ssyms|
    ensures TakenStep(p, fin, full, ssyms[j]) - Initial(p, fin) in States(p, fin)
  {
    hide States, Initial, SomeLists, TakenStep;
    assert ssyms[j] in {} + Elems(ssyms);
    NextIsState(p, fin, sets[s], ssyms[j]);
  }

  /** The row of a state that is not final. Fails only if the machine has more states than there
      is room for. */
  method Row(g: Compiler, ghost p: Re, s: int, iposns: set<int>, isyms: set<int>, index0: set<int>,
             sposns0: seq<int>, ssyms0: seq<int>, n0: int, ghost sets0: seq<set<int>>)
    returns (ok: bool, row: Fa, index: set<int>, n: int, ghost sets: seq<set<int>>)
    requires Tabulated(g, p) && StatesOk(g, sets0, p) && |sets0| == n0 + 1
    requires 0 <= s <= n0 && g.line !in sets0[s]
    requires iposns == Initial(p, g.line) && iposns == Elems(sposns0) && SymsOk(p, iposns, {}, isyms, ssyms0)
    requires index0 == {} && (n0 > 0 ==> Inhabited(isyms))
    requires Distinct(p, g.line, sets0)
    modifies g.state, g.marks, g.marks.setvec
    ensures Tabulated(g, p)
    ensures !ok ==> |States(p, g.line)| > g.state.Length
    ensures ok ==> StatesOk(g, sets, p) && |sets| == n + 1 && sets0 <= sets && RowOk(row, sets, s, p, g.line)
    ensures ok ==> Distinct(p, g.line, sets)
    ensures ok ==> index == {} && (n > 0 ==> Inhabited(isyms))
  {
    hide Tabulated, StatesOk, EdgesOk, TakenStep, Elems, Initial, IsVec, Members, SymsOk, RowOk, Has, HasEdge;
    hide States, Distinct;
    RowStart(g, p, sets0, s);
    var sposns, ssyms;
    index, sposns, ssyms := StateSymbols(g, p, g.state[s], iposns, isyms, index0, sposns0, ssyms0);
    ghost var full := Elems(sposns);
    assert full == sets0[s] + iposns;
    RowSymbols(g, p, s, sets0, isyms, ssyms0, ssyms);
    var edges: seq<(int, int)> := [];
    n, sets := n0, sets0;
    for j := 0 to |ssyms|
      invariant Tabulated(g, p) && StatesOk(g, sets, p) && |sets| == n + 1 && sets0 <= sets
      invariant |edges| == j && forall k | 0 <= k < j :: edges[k].0 == ssyms[k]
      invariant EdgesOk(edges, sets, full, p, g.line) && Distinct(p, g.line, sets)
      invariant index == (if j == 0 then sets0[s] - iposns else {}) && (j == 0 ==> n == n0)
    {
      SymbolLeads(p, g.line, sets, s, full, ssyms, j);
      ok, n, edges, index, sets := Transition(g, p, sposns, iposns, index, ssyms[j], n, edges, sets);
      if !ok {
        row := Fa(0, []);
        return;
      }
    }
    ok, row := true, Fa(|edges|, edges);
    RowDone(p, g.line, edges, ssyms, sets, s);
  }

  lemma RowStart(g: Compiler, p: Re, sets: seq<set<int>>, s: int)
    requires Tabulated(g, p) && StatesOk(g, sets, p) && 0 <= s < |sets| && g.line !in sets[s]
    ensures s < g.state.Length
    ensures IsVec(g.state[s]) && Members(g.state[s]) == sets[s] && forall q | q in sets[s] :: Has(p, q)
    ensures Ordered(p) && WellFormed(p) && PositionsOf(p, g.line, sets[s] + Initial(p, g.line))
    ensures EdgesOk([], sets, sets[s] + Initial(p, g.line), p, g.line)
    ensures sets[0] == Initial(p, g.line)
  {
    InitialBounds(p, g.line);
    assert PositionsOf(p, g.line, sets[s]);
  }

  /** Every state but the first has a symbol, if any state has. */
  lemma RowSymbols(g: Compiler, p: Re, s: int, sets: seq<set<int>>, isyms: set<int>, ssyms0: seq<int>, ssyms: seq<int>)
    requires Ordered(p) && StatesOk(g, sets, p) && 0 <= s < |sets|
    requires SymsOk(p, Initial(p, g.line), {}, isyms, ssyms0)
    requires SymsOk(p, sets[s] + Initial(p, g.line), {}, Elems(ssyms), ssyms)
    requires s > 0 ==> Inhabited(isyms)
    ensures ssyms == [] ==> sets[s] - Initial(p, g.line) == {}
    ensures ssyms != [] ==> Inhabited(isyms)
  {
    hide Initial, IsVec, Members, StatesOk;
    if s == 0 {
      FirstHasNoMore(g, sets, p);
      if ssyms != [] {
        var k := ssyms[0];
        assert k in {} + Elems(ssyms);
        assert SomeLists(p, Initial(p, g.line), k);
        assert k in {} + isyms;
      }
    } else {
      var k :| k in isyms;
      assert k in {} + isyms;
      SomeUnion(p, sets[s], Initial(p, g.line), k);
      assert k in {} + Elems(ssyms);
      assert k in ssyms;
    }
  }

  lemma FirstHasNoMore(g: Compiler, sets: seq<set<int>>, p: Re)
    requires Ordered(p) && StatesOk(g, sets, p)
    ensures sets[0] + Initial(p, g.line) == Initial(p, g.line) && sets[0] - Initial(p, g.line) == {}
  {
  }

  lemma SomeBounds(p: Re, s: set<int>, c: int)
    requires Ordered(p) && WellFormed(p) && SomeLists(p, s, c)
    ensures 0 <= c < NCHARS
  {
    var q :| q in s && Has(p, q) && Listed(SymAt(p, q), c);
    SymAtOk(p, q);
  }

  lemma EdgeSymbols(edges: seq<(int, int)>, ssyms: seq<int>, c: int)
    requires |edges| == |ssyms| && forall k | 0 <= k < |edges| :: edges[k].0 == ssyms[k]
    ensures HasEdge(edges, c) <==> c in ssyms
  {
    if c in ssyms {
      var k :| 0 <= k < |ssyms| && ssyms[k] == c;
      assert edges[k].0 == c;
    }
  }

  lemma {:induction false} NoRepeats(s: seq<int>)
    ensures |Elems(s)| <= |s|
    ensures |Elems(s)| == |s| ==> forall i, j | 0 <= i < j < |s| :: s[i] != s[j]
  {
    if s != [] {
      var n := |s| - 1;
      NoRepeats(s[..n]);
      assert Elems(s) == Elems(s[..n]) + {s[n]};
    }
  }

  lemma SymbolsAre(p: Re, full: set<int>, ssyms: seq<int>)
    requires Ordered(p) && WellFormed(p) && SymsOk(p, full, {}, Elems(ssyms), ssyms)
    ensures |ssyms| == |Elems(ssyms)| <= NCHARS
    ensures forall c :: c in ssyms <==> SomeLists(p, full, c)
  {
    hide SomeLists;
    var all := Range(NCHARS);
    forall c
      ensures c in ssyms <==> SomeLists(p, full, c)
      ensures c in ssyms ==> c in all
    {
      assert c in {} + Elems(ssyms) <==> c in ssyms;
      if c in ssyms {
        SomeBounds(p, full, c);
      }
    }
    SmallerSet(Elems(ssyms), all);
  }

  lemma RowDone(p: Re, fin: int, edges: seq<(int, int)>, ssyms: seq<int>, sets: seq<set<int>>, s: int)
    requires Ordered(p) && WellFormed(p) && 0 <= s < |sets| && fin !in sets[s]
    requires |edges| == |ssyms| && forall k | 0 <= k < |edges| :: edges[k].0 == ssyms[k]
    requires SymsOk(p, sets[s] + Initial(p, fin), {}, Elems(ssyms), ssyms)
    requires EdgesOk(edges, sets, sets[s] + Initial(p, fin), p, fin)
    ensures RowOk(Fa(|edges|, edges), sets, s, p, fin)
  {
    hide SomeLists, TakenStep, Initial, SymsOk, HasEdge, Elems, WellFormed;
    var full := sets[s] + Initial(p, fin);
    SymbolsAre(p, full, ssyms);
    NoRepeats(ssyms);
    forall c
      ensures HasEdge(edges, c) <==> SomeLists(p, full, c)
    {
      EdgeSymbols(edges, ssyms, c);
    }
  }

  lemma RowGrows(row: Fa, sets: seq<set<int>>, sets': seq<set<int>>, i: int, p: Re, fin: int)
    requires Ordered(p) && 0 <= i < |sets| && sets <= sets' && RowOk(row, sets, i, p, fin)
    ensures RowOk(row, sets', i, p, fin)
  {
  }

  /** The target that a scan of the transitions from the last to the first finds for c. */
  function Lookup(edges: seq<(int, int)>, c: int): int {
    if edges == [] then 0
    else if edges[|edges| - 1].0 == c then edges[|edges| - 1].1
    else Lookup(edges[..|edges| - 1], c)
  }

  lemma {:induction false} LookupFinds(edges: seq<(int, int)>, c: int)
    ensures HasEdge(edges, c) ==> (c, Lookup(edges, c)) in edges
    ensures !HasEdge(edges, c) ==> Lookup(edges, c) == 0
  {
    if edges != [] {
      var n := |edges| - 1;
      if edges[n].0 == c {
        assert edges[n] == (c, edges[n].1);
        assert HasEdge(edges, c);
      } else {
        LookupFinds(edges[..n], c);
        if i :| 0 <= i < |edges| && edges[i].0 == c {
          assert edges[..n][i].0 == c;
        }
        if HasEdge(edges[..n], c) {
          var i :| 0 <= i < n && edges[..n][i].0 == c;
          assert edges[i].0 == c;
        }
      }
    }
  }

  /** A scan of the transitions for c, from the last to the first. */
  method Scan(edges: seq<(int, int)>, c: int) returns (t: int)
    ensures t == Lookup(edges, c)
  {
    var count := |edges|;
    assert edges[..count] == edges;
    while count > 0
      invariant 0 <= count <= |edges|
      invariant Lookup(edges, c) == Lookup(edges[..count], c)
    {
      assert edges[..count][..count - 1] == edges[..count - 1];
      if edges[count - 1].0 == c {
        return edges[count - 1].1;
      }
      count := count - 1;
    }
    t := 0;
  }

  ghost predicate RowsOk(table: seq<Fa>, sets: seq<set<int>>, p: Re, fin: int)
    requires Ordered(p)
  {
    |table| <= |sets| && forall i | 0 <= i < |table| :: RowOk(table[i], sets, i, p, fin)
  }

  lemma RowsGrow(table: seq<Fa>, row: Fa, sets: seq<set<int>>, sets': seq<set<int>>, p: Re, fin: int)
    requires Ordered(p) && RowsOk(table, sets, p, fin) && sets <= sets' && |table| < |sets|
    requires RowOk(row, sets', |table|, p, fin)
    ensures RowsOk(table + [row], sets', p, fin)
  {
    forall i | 0 <= i < |table|
      ensures RowOk(table[i], sets', i, p, fin)
    {
      RowGrows(table[i], sets, sets', i, p, fin);
    }
  }

  /** Builds the table and chooses the state to start in: state 0, or the one reached on '^'.
      There is a row for each state of the machine, and failure exactly if there is no room for
      them all. */
  method Cgotofn(g: Compiler, ghost p: Re) returns (r: Option<(seq<Fa>, int)>, ghost sets: seq<set<int>>)
    requires Tabulated(g, p) && g.state.Length >= 1
    modifies g.state, g.marks, g.marks.setvec
    ensures r.Some? ==> Works(r.value.0, sets, p, g.line)
    ensures r.Some? ==> r.value.1 == Lookup(r.value.0[0].edges, HAT)
    ensures r.Some? ==> |r.value.0| == |States(p, g.line)|
    ensures r.None? <==> |States(p, g.line)| > g.state.Length
  {
    hide Tabulated, StatesOk, Elems, Initial, IsVec, Members, SymsOk, RowOk, Has, RowsOk, States, Distinct, Works;
    var iposns, sposns0, isyms, ssyms0 := InitialState(g, p);
    InitialFacts(g, p);
    g.state[0] := g.foll[0];
    sets := [iposns];
    FirstState(g, p);
    FirstDistinct(p, g.line);
    var s, n := 0, 0;
    var index: set<int> := {};
    var table: seq<Fa> := [];
    while s <= n
      invariant Tabulated(g, p) && StatesOk(g, sets, p) && |sets| == n + 1
      invariant |sets| >= 1 && 0 <= s <= n + 1 && |table| == s && RowsOk(table, sets, p, g.line)
      invariant index == {} && (n > 0 ==> Inhabited(isyms))
      invariant sets[0] == iposns && (g.line in iposns ==> n == 0)
      invariant Distinct(p, g.line, sets)
      decreases g.state.Length - s
    {
      StateIs(g, sets, p, s);
      StatesFacts(g, sets, p);
      var row;
      ghost var before := sets;
      LastIsEnd(g.state[s], g.line);
      VecShape(g.state[s]);
      if g.state[s][g.state[s][0]] == g.line {
        row := Fa(-1, []);
        FinalRow(row, sets, s, p, g.line);
      } else {
        var ok;
        ok, row, index, n, sets := Row(g, p, s, iposns, isyms, index, sposns0, ssyms0, n, sets);
        if !ok {
          return None, sets;
        }
      }
      RowsGrow(table, row, before, sets, p, g.line);
      table := table + [row];
      s := s + 1;
      StatesFacts(g, sets, p);
    }
    StatesFacts(g, sets, p);
    TableDone(table, sets, p, g.line);
    TableComplete(table, sets, p, g.line);
    CompleteCounts(p, g.line, sets);
    var start := Scan(table[0].edges, HAT);
    r := Some((table, start));
  }

  lemma FirstState(g: Compiler, p: Re)
    requires Tabulated(g, p) && g.state.Length >= 1 && g.state[0] == g.foll[0]
    ensures StatesOk(g, [Initial(p, g.line)], p)
    ensures RowsOk([], [Initial(p, g.line)], p, g.line)
  {
    InitialBounds(p, g.line);
  }

  lemma FinalRow(row: Fa, sets: seq<set<int>>, s: int, p: Re, fin: int)
    requires Ordered(p) && 0 <= s < |sets| && fin in sets[s] && row == Fa(-1, [])
    ensures RowOk(row, sets, s, p, fin)
  {
  }

  lemma TableDone(table: seq<Fa>, sets: seq<set<int>>, p: Re, fin: int)
    requires Ordered(p) && |table| == |sets| >= 1 && RowsOk(table, sets, p, fin)
    requires sets[0] == Initial(p, fin) && (fin in sets[0] ==> |sets| == 1)
    ensures Works(table, sets, p, fin)
  {
  }

  lemma FirstDistinct(p: Re, fin: int)
    requires Ordered(p)
    ensures Distinct(p, fin, [Initial(p, fin)])
  {
    FirstIsState(p, fin);
  }

  lemma TableComplete(table: seq<Fa>, sets: seq<set<int>>, p: Re, fin: int)
    requires Ordered(p) && Works(table, sets, p, fin)
    ensures Complete(p, fin, sets)
  {
    hide TakenStep, Initial, SomeLists, HasEdge;
    forall s, c | s in sets && fin !in s && SomeLists(p, s + Initial(p, fin), c)
      ensures TakenStep(p, fin, s + Initial(p, fin), c) - Initial(p, fin) in sets
    {
      var i :| 0 <= i < |sets| && sets[i] == s;
      RowLeads(table[i], sets, i, p, fin, c);
    }
  }

  lemma RowLeads(row: Fa, sets: seq<set<int>>, i: int, p: Re, fin: int, c: int)
    requires Ordered(p) && 0 <= i < |sets| && RowOk(row, sets, i, p, fin) && fin !in sets[i]
    requires SomeLists(p, sets[i] + Initial(p, fin), c)
    ensures TakenStep(p, fin, sets[i] + Initial(p, fin), c) - Initial(p, fin) in sets
  {
    hide TakenStep, Initial, SomeLists;
    assert HasEdge(row.edges, c);
    var k :| 0 <= k < |row.edges| && row.edges[k].0 == c;
    assert row.edges[k] in row.edges;
  }
}
