/** dag's depth-first printer: every node that can be reached is expanded once, cycles or not, and
    mentioned by the number of that line from then on. */
module DagWalk {
  import opened DagGraph

  /** What dag has read: the successors and the data of every node. */
  datatype Vertex = Vertex(links: seq<Node>, data: Data)
  type Graph = map<Node, Vertex>

  // The marks of the nodes: the line on which each has been expanded, or 0.
  type Marks = map<Node, nat>

  /** A printed line: the node is expanded where ref is 0, and otherwise is on line ref. */
  datatype Shown = Shown(lv: nat, node: Node, ref: nat, data: Data)

  ghost predicate Closed(g: Graph) {
    forall n, i | n in g && 0 <= i < |g[n].links| :: g[n].links[i] in g
  }

  /** Another node refers to n. */
  ghost predicate Referred(g: Graph, n: Node) {
    exists m :: m in g && m != n && n in g[m].links
  }

  ghost predicate ReachIn(g: Graph, a: Node, b: Node, k: nat) {
    if k == 0 then a == b
    else a in g && exists i | 0 <= i < |g[a].links| :: ReachIn(g, g[a].links[i], b, k - 1)
  }

  ghost predicate Reach(g: Graph, a: Node, b: Node) {
    exists k: nat :: ReachIn(g, a, b, k)
  }

  lemma ReachSelf(g: Graph, a: Node)
    ensures Reach(g, a, a)
  {
    assert ReachIn(g, a, a, 0);
  }

  lemma ReachStep(g: Graph, a: Node, i: nat, b: Node)
    requires a in g && i < |g[a].links| && Reach(g, g[a].links[i], b)
    ensures Reach(g, a, b)
  {
    var k: nat :| ReachIn(g, g[a].links[i], b, k);
    assert ReachIn(g, a, b, k + 1);
  }

  ghost predicate For(g: Graph, v: Marks) {
    v.Keys == g.Keys
  }

  ghost function Unvisited(g: Graph, v: Marks): set<Node>
    requires For(g, v)
  {
    set n | n in g.Keys && v[n] == 0
  }

  /** What has been printed: a node's mark is the number of the one line on which it is expanded,
      with its data, and all lines that mention it later give that number. */
  ghost predicate Told(g: Graph, v: Marks, out: seq<Shown>)
    requires For(g, v)
  {
    && (forall k | 0 <= k < |out| :: out[k].node in g &&
          if out[k].ref == 0 then v[out[k].node] == k + 1 && out[k].data == g[out[k].node].data
          else v[out[k].node] == out[k].ref <= k)
    && (forall n | n in g && v[n] > 0 :: v[n] <= |out| && out[v[n] - 1].node == n && out[v[n] - 1].ref == 0)
  }

  /** Marks stay as they are once they are made. */
  ghost predicate Grew(g: Graph, v: Marks, w: Marks)
    requires For(g, v) && For(g, w)
  {
    forall n | n in g && v[n] > 0 :: w[n] == v[n]
  }

  /** Only what can be reached from a has been marked. */
  ghost predicate Under(g: Graph, v: Marks, w: Marks, a: Node)
    requires For(g, v) && For(g, w)
  {
    forall n | n in g && w[n] > 0 && v[n] == 0 :: Reach(g, a, n)
  }

  /** Those of s that are marked have all their successors marked. */
  ghost predicate Done(g: Graph, s: set<Node>, w: Marks)
    requires For(g, w) && Closed(g)
  {
    forall n, i | n in s && n in g && w[n] > 0 && 0 <= i < |g[n].links| :: w[g[n].links[i]] > 0
  }

  /** The first i successors of a are marked. */
  ghost predicate FirstDone(g: Graph, w: Marks, a: Node, i: nat)
    requires For(g, w) && Closed(g) && a in g
  {
    forall k | 0 <= k < i && k < |g[a].links| :: w[g[a].links[k]] > 0
  }

  lemma FewerUnvisited(g: Graph, v: Marks, w: Marks)
    requires For(g, v) && For(g, w) && Grew(g, v, w)
    ensures Unvisited(g, w) <= Unvisited(g, v) && |Unvisited(g, w)| <= |Unvisited(g, v)|
  {
    SubsetSize(Unvisited(g, w), Unvisited(g, v));
  }

  lemma {:induction false} SubsetSize(a: set<Node>, b: set<Node>)
    requires a <= b
    ensures |a| <= |b|
    decreases b
  {
    if x: Node :| x in a {
      SubsetSize(a - {x}, b - {x});
    }
  }

  /** Marking a node. */
  lemma MarkOne(g: Graph, v: Marks, out: seq<Shown>, a: Node, s: Shown)
    requires For(g, v) && Told(g, v, out) && a in g && v[a] == 0 && s == Shown(s.lv, a, 0, g[a].data)
    ensures var w := v[a := |out| + 1];
      For(g, w) && Told(g, w, out + [s]) && Grew(g, v, w) && Unvisited(g, w) == Unvisited(g, v) - {a} &&
      a in Unvisited(g, v) && |Unvisited(g, w)| == |Unvisited(g, v)| - 1
  {
    hide Told;
    var w := v[a := |out| + 1];
    assert Unvisited(g, w) == Unvisited(g, v) - {a};
    ToldMore(g, v, w, out, a, s);
  }

  lemma ToldMore(g: Graph, v: Marks, w: Marks, out: seq<Shown>, a: Node, s: Shown)
    requires For(g, v) && Told(g, v, out) && a in g && v[a] == 0 && s == Shown(s.lv, a, 0, g[a].data)
    requires w == v[a := |out| + 1]
    ensures For(g, w) && Told(g, w, out + [s])
  {
    var out' := out + [s];
    forall k | 0 <= k < |out'|
      ensures out'[k].node in g &&
        if out'[k].ref == 0 then w[out'[k].node] == k + 1 && out'[k].data == g[out'[k].node].data
        else w[out'[k].node] == out'[k].ref <= k
    {
      if k < |out| {
        assert out'[k] == out[k] && v[out[k].node] > 0;
      }
    }
    forall n | n in g && w[n] > 0
      ensures w[n] <= |out'| && out'[w[n] - 1].node == n && out'[w[n] - 1].ref == 0
    {
      if n != a {
        assert v[n] > 0;
      }
    }
  }

  /** The successors of one more node, after those of the others. */
  lemma Together(g: Graph, v: Marks, w: Marks, x: Marks, a: Node, i: nat)
    requires For(g, v) && For(g, w) && For(g, x) && Closed(g) && a in g && i < |g[a].links|
    requires Grew(g, v, w) && Grew(g, w, x) && Under(g, v, w, a) && Under(g, w, x, g[a].links[i])
    ensures Grew(g, v, x) && Under(g, v, x, a)
    ensures FirstDone(g, w, a, i) && x[g[a].links[i]] > 0 ==> FirstDone(g, x, a, i + 1)
    ensures Done(g, Unvisited(g, v), w) && Done(g, Unvisited(g, w), x) ==> Done(g, Unvisited(g, v), x)
  {
    forall n | n in g && x[n] > 0 && v[n] == 0
      ensures Reach(g, a, n)
    {
      if w[n] == 0 {
        ReachStep(g, a, i, n);
      }
    }
  }

  /** Everything below a is done. */
  lemma AllDone(g: Graph, v: Marks, v': Marks, w: Marks, a: Node)
    requires For(g, v) && For(g, v') && For(g, w) && Closed(g) && a in g && Unvisited(g, v') == Unvisited(g, v) - {a}
    requires Grew(g, v', w) && Grew(g, v, v') && Under(g, v', w, a)
    ensures Grew(g, v, w) && Under(g, v, w, a) && w[a] > 0
    ensures Done(g, Unvisited(g, v'), w) && FirstDone(g, w, a, |g[a].links|) ==> Done(g, Unvisited(g, v), w)
  {
    ReachSelf(g, a);
    assert a !in Unvisited(g, v');
    forall n | n in g && w[n] > 0 && v[n] == 0
      ensures Reach(g, a, n)
    {
      if n != a {
        assert n in Unvisited(g, v');
      }
    }
    forall n, i | n in Unvisited(g, v) && w[n] > 0 && 0 <= i < |g[n].links| && Done(g, Unvisited(g, v'), w) &&
      FirstDone(g, w, a, |g[a].links|)
      ensures w[g[n].links[i]] > 0
    {
      if n != a {
        assert n in Unvisited(g, v');
      }
    }
  }

  /** A set of nodes that has all successors of its nodes has all that can be reached from them. */
  lemma {:induction false} ClosedReach(g: Graph, s: set<Node>, a: Node, b: Node, k: nat)
    requires (forall n, i | n in s && n in g && 0 <= i < |g[n].links| :: g[n].links[i] in s)
    requires a in s && ReachIn(g, a, b, k)
    ensures b in s
  {
    if k > 0 {
      var i :| 0 <= i < |g[a].links| && ReachIn(g, g[a].links[i], b, k - 1);
      ClosedReach(g, s, g[a].links[i], b, k - 1);
    }
  }

  // The lines as a drawing: what is below a line is indented by one more.

  /** The nodes on the lines of level lv. */
  ghost function AtLevel(out: seq<Shown>, lv: nat): seq<Node> {
    if out == [] then [] else (if out[0].lv == lv then [out[0].node] else []) + AtLevel(out[1..], lv)
  }

  /** The number of lines at the front that are below level lv. */
  function Deeper(out: seq<Shown>, lv: nat): (e: nat)
    ensures e <= |out|
  {
    if out == [] || out[0].lv <= lv then 0 else 1 + Deeper(out[1..], lv)
  }

  /** What belongs below a line: the successors, where the node is expanded and the limit allows it. */
  ghost function Kids(g: Graph, lvmax: nat, s: Shown): seq<Node>
    requires s.node in g
  {
    if s.ref == 0 && s.lv < lvmax then g[s.node].links else []
  }

  /** Lines from level lv on, each of them followed by what belongs below it. */
  ghost predicate Forest(g: Graph, lvmax: nat, out: seq<Shown>, lv: nat)
    decreases |out|
  {
    out == [] ||
    var e := Deeper(out[1..], lv);
    var below, rest := out[1..][..e], out[1..][e..];
    && out[0].lv == lv && out[0].node in g
    && AtLevel(below, lv + 1) == Kids(g, lvmax, out[0])
    && Forest(g, lvmax, below, lv + 1) && Forest(g, lvmax, rest, lv)
  }

  lemma {:induction false} DeeperAppend(a: seq<Shown>, b: seq<Shown>, lv: nat)
    ensures Deeper(a + b, lv) == if Deeper(a, lv) == |a| then |a| + Deeper(b, lv) else Deeper(a, lv)
  {
    if a == [] {
      assert a + b == b;
    } else {
      RestOfBoth(a, b);
      DeeperAppend(a[1..], b, lv);
    }
  }

  lemma AtLevelFirst(out: seq<Shown>, lv: nat)
    requires out != []
    ensures AtLevel(out, lv) == (if out[0].lv == lv then [out[0].node] else []) + AtLevel(out[1..], lv)
  {
  }

  lemma Regroup<T>(h: seq<T>, x: seq<T>, y: seq<T>)
    ensures h + (x + y) == (h + x) + y
  {
  }

  lemma RestOfBoth(a: seq<Shown>, b: seq<Shown>)
    requires a != []
    ensures a + b != [] && (a + b)[0] == a[0] && (a + b)[1..] == a[1..] + b
  {
  }

  lemma {:induction false} AtLevelAppend(a: seq<Shown>, b: seq<Shown>, lv: nat)
    ensures AtLevel(a + b, lv) == AtLevel(a, lv) + AtLevel(b, lv)
  {
    if a == [] {
      assert a + b == b;
    } else {
      hide *;
      AtLevelAppend(a[1..], b, lv);
      AtLevelFirst(a, lv);
      RestOfBoth(a, b);
      AtLevelFirst(a + b, lv);
      Regroup(if a[0].lv == lv then [a[0].node] else [], AtLevel(a[1..], lv), AtLevel(b, lv));
    }
  }

  lemma {:induction false} ForestDeep(g: Graph, lvmax: nat, out: seq<Shown>, lv: nat)
    requires Forest(g, lvmax, out, lv + 1)
    ensures Deeper(out, lv) == |out| && AtLevel(out, lv) == []
    decreases |out|
  {
    if out != [] {
      var e := Deeper(out[1..], lv + 1);
      var below, rest := out[1..][..e], out[1..][e..];
      hide Kids;
      assert out[1..] == below + rest;
      ForestDeep(g, lvmax, rest, lv);
      ForestDeep(g, lvmax, below, lv + 1);
      DeeperMore(below, lv);
      DeeperAppend(below, rest, lv);
      AtLevelAppend(below, rest, lv);
    }
  }

  lemma {:induction false} DeeperMore(out: seq<Shown>, lv: nat)
    requires Deeper(out, lv + 1) == |out|
    ensures Deeper(out, lv) == |out| && AtLevel(out, lv) == []
  {
    if out != [] {
      DeeperMore(out[1..], lv);
    }
  }

  /** A line with what belongs below it. */
  lemma ForestOne(g: Graph, lvmax: nat, s: Shown, below: seq<Shown>)
    requires s.node in g && Forest(g, lvmax, below, s.lv + 1) && AtLevel(below, s.lv + 1) == Kids(g, lvmax, s)
    ensures Forest(g, lvmax, [s] + below, s.lv) && AtLevel([s] + below, s.lv) == [s.node]
  {
    ForestDeep(g, lvmax, below, s.lv);
    assert ([s] + below)[1..] == below && below[..|below|] == below && below[|below|..] == [];
  }

  /** The lines behind the first are those below it, up to e, and the rest. */
  ghost predicate Splits(g: Graph, lvmax: nat, out: seq<Shown>, lv: nat, e: nat)
    requires out != []
  {
    && e == Deeper(out[1..], lv) && e < |out| && out[0].lv == lv && out[0].node in g
    && AtLevel(out[1..][..e], lv + 1) == Kids(g, lvmax, out[0])
    && Forest(g, lvmax, out[1..][..e], lv + 1) && Forest(g, lvmax, out[1..][e..], lv)
  }

  lemma ForestSplits(g: Graph, lvmax: nat, out: seq<Shown>, lv: nat)
    requires out != []
    ensures Forest(g, lvmax, out, lv) <==> Splits(g, lvmax, out, lv, Deeper(out[1..], lv))
  {
    hide AtLevel, Kids;
  }

  lemma SplitsMore(g: Graph, lvmax: nat, out: seq<Shown>, b: seq<Shown>, lv: nat, e: nat)
    requires out != [] && Splits(g, lvmax, out, lv, e) && Forest(g, lvmax, out[1..][e..] + b, lv)
    requires b != [] ==> b[0].lv == lv
    ensures Splits(g, lvmax, out + b, lv, e)
  {
    hide AtLevel, Kids, Forest;
    var t := out[1..];
    assert (out + b)[1..] == t + b;
    DeeperAppend(t, b, lv);
    assert (t + b)[..e] == t[..e] && (t + b)[e..] == t[e..] + b;
  }

  lemma {:induction false} ForestAppend(g: Graph, lvmax: nat, a: seq<Shown>, b: seq<Shown>, lv: nat)
    requires Forest(g, lvmax, a, lv) && Forest(g, lvmax, b, lv)
    ensures Forest(g, lvmax, a + b, lv) && AtLevel(a + b, lv) == AtLevel(a, lv) + AtLevel(b, lv)
    decreases |a|
  {
    hide *;
    AtLevelAppend(a, b, lv);
    if a == [] {
      assert a + b == b;
    } else {
      var e := Deeper(a[1..], lv);
      ForestSplits(g, lvmax, a, lv);
      SplitsParts(g, lvmax, a, lv, e);
      ForestAppend(g, lvmax, a[1..][e..], b, lv);
      if b != [] {
        ForestSplits(g, lvmax, b, lv);
        SplitsParts(g, lvmax, b, lv, Deeper(b[1..], lv));
      }
      SplitsMore(g, lvmax, a, b, lv, e);
      SplitsParts(g, lvmax, a + b, lv, e);
      ForestSplits(g, lvmax, a + b, lv);
    }
  }

  lemma SplitsParts(g: Graph, lvmax: nat, out: seq<Shown>, lv: nat, e: nat)
    requires out != [] && Splits(g, lvmax, out, lv, e)
    ensures out[0].lv == lv && e == Deeper(out[1..], lv) <= |out[1..]| && Forest(g, lvmax, out[1..][e..], lv)
  {
    hide AtLevel, Kids, Forest;
  }

  /** What has been printed since there was o: the drawing of nodes from level lv on. */
  ghost predicate Drawn(g: Graph, lvmax: nat, o: seq<Shown>, out: seq<Shown>, lv: nat, nodes: seq<Node>) {
    o <= out && Forest(g, lvmax, out[|o|..], lv) && AtLevel(out[|o|..], lv) == nodes
  }

  lemma NoneDrawn(g: Graph, lvmax: nat, o: seq<Shown>, lv: nat)
    ensures Drawn(g, lvmax, o, o, lv, [])
  {
  }

  lemma DrawnMore(g: Graph, lvmax: nat, o: seq<Shown>, o1: seq<Shown>, out: seq<Shown>, lv: nat, a: seq<Node>,
                  b: seq<Node>)
    requires Drawn(g, lvmax, o, o1, lv, a) && Drawn(g, lvmax, o1, out, lv, b)
    ensures Drawn(g, lvmax, o, out, lv, a + b)
  {
    hide Forest, AtLevel;
    ForestAppend(g, lvmax, o1[|o|..], out[|o1|..], lv);
    assert out[|o|..] == o1[|o|..] + out[|o1|..];
  }

  /** The successors that belong below np, up to the i-th. */
  function Some(lvmax: nat, links: seq<Node>, lv: nat, i: nat): seq<Node>
    requires i <= |links|
  {
    if lv < lvmax then links[..i] else []
  }

  lemma SomeMore(lvmax: nat, links: seq<Node>, lv: nat, i: nat)
    requires i < |links|
    ensures Some(lvmax, links, lv, i + 1) == Some(lvmax, links, lv, i) + if lv + 1 <= lvmax then [links[i]] else []
  {
  }

  lemma NoneSome(lvmax: nat, links: seq<Node>, lv: nat)
    ensures Some(lvmax, links, lv, 0) == []
  {
  }

  lemma LineDrawn(g: Graph, lvmax: nat, o: seq<Shown>, s: Shown, out: seq<Shown>)
    requires s.node in g
    requires Drawn(g, lvmax, o + [s], out, s.lv + 1,
               if s.ref == 0 then Some(lvmax, g[s.node].links, s.lv, |g[s.node].links|) else [])
    ensures Drawn(g, lvmax, o, out, s.lv, [s.node])
  {
    hide Forest, AtLevel;
    var below := out[|o| + 1..];
    ForestOne(g, lvmax, s, below);
    assert out[|o|..] == [s] + below;
  }

  lemma MentionDrawn(g: Graph, lvmax: nat, o: seq<Shown>, s: Shown)
    requires s.node in g && s.ref != 0
    ensures Drawn(g, lvmax, o, o + [s], s.lv, [s.node])
  {
    hide *;
    NoneDrawn(g, lvmax, o + [s], s.lv + 1);
    LineDrawn(g, lvmax, o, s, o + [s]);
  }

  class Walker {
    const lvmax: nat
    ghost const cells: set<object>   // what the lists of successors are made of
    var lineno: nat
    var out: seq<Shown>

    constructor (lvmax: nat, ghost cells: set<object>)
      ensures this.lvmax == lvmax && this.cells == cells && lineno == 0 && out == []
    {
      this.lvmax, this.cells := lvmax, cells;
      lineno, out := 0, [];
    }

    /** The nodes are as they were read; their lists are made of cells. */
    ghost predicate Kept(g: Graph)
      reads g.Keys`link, g.Keys`lcnt, g.Keys`links, g.Keys`chunks, g.Keys`data, cells
    {
      this !in cells && g.Keys !! cells &&
      forall n | n in g.Keys ::
        (forall c | c in n.chunks :: c in cells && c.node in cells) && n.Chunked() && n.links == g[n].links &&
          n.data == g[n].data
    }

    static ghost function Now(g: Graph): (v: Marks)
      reads g.Keys`visit
      ensures For(g, v)
    {
      map n | n in g.Keys :: n.visit
    }

    /** Prints np and, the first time, what is below it. */
    method Dfs(np: Node?, lv: nat, ghost g: Graph)
      requires Closed(g) && (np != null ==> np in g) && lineno == |out| && Told(g, Now(g), out)
      requires Kept(g)
      modifies this`lineno, this`out, g.Keys`visit
      ensures lineno == |out| && Told(g, Now(g), out) && old(out) <= out && Grew(g, old(Now(g)), Now(g))
      ensures Kept(g)
      ensures np == null || lv > lvmax ==> out == old(out) && Now(g) == old(Now(g))
      ensures np != null && lv <= lvmax ==> Now(g)[np] > 0 && |out| > |old(out)| && out[|old(out)|].node == np
      ensures np != null ==> Under(g, old(Now(g)), Now(g), np)
      ensures lv + |Unvisited(g, old(Now(g)))| <= lvmax ==> Done(g, Unvisited(g, old(Now(g))), Now(g))
      ensures Drawn(g, lvmax, old(out), out, lv, if np != null && lv <= lvmax then [np] else [])
      decreases Unvisited(g, Now(g)), 1
    {
      hide *;
      ghost var v, o := Now(g), out;
      NoneDrawn(g, lvmax, out, lv);
      NoMore(g, v, np);
      if np == null || lv > lvmax {
        return;
      }
      NowAt(g, np);
      KeptAt(g, np);
      lineno := lineno + 1;
      if np.visit > 0 {
        Mention(g, v, out, Shown(lv, np, np.visit, NoData));
        out := out + [Shown(lv, np, np.visit, NoData)];
        MentionDrawn(g, lvmax, o, Shown(lv, np, np.visit, NoData));
        return;
      }
      MarkOne(g, v, out, np, Shown(lv, np, 0, np.data));
      out := out + [Shown(lv, np, 0, np.data)];
      Mark(np, lineno, g);
      ghost var v' := Now(g);
      Children(np, lv, g);
      AllDone(g, v, v', Now(g), np);
      LineDrawn(g, lvmax, o, Shown(lv, np, 0, np.data), out);
    }

    lemma NoMore(g: Graph, v: Marks, np: Node?)
      requires For(g, v) && Closed(g)
      ensures Grew(g, v, v) && Done(g, Unvisited(g, v), v) && (np != null ==> Under(g, v, v, np))
    {
    }

    lemma KeptAt(g: Graph, n: Node)
      requires Kept(g) && n in g
      ensures n.Chunked() && n.links == g[n].links && n.data == g[n].data
      ensures this !in cells && g.Keys !! cells
    {
    }

    lemma ClosedAt(g: Graph, n: Node, i: nat)
      requires Closed(g) && n in g && i < |g[n].links|
      ensures g[n].links[i] in g
    {
    }

    lemma NowAt(g: Graph, n: Node)
      requires n in g
      ensures Now(g)[n] == n.visit
    {
    }

    method Mark(np: Node, line: nat, ghost g: Graph)
      requires np in g && Kept(g)
      modifies np`visit
      ensures Now(g) == old(Now(g))[np := line]
      ensures Kept(g)
    {
      np.visit := line;
    }

    lemma Mention(g: Graph, v: Marks, out: seq<Shown>, s: Shown)
      requires For(g, v) && Told(g, v, out) && s.node in g && v[s.node] == s.ref > 0
      ensures Told(g, v, out + [s])
    {
    }

    method Children(np: Node, lv: nat, ghost g: Graph)
      requires Closed(g) && np in g && lineno == |out| && Told(g, Now(g), out)
      requires Kept(g)
      modifies this`lineno, this`out, g.Keys`visit
      ensures lineno == |out| && Told(g, Now(g), out) && old(out) <= out && Grew(g, old(Now(g)), Now(g))
      ensures Kept(g)
      ensures Under(g, old(Now(g)), Now(g), np)
      ensures lv + 1 + |Unvisited(g, old(Now(g)))| <= lvmax ==>
        Done(g, Unvisited(g, old(Now(g))), Now(g)) && FirstDone(g, Now(g), np, |g[np].links|)
      ensures Drawn(g, lvmax, old(out), out, lv + 1, Some(lvmax, g[np].links, lv, |g[np].links|))
      decreases Unvisited(g, Now(g)), 2
    {
      hide *;
      ghost var v := Now(g);
      ghost var roomy := lv + 1 + |Unvisited(g, v)| <= lvmax;
      NoMore(g, v, np);
      NoneDone(g, v, np);
      NoneDrawn(g, lvmax, out, lv + 1);
      NoneSome(lvmax, g[np].links, lv);
      var i, j := 0, 0;
      var lp := np.link;
      ghost var c := 0;
      KeptAt(g, np);
      np.ChainStart();
      while i < np.lcnt && lp != null
        invariant lineno == |out| && Told(g, Now(g), out) && old(out) <= out
        invariant Grew(g, v, Now(g)) && Under(g, v, Now(g), np)
        invariant Kept(g)
        invariant 0 <= i <= np.lcnt == |g[np].links| && np.LinkAt(i, j, c, lp)
        invariant roomy ==> Done(g, Unvisited(g, v), Now(g)) && FirstDone(g, Now(g), np, i)
        invariant Drawn(g, lvmax, old(out), out, lv + 1, Some(lvmax, g[np].links, lv, i))
        decreases np.lcnt - i
      {
        ghost var w, o1 := Now(g), out;
        FewerUnvisited(g, v, w);
        KeptAt(g, np);
        np.LinkThere(i, j, c, lp);
        ClosedAt(g, np, i);
        Dfs(lp.node[j], lv + 1, g);
        Together(g, v, w, Now(g), np, i);
        SomeMore(lvmax, g[np].links, lv, i);
        DrawnMore(g, lvmax, old(out), o1, out, lv + 1, Some(lvmax, g[np].links, lv, i),
                  if lv + 1 <= lvmax then [g[np].links[i]] else []);
        KeptAt(g, np);
        np.LinkNext(i, j, c, lp);
        j := j + 1;
        if j >= NLINK {
          j := 0;
          lp := lp.next;
          c := c + 1;
        }
        i := i + 1;
      }
      KeptAt(g, np);
      np.LinkEnd(i, j, c, lp);
    }

    lemma NoneDone(g: Graph, v: Marks, np: Node)
      requires For(g, v) && Closed(g) && np in g
      ensures FirstDone(g, v, np, 0)
    {
    }

    /** The nodes from np on, in the order in which they were made. */
    static ghost predicate Listed(np: Node?, order: seq<Node>)
      reads order`next
    {
      && np == (if order == [] then null else order[0])
      && forall i | 0 <= i < |order| :: order[i].next == if i + 1 < |order| then order[i + 1] else null
    }

    /** Those of the first k nodes that nothing refers to. */
    static ghost function RootSet(order: seq<Node>, k: nat): set<Node>
      requires k <= |order|
      reads order`rcnt
    {
      if k == 0 then {} else RootSet(order, k - 1) + if order[k - 1].rcnt == 0 then {order[k - 1]} else {}
    }

    /** They in order. */
    static ghost function Roots(order: seq<Node>, k: nat): seq<Node>
      requires k <= |order|
      reads order`rcnt
    {
      if k == 0 then [] else Roots(order, k - 1) + if order[k - 1].rcnt == 0 then [order[k - 1]] else []
    }

    static lemma {:induction false} RootSetHas(order: seq<Node>, k: nat)
      requires k <= |order|
      ensures forall n :: n in RootSet(order, k) <==> n in order[..k] && n.rcnt == 0
      ensures forall n :: n in Roots(order, k) <==> n in RootSet(order, k)
    {
      if k > 0 {
        RootSetHas(order, k - 1);
        assert order[..k] == order[..k - 1] + [order[k - 1]];
      }
    }

    /** Prints what is below the nodes to which no other refers, as their counts say. These are
        expanded, and besides them only what can be reached from them; when there are no more nodes
        than levels, all of it. */
    method PrintAll(first: Node?, ghost order: seq<Node>, ghost g: Graph) returns (ghost roots: set<Node>)
      requires Closed(g) && Kept(g) && lineno == 0 && out == [] && (forall n | n in g :: n.visit == 0)
      requires Listed(first, order) && forall n :: n in order <==> n in g
      requires Counted(ListsOf(g.Keys), CountsOf(g.Keys))
      modifies this`lineno, this`out, g.Keys`visit
      ensures Told(g, Now(g), out) && forall n :: n in roots <==> n in g && !Referred(g, n)
      ensures Drawn(g, lvmax, [], out, 0, Roots(order, |order|)) && CountsTell(g, order)
      ensures forall n :: n in Roots(order, |order|) <==> n in roots
      ensures forall n | n in g && Now(g)[n] > 0 :: From(g, roots, n)
      ensures forall r | r in roots :: Now(g)[r] > 0
      ensures |g| <= lvmax ==> forall n | n in g && From(g, roots, n) :: Now(g)[n] > 0
    {
      hide *;
      ghost var k := 0;
      CountIsReferred(g, order);
      Beginning(g);
      NoRoots(order);
      NoneDrawn(g, lvmax, [], 0);
      ListedAt(first, order, 0);
      var np := first;
      while np != null
        invariant 0 <= k <= |order| && Listed(first, order) && np == NodeAt(order, k)
        invariant Told(g, Now(g), out) && lineno == |out| && Kept(g)
        invariant Covered(g, RootSet(order, k), Now(g))
        invariant Drawn(g, lvmax, [], out, 0, Roots(order, k))
        decreases |order| - k
      {
        ListedAt(first, order, k);
        RootsNext(order, k);
        if np.rcnt == 0 {
          ghost var v, o := Now(g), out;
          MarksFew(g, v);
          KeptAt(g, np);
          Dfs(np, 0, g);
          CoveredMore(g, RootSet(order, k), v, Now(g), np);
          DrawnMore(g, lvmax, [], o, out, 0, Roots(order, k), [np]);
        }
        np := np.next;
        k := k + 1;
      }
      ListedAt(first, order, k);
      roots := RootSet(order, k);
      AllCovered(g, roots, Now(g));
      RootSetHas(order, k);
      assert order[..k] == order;
    }

    /** A count is zero exactly when no other node refers to the node. */
    static ghost predicate CountsTell(g: Graph, order: seq<Node>)
      reads order`rcnt
    {
      forall n | n in order :: n in g && (n.rcnt == 0 <==> !Referred(g, n))
    }

    lemma CountIsReferred(g: Graph, order: seq<Node>)
      requires Kept(g) && Counted(ListsOf(g.Keys), CountsOf(g.Keys)) && forall n :: n in order <==> n in g
      ensures CountsTell(g, order) && forall n | n in g :: n.rcnt == 0 <==> !Referred(g, n)
    {
      hide Node.Chunked;
      var lists := ListsOf(g.Keys);
      forall n | n in g
        ensures n.rcnt == 0 <==> !Referred(g, n)
      {
        var s := Referrers(lists, n);
        assert CountsOf(g.Keys)[n] == |s|;
        if Referred(g, n) {
          var m :| m in g && m != n && n in g[m].links;
          assert m in s;
        } else {
          assert s == {};
        }
      }
    }

    static lemma NoRoots(order: seq<Node>)
      ensures RootSet(order, 0) == {} && Roots(order, 0) == []
    {
    }

    static lemma RootsNext(order: seq<Node>, k: nat)
      requires k < |order|
      ensures RootSet(order, k + 1) == if order[k].rcnt == 0 then RootSet(order, k) + {order[k]} else RootSet(order, k)
      ensures Roots(order, k + 1) == if order[k].rcnt == 0 then Roots(order, k) + [order[k]] else Roots(order, k)
    {
    }

    static lemma ListedAt(first: Node?, order: seq<Node>, k: nat)
      requires Listed(first, order) && k <= |order|
      ensures NodeAt(order, 0) == first && (NodeAt(order, k) == null <==> k == |order|)
      ensures k < |order| ==> NodeAt(order, k) == order[k] && order[k] in order && order[k].next == NodeAt(order, k + 1)
    {
    }

    lemma Beginning(g: Graph)
      requires Closed(g) && forall n | n in g :: n.visit == 0
      ensures Told(g, Now(g), []) && Covered(g, {}, Now(g))
    {
    }

    lemma MarksFew(g: Graph, v: Marks)
      requires For(g, v)
      ensures |Unvisited(g, v)| <= |g|
    {
      SubsetSize(Unvisited(g, v), g.Keys);
      assert |g.Keys| == |g|;
    }

    static ghost predicate From(g: Graph, roots: set<Node>, n: Node) {
      exists r :: r in roots && Reach(g, r, n)
    }

    /** Nothing but what the roots reach is marked: they are, and, if there is room, all of it. */
    ghost predicate Covered(g: Graph, roots: set<Node>, v: Marks)
      requires For(g, v) && Closed(g)
    {
      && (forall r | r in roots :: r in g)
      && (forall n | n in g && v[n] > 0 :: From(g, roots, n))
      && (forall r | r in roots :: v[r] > 0)
      && (|g| <= lvmax ==> Done(g, g.Keys, v))
    }

    lemma DoneMore(g: Graph, v: Marks, w: Marks)
      requires For(g, v) && For(g, w) && Closed(g) && Grew(g, v, w) && Done(g, g.Keys, v) && Done(g, Unvisited(g, v), w)
      ensures Done(g, g.Keys, w)
    {
      forall n, i | n in g.Keys && w[n] > 0 && 0 <= i < |g[n].links|
        ensures w[g[n].links[i]] > 0
      {
        if v[n] == 0 {
          assert n in Unvisited(g, v);
        }
      }
    }

    lemma FromMore(g: Graph, roots: set<Node>, np: Node, n: Node)
      ensures From(g, roots, n) || Reach(g, np, n) ==> From(g, roots + {np}, n)
    {
      hide Reach;
      if From(g, roots, n) {
        var r :| r in roots && Reach(g, r, n);
        assert r in roots + {np};
      } else if Reach(g, np, n) {
        assert np in roots + {np};
      }
    }

    lemma CoveredMore(g: Graph, roots: set<Node>, v: Marks, w: Marks, np: Node)
      requires For(g, v) && For(g, w) && Closed(g) && Covered(g, roots, v) && np in g && w[np] > 0
      requires Grew(g, v, w) && Under(g, v, w, np) && (|g| <= lvmax ==> Done(g, Unvisited(g, v), w))
      ensures Covered(g, roots + {np}, w)
    {
      hide Reach, Done, Unvisited, From, Closed;
      if |g| <= lvmax {
        DoneMore(g, v, w);
      }
      forall n | n in g && w[n] > 0
        ensures From(g, roots + {np}, n)
      {
        FromMore(g, roots, np, n);
      }
    }

    lemma AllCovered(g: Graph, roots: set<Node>, v: Marks)
      requires For(g, v) && Closed(g) && Covered(g, roots, v)
      ensures forall n | n in g && v[n] > 0 :: From(g, roots, n)
      ensures forall r | r in roots :: r in g && v[r] > 0
      ensures |g| <= lvmax ==> forall n | n in g && From(g, roots, n) :: v[n] > 0
    {
      hide Done, Closed, From;
      forall n | n in g && |g| <= lvmax && From(g, roots, n)
        ensures v[n] > 0
      {
        ReachedMarked(g, roots, v, n);
      }
    }

    lemma ReachedMarked(g: Graph, roots: set<Node>, v: Marks, n: Node)
      requires For(g, v) && Closed(g) && Done(g, g.Keys, v) && From(g, roots, n) && n in g
      requires forall r | r in roots :: r in g && v[r] > 0
      ensures v[n] > 0
    {
      var s := set x | x in g.Keys && v[x] > 0;
      var r :| r in roots && Reach(g, r, n);
      var k: nat :| ReachIn(g, r, n, k);
      ClosedReach(g, s, r, n, k);
    }
  }

  /** A node that is marked is expanded on just one line. */
  lemma ExpandedOnce(g: Graph, v: Marks, out: seq<Shown>, n: Node)
    requires For(g, v) && Told(g, v, out) && n in g
    ensures v[n] > 0 <==> exists k | 0 <= k < |out| :: out[k].node == n && out[k].ref == 0
    ensures forall k, l | 0 <= k < |out| && 0 <= l < |out| && out[k].node == n && out[l].node == n && out[k].ref == 0 ::
      if out[l].ref == 0 then k == l else out[l].ref == k + 1 && k < l
  {
    if v[n] > 0 {
      assert out[v[n] - 1].node == n && out[v[n] - 1].ref == 0;
    }
  }
}
