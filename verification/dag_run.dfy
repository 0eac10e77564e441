/** dag from its input to its output: what is printed, in terms of the names that the lines have. */
module DagRun {
  import opened Strings
  import opened DagGraph
  import opened DagLines
  import opened DagTree
  import opened DagRead
  import opened DagWalk

  // What the lines say, without nodes.

  ghost predicate LeadsIn(refs: set<(Text, Text)>, x: Text, y: Text, k: nat)
    decreases k
  {
    if k == 0 then x == y else exists z :: (x, z) in refs && LeadsIn(refs, z, y, k - 1)
  }

  /** References lead from x to y. */
  ghost predicate Leads(refs: set<(Text, Text)>, x: Text, y: Text) {
    exists k: nat :: LeadsIn(refs, x, y, k)
  }

  /** No other name refers to x. */
  predicate Top(s: Said, x: Text) {
    x in s.names && forall p | p in s.refs && p.1 == x :: p.0 == x
  }

  ghost predicate BelowTop(s: Said, x: Text) {
    exists r :: Top(s, r) && Leads(s.refs, r, x)
  }

  predicate Expanded(out: seq<Shown>, x: Text) {
    exists k | 0 <= k < |out| :: out[k].ref == 0 && out[k].node.name == x
  }

  /** Line k expands a name, with its text, as no other line does, or gives the number of the line
      before that does. */
  ghost predicate LineOk(out: seq<Shown>, k: nat, s: Said)
    requires k < |out|
  {
    var x := out[k].node.name;
    && x in s.names
    && if out[k].ref == 0 then
         && out[k].data == (if x in s.texts then Data(s.texts[x]) else NoData)
         && forall l | 0 <= l < |out| && out[l].ref == 0 && out[l].node.name == x :: l == k
       else
         && out[k].ref <= k && out[out[k].ref - 1].ref == 0 && out[out[k].ref - 1].node.name == x
  }

  // What is below what.

  /** The names on the lines of level lv. */
  function NamesAt(out: seq<Shown>, lv: nat): seq<Text> {
    if out == [] then [] else (if out[0].lv == lv then [out[0].node.name] else []) + NamesAt(out[1..], lv)
  }

  /** ns lists xs, each once. */
  ghost predicate Lists(ns: seq<Text>, xs: set<Text>) {
    (forall i, j | 0 <= i < j < |ns| :: ns[i] != ns[j]) && forall x :: x in ns <==> x in xs
  }

  function OthersOf(s: Said, x: Text): set<Text> {
    set p | p in s.refs && p.0 == x :: p.1
  }

  /** Lines from level lv on, each followed by those of the names to which its own refers, in order, one
      level below, if it expands its name and the limit allows, and else by none. */
  predicate Outline(out: seq<Shown>, lv: nat, s: Said, lvmax: nat)
    decreases |out|
  {
    out == [] ||
    var e := Deeper(out[1..], lv);
    var below, rest := out[1..][..e], out[1..][e..];
    && out[0].lv == lv
    && NamesAt(below, lv + 1) == (if out[0].ref == 0 && lv < lvmax then Others(s, out[0].node.name) else [])
    && Outline(below, lv + 1, s, lvmax) && Outline(rest, lv, s, lvmax)
  }

  /** Those of the names to which no other refers. */
  function TopsOf(s: Said, ns: seq<Text>): seq<Text> {
    if ns == [] then []
    else TopsOf(s, ns[..|ns| - 1]) + if Top(s, ns[|ns| - 1]) then [ns[|ns| - 1]] else []
  }

  /** The others of a name are those to which it refers, each once, and all names are in the order. */
  ghost predicate InOrder(s: Said) {
    && Lists(s.order, s.names) && (forall x :: Lists(Others(s, x), OthersOf(s, x)))
  }

  lemma NotedLists(l: seq<Text>, xs: set<Text>, x: Text)
    requires Lists(l, xs)
    ensures Lists(Noted(l, x), xs + {x})
  {
    if x !in l {
      var m := l + [x];
      forall y
        ensures y in m <==> y in xs + {x}
      {
      }
    }
  }

  lemma NameInOrder(s: Said, x: Text)
    requires InOrder(s)
    ensures InOrder(Name(s, x))
  {
    hide Lists, Noted;
    NotedLists(s.order, s.names, x);
    forall y
      ensures Lists(Others(Name(s, x), y), OthersOf(Name(s, x), y))
    {
      assert Others(Name(s, x), y) == Others(s, y) && OthersOf(Name(s, x), y) == OthersOf(s, y);
    }
  }

  lemma RefInOrder(s: Said, x: Text, y: Text)
    requires InOrder(s)
    ensures InOrder(Ref(s, x, y))
  {
    hide Lists, Noted;
    var t := Ref(s, x, y);
    forall z
      ensures Lists(Others(t, z), OthersOf(t, z))
    {
      assert Lists(Others(s, z), OthersOf(s, z));
      OthersRef(s, x, y, z);
      if z == x {
        NotedLists(Others(s, x), OthersOf(s, x), y);
        assert Others(t, z) == Noted(Others(s, x), y);
      } else {
        assert Others(t, z) == Others(s, z) && OthersOf(t, z) == OthersOf(s, z);
      }
    }
  }

  lemma OthersRef(s: Said, x: Text, y: Text, z: Text)
    ensures OthersOf(Ref(s, x, y), z) == OthersOf(s, z) + if z == x then {y} else {}
  {
    forall w
      ensures w in OthersOf(Ref(s, x, y), z) <==> w in OthersOf(s, z) || (z == x && w == y)
    {
      OthersAre(Ref(s, x, y), z, w);
      OthersAre(s, z, w);
    }
  }

  lemma {:induction false} RefsInOrder(s: Said, x: Text, ys: seq<Text>)
    requires InOrder(s)
    ensures InOrder(Refs(s, x, ys))
  {
    hide InOrder, Name, Ref;
    if ys != [] {
      var n := |ys| - 1;
      RefsInOrder(s, x, ys[..n]);
      NameInOrder(Refs(s, x, ys[..n]), ys[n]);
      RefInOrder(Name(Refs(s, x, ys[..n]), ys[n]), x, ys[n]);
    }
  }

  lemma {:induction false} HeardInOrder(ls: seq<Text>)
    ensures InOrder(HearAll(ls))
  {
    hide Parse, Entered;
    if ls == [] {
      NothingInOrder();
    } else {
      hide InOrder, Refs, Name;
      var n := |ls| - 1;
      HeardInOrder(ls[..n]);
      var s := HearAll(ls[..n]);
      match Parse(ls[n])
      case Value(x, v) =>
        NameInOrder(s, x);
        TextInOrder(Name(s, x), s.texts[x := v]);
      case Refers(x, others) =>
        NameInOrder(s, x);
        RefsInOrder(Name(s, x), x, Entered(others));
      case Other =>
    }
  }

  lemma NothingInOrder()
    ensures InOrder(Nothing())
  {
  }

  lemma TextInOrder(s: Said, texts: map<Text, Text>)
    requires InOrder(s)
    ensures InOrder(s.(texts := texts))
  {
    hide Lists;
    forall x
      ensures Lists(Others(s.(texts := texts), x), OthersOf(s.(texts := texts), x))
    {
      assert Others(s.(texts := texts), x) == Others(s, x) && OthersOf(s.(texts := texts), x) == OthersOf(s, x);
    }
  }

  // The graph and what has been said.

  ghost function GraphOf(nodes: set<Node>): Graph
    reads nodes`links, nodes`data
  {
    map n | n in nodes :: Vertex(n.links, n.data)
  }

  ghost predicate OneEach(g: Graph, names: set<Text>) {
    && (forall a, b | a in g && b in g && a.name == b.name :: a == b)
    && (forall n | n in g :: n.name in names) && forall x | x in names :: exists n :: n in g && n.name == x
  }

  ghost predicate Linking(g: Graph, refs: set<(Text, Text)>) {
    forall a, b | a in g && b in g :: b in g[a].links <==> (a.name, b.name) in refs
  }

  ghost predicate Distinct(g: Graph) {
    forall n | n in g :: Once(g[n].links)
  }

  ghost predicate Texts(g: Graph, texts: map<Text, Text>) {
    forall n | n in g :: g[n].data == if n.name in texts then Data(texts[n.name]) else NoData
  }

  /** The successors of each are in order. */
  ghost predicate Following(g: Graph, s: Said) {
    forall n | n in g :: NamesOf(g[n].links) == Others(s, n.name)
  }

  /** The graph is that of the names. */
  ghost predicate Depicts(g: Graph, s: Said) {
    && Closed(g) && Distinct(g) && OneEach(g, s.names) && Linking(g, s.refs) && Texts(g, s.texts)
    && Within(s.refs, s.names) && Following(g, s)
  }

  lemma PictureEach(order: seq<Node>, nodes: set<Node>, names: set<Text>)
    requires Named(order, names) && Different(order) && Same(order, nodes)
    ensures OneEach(GraphOf(nodes), names)
  {
    hide Different;
    forall a, b | a in nodes && b in nodes && a.name == b.name
      ensures a == b
    {
      OneNode(order, a, b);
    }
  }

  lemma PictureLinks(nodes: set<Node>, refs: set<(Text, Text)>)
    requires Referring(ListsOf(nodes), refs)
    ensures Closed(GraphOf(nodes)) && Distinct(GraphOf(nodes)) && Linking(GraphOf(nodes), refs)
  {
    var g, lists := GraphOf(nodes), ListsOf(nodes);
    assert forall n | n in g :: g[n].links == lists[n];
    forall n, i | n in g && 0 <= i < |g[n].links|
      ensures g[n].links[i] in g
    {
      assert g[n].links[i] in lists[n];
    }
  }

  lemma PictureTexts(nodes: set<Node>, texts: map<Text, Text>)
    requires Holding(DatasOf(nodes), texts)
    ensures Texts(GraphOf(nodes), texts)
  {
    assert forall n | n in nodes :: GraphOf(nodes)[n].data == DatasOf(nodes)[n];
  }

  lemma PictureDepicts(order: seq<Node>, nodes: set<Node>, s: Said)
    requires Pictured(order, ListsOf(nodes), DatasOf(nodes), s) && Different(order) && Same(order, nodes)
    ensures Depicts(GraphOf(nodes), s) && NamesOf(order) == s.order
  {
    hide NamesOf, Named, Referring, Holding, Within, Same, Different, ListsOf, DatasOf, GraphOf, Closed, OneEach;
    hide Distinct, Linking, Texts, Following, Arranged;
    PictureFollows(order, nodes, s);
    PictureEach(order, nodes, s.names);
    PictureLinks(nodes, s.refs);
    PictureTexts(nodes, s.texts);
  }

  lemma PictureFollows(order: seq<Node>, nodes: set<Node>, s: Said)
    requires Arranged(order, ListsOf(nodes), s)
    ensures Following(GraphOf(nodes), s) && NamesOf(order) == s.order
  {
    hide NamesOf;
    assert forall n | n in nodes :: GraphOf(nodes)[n].links == ListsOf(nodes)[n];
  }

  /** A successor is a name referred to. */
  lemma LinkIsRef(g: Graph, s: Said, a: Node, z: Text)
    requires Depicts(g, s) && a in g
    ensures (a.name, z) in s.refs <==> exists i | 0 <= i < |g[a].links| :: g[a].links[i].name == z
  {
    if (a.name, z) in s.refs {
      assert z in s.names;
      var n :| n in g && n.name == z;
      assert n in g[a].links;
    }
    if i :| 0 <= i < |g[a].links| && g[a].links[i].name == z {
      assert g[a].links[i] in g[a].links && g[a].links[i] in g;
    }
  }

  lemma NamesTell(g: Graph, s: Said, a: Node, b: Node)
    requires Depicts(g, s) && a in g && b in g
    ensures a == b <==> a.name == b.name
    ensures forall i | 0 <= i < |g[a].links| :: g[a].links[i] in g
    ensures a.name in s.names
  {
  }

  /** Nodes reach what their names lead to. */
  lemma {:induction false} ReachIsLeads(g: Graph, s: Said, a: Node, b: Node, k: nat)
    requires Depicts(g, s) && a in g && b in g
    ensures ReachIn(g, a, b, k) <==> LeadsIn(s.refs, a.name, b.name, k)
    decreases k
  {
    hide Depicts;
    NamesTell(g, s, a, b);
    if k > 0 {
      forall i | 0 <= i < |g[a].links|
        ensures (a.name, g[a].links[i].name) in s.refs
        ensures ReachIn(g, g[a].links[i], b, k - 1) <==> LeadsIn(s.refs, g[a].links[i].name, b.name, k - 1)
      {
        LinkIsRef(g, s, a, g[a].links[i].name);
        ReachIsLeads(g, s, g[a].links[i], b, k - 1);
      }
      if LeadsIn(s.refs, a.name, b.name, k) {
        var z :| (a.name, z) in s.refs && LeadsIn(s.refs, z, b.name, k - 1);
        LinkIsRef(g, s, a, z);
      }
    }
  }

  lemma UnreferredIsTop(g: Graph, s: Said, n: Node)
    requires Depicts(g, s) && n in g
    ensures !Referred(g, n) <==> Top(s, n.name)
  {
    if Referred(g, n) {
      var m :| m in g && m != n && n in g[m].links;
      assert (m.name, n.name) in s.refs;
      NamesTell(g, s, m, n);
    }
    if !Top(s, n.name) {
      var p :| p in s.refs && p.1 == n.name && p.0 != n.name;
      assert p.0 in s.names;
      var m :| m in g && m.name == p.0;
      assert p == (m.name, n.name) && n in g[m].links;
    }
  }

  /** What the roots reach is what is below a name at the top. */
  lemma FromIsBelow(g: Graph, s: Said, roots: set<Node>, n: Node)
    requires Depicts(g, s) && n in g && forall r :: r in roots <==> r in g && !Referred(g, r)
    ensures Walker.From(g, roots, n) <==> BelowTop(s, n.name)
  {
    hide Depicts, ReachIn, LeadsIn, Referred;
    if Walker.From(g, roots, n) {
      var r :| r in roots && Reach(g, r, n);
      var k: nat :| ReachIn(g, r, n, k);
      UnreferredIsTop(g, s, r);
      ReachIsLeads(g, s, r, n, k);
      assert Top(s, r.name) && Leads(s.refs, r.name, n.name);
    }
    if BelowTop(s, n.name) {
      var x :| Top(s, x) && Leads(s.refs, x, n.name);
      var k: nat :| LeadsIn(s.refs, x, n.name, k);
      var r := NodeOf(g, s, x);
      UnreferredIsTop(g, s, r);
      ReachIsLeads(g, s, r, n, k);
      assert Reach(g, r, n);
    }
  }

  lemma NodeOf(g: Graph, s: Said, x: Text) returns (n: Node)
    requires Depicts(g, s) && x in s.names
    ensures n in g && n.name == x
  {
    n :| n in g && n.name == x;
  }

  lemma {:induction false} FewNodes(nodes: set<Node>, names: set<Text>)
    requires forall n | n in nodes :: n.name in names
    requires forall a, b | a in nodes && b in nodes && a.name == b.name :: a == b
    ensures |nodes| <= |names|
    decreases |nodes|
  {
    if n :| n in nodes {
      FewNodes(nodes - {n}, names - {n.name});
    }
  }

  /** Every line is as it should be. */
  lemma LinesOk(g: Graph, s: Said, v: Marks, out: seq<Shown>, k: nat)
    requires Depicts(g, s) && For(g, v) && Told(g, v, out) && k < |out|
    ensures LineOk(out, k, s)
  {
    hide Depicts;
    var n := out[k].node;
    NamesTell(g, s, n, n);
    DataIs(g, s, n);
    if out[k].ref == 0 {
      forall l | 0 <= l < |out| && out[l].ref == 0 && out[l].node.name == n.name
        ensures l == k
      {
        NamesTell(g, s, out[l].node, n);
      }
    } else {
      assert out[v[n] - 1].node == n && out[v[n] - 1].ref == 0;
    }
  }

  lemma DataIs(g: Graph, s: Said, n: Node)
    requires Depicts(g, s) && n in g
    ensures g[n].data == if n.name in s.texts then Data(s.texts[n.name]) else NoData
  {
  }

  lemma ExpandedIs(g: Graph, s: Said, v: Marks, out: seq<Shown>, n: Node)
    requires Depicts(g, s) && For(g, v) && Told(g, v, out) && n in g
    ensures Expanded(out, n.name) <==> v[n] > 0
  {
    hide Depicts;
    if v[n] > 0 {
      assert out[v[n] - 1].node == n && out[v[n] - 1].ref == 0;
    }
    if k :| 0 <= k < |out| && out[k].ref == 0 && out[k].node.name == n.name {
      NamesTell(g, s, out[k].node, n);
    }
  }

  ghost function Cells(nodes: set<Node>): set<object>
    reads nodes`chunks
  {
    var chunks: set<object>, slots: set<object> := Chunks(nodes), Slots(nodes);
    chunks + slots
  }

  /** The lists in memory are those of the graph. */
  lemma SpreadKept(w: Walker, nodes: set<Node>)
    requires Spread(nodes) && w.cells == Cells(nodes)
    ensures w.Kept(GraphOf(nodes))
  {
    hide Node.Chunked;
    assert GraphOf(nodes).Keys == nodes;
    forall n, c | n in nodes && c in n.chunks
      ensures c in Chunks(nodes) && c.node in Slots(nodes)
    {
    }
  }

  lemma DagListed(d: Dag)
    requires d.Valid()
    ensures Walker.Listed(d.first, d.order) && forall n :: n in d.order <==> n in Nodes(d.tree)
  {
    hide Ordered, Shape, Nodes;
  }

  lemma GraphHas(nodes: set<Node>)
    ensures GraphOf(nodes).Keys == nodes
  {
  }

  lemma DepictsClosed(g: Graph, s: Said)
    requires Depicts(g, s)
    ensures Closed(g)
  {
  }

  /** What has been printed of the graph, in terms of names. */
  lemma Printed(g: Graph, s: Said, v: Marks, out: seq<Shown>, roots: set<Node>, lvmax: nat)
    requires Depicts(g, s) && For(g, v) && Told(g, v, out)
    requires forall n :: n in roots <==> n in g && !Referred(g, n)
    requires forall n | n in g && v[n] > 0 :: Walker.From(g, roots, n)
    requires forall r | r in roots :: v[r] > 0
    requires |g| <= lvmax ==> forall n | n in g && Walker.From(g, roots, n) :: v[n] > 0
    ensures forall k | 0 <= k < |out| :: LineOk(out, k, s)
    ensures forall x | x in s.names && Top(s, x) :: Expanded(out, x)
    ensures forall x | x in s.names && Expanded(out, x) :: BelowTop(s, x)
    ensures |s.names| <= lvmax ==> forall x | x in s.names && BelowTop(s, x) :: Expanded(out, x)
  {
    hide *;
    forall k | 0 <= k < |out|
      ensures LineOk(out, k, s)
    {
      LinesOk(g, s, v, out, k);
    }
    GraphFew(g, s);
    forall x | x in s.names
      ensures Top(s, x) ==> Expanded(out, x)
      ensures Expanded(out, x) ==> BelowTop(s, x)
      ensures |s.names| <= lvmax && BelowTop(s, x) ==> Expanded(out, x)
    {
      var n := NodeOf(g, s, x);
      ExpandedIs(g, s, v, out, n);
      FromIsBelow(g, s, roots, n);
      UnreferredIsTop(g, s, n);
    }
  }

  lemma GraphFew(g: Graph, s: Said)
    requires Depicts(g, s)
    ensures |g| <= |s.names|
  {
    hide Depicts;
    forall a, b | a in g && b in g
      ensures a.name in s.names && (a.name == b.name ==> a == b)
    {
      NamesTell(g, s, a, b);
    }
    FewNodes(g.Keys, s.names);
    assert |g| == |g.Keys|;
  }

  // The drawing, in terms of names.

  lemma {:induction false} NamesAtLevel(out: seq<Shown>, lv: nat)
    ensures NamesAt(out, lv) == NamesOf(AtLevel(out, lv))
  {
    if out != [] {
      NamesAtLevel(out[1..], lv);
    }
  }

  lemma KidsList(g: Graph, s: Said, lvmax: nat, l: Shown)
    requires Depicts(g, s) && l.node in g
    ensures NamesOf(Kids(g, lvmax, l)) == if l.ref == 0 && l.lv < lvmax then Others(s, l.node.name) else []
  {
    hide NamesOf, Linking, OneEach, Texts;
    NoneNamed();
  }

  lemma NoneNamed()
    ensures NamesOf([]) == []
  {
  }

  lemma OthersAre(s: Said, x: Text, y: Text)
    ensures y in OthersOf(s, x) <==> (x, y) in s.refs
  {
    if (x, y) in s.refs {
      assert (x, y).1 in OthersOf(s, x);
    }
  }

  lemma {:induction false} ForestOutline(g: Graph, s: Said, lvmax: nat, out: seq<Shown>, lv: nat)
    requires Depicts(g, s) && Forest(g, lvmax, out, lv)
    ensures Outline(out, lv, s, lvmax)
    decreases |out|
  {
    hide Depicts, Kids, AtLevel, NamesAt, NamesOf, Others;
    if out != [] {
      var e := Deeper(out[1..], lv);
      var below, rest := out[1..][..e], out[1..][e..];
      NamesAtLevel(below, lv + 1);
      KidsList(g, s, lvmax, out[0]);
      ForestOutline(g, s, lvmax, below, lv + 1);
      ForestOutline(g, s, lvmax, rest, lv);
    }
  }

  /** The nodes to which no other refers have the names at the top. */
  lemma {:induction false} RootsTops(g: Graph, s: Said, order: seq<Node>, k: nat)
    requires Depicts(g, s) && k <= |order|
    requires Walker.CountsTell(g, order)
    ensures NamesOf(Walker.Roots(order, k)) == TopsOf(s, NamesOf(order)[..k])
  {
    hide Depicts, Referred, Top, NamesOf;
    if k == 0 {
      NoneNamed();
    } else {
      RootsTops(g, s, order, k - 1);
      assert order[k - 1] in order;
      assert Walker.Roots(order, k - 1) + [] == Walker.Roots(order, k - 1);
      UnreferredIsTop(g, s, order[k - 1]);
      NamesPrefix(order, k);
      NamesSnoc(Walker.Roots(order, k - 1), order[k - 1]);
    }
  }

  lemma NamesPrefix(order: seq<Node>, k: nat)
    requires 0 < k <= |order|
    ensures var ns := NamesOf(order)[..k]; ns[..k - 1] == NamesOf(order)[..k - 1] && ns[k - 1] == order[k - 1].name
  {
  }

  lemma Outlined(g: Graph, s: Said, lvmax: nat, out: seq<Shown>, order: seq<Node>)
    requires Depicts(g, s) && NamesOf(order) == s.order
    requires Walker.CountsTell(g, order)
    requires Drawn(g, lvmax, [], out, 0, Walker.Roots(order, |order|))
    ensures Outline(out, 0, s, lvmax) && NamesAt(out, 0) == TopsOf(s, s.order)
  {
    hide Depicts, Walker.CountsTell, TopsOf, Forest, Outline, NamesAt, AtLevel, NamesOf;
    assert out[0..] == out;
    RootsTops(g, s, order, |order|);
    assert NamesOf(order)[..|order|] == NamesOf(order);
    ForestOutline(g, s, lvmax, out, 0);
    NamesAtLevel(out, 0);
  }

  /** dag: reads its input, with a buffer for size characters of a line, and prints the graph, as an
      outline with the names to which no other refers at the top. These are expanded, and besides
      them only what references lead to from them; when there are no more names than levels, all of
      it. */
  method Run(inp: seq<int>, size: nat, lvmax: nat) returns (out: seq<Shown>)
    ensures var s := HearAll(Lines(inp, size));
      && Outline(out, 0, s, lvmax) && NamesAt(out, 0) == TopsOf(s, s.order) && InOrder(s)
      && (forall k | 0 <= k < |out| :: LineOk(out, k, s))
      && (forall x | x in s.names && Top(s, x) :: Expanded(out, x))
      && (forall x | x in s.names && Expanded(out, x) :: BelowTop(s, x))
      && (|s.names| <= lvmax ==> forall x | x in s.names && BelowTop(s, x) :: Expanded(out, x))
  {
    hide HearAll, Lines, Top, LineOk, Expanded, BelowTop, Nodes, GraphOf, Ready, Pictured, Different, Depicts, Closed;
    hide Spread;
    hide Dag.Valid, Dag.Tallied, AllUnvisited, Walker.Kept, Walker.Listed, Walker.From, Walker.Now, Counted, Told;
    hide Cells, Walker.CountsTell, Referred, Walker.Roots, Drawn, Outline, NamesAt, TopsOf, InOrder, Arranged, NamesOf;
    HeardInOrder(Lines(inp, size));
    var d := ReadAll(inp, size);
    ghost var s, nodes := HearAll(Lines(inp, size)), Nodes(d.tree);
    ghost var g := GraphOf(nodes);
    ReadyParts(d, s);
    ValidOrder(d);
    PictureDepicts(d.order, nodes, s);
    DepictsClosed(g, s);
    GraphHas(nodes);
    DagListed(d);
    CountsAre(d);
    VisitsAre(nodes);
    var w := new Walker(lvmax, Cells(nodes));
    SpreadKept(w, nodes);
    ghost var roots := w.PrintAll(d.first, d.order, g);
    out := w.out;
    Printed(g, s, Walker.Now(g), out, roots, lvmax);
    Outlined(g, s, lvmax, out, d.order);
  }

  lemma CountsAre(d: Dag)
    requires d.Tallied()
    ensures Counted(ListsOf(Nodes(d.tree)), CountsOf(Nodes(d.tree)))
  {
  }

  lemma VisitsAre(nodes: set<Node>)
    requires AllUnvisited(nodes)
    ensures forall n | n in nodes :: n.visit == 0
  {
  }
}
