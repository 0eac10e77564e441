/** dag's reader: the lines of its input make up the graph. */
module DagRead {
  import opened Strings
  import opened DagGraph
  import opened DagLines
  import opened DagTree

  /** What has been said: the names, which of them refers to which, and the last text for each; and in
      which order names, and the others of each, were first met. */
  datatype Said = Said(names: set<Text>, refs: set<(Text, Text)>, texts: map<Text, Text>, order: seq<Text>,
                       lists: map<Text, seq<Text>>)

  function Nothing(): Said {
    Said({}, {}, map[], [], map[])
  }

  /** One more at the end of a list, if it is not there. */
  function Noted(l: seq<Text>, x: Text): seq<Text> {
    if x in l then l else l + [x]
  }

  /** Those to which x refers, in order. */
  function Others(s: Said, x: Text): seq<Text> {
    if x in s.lists then s.lists[x] else []
  }

  function Name(s: Said, x: Text): Said {
    s.(names := s.names + {x}, order := Noted(s.order, x))
  }

  function Ref(s: Said, x: Text, y: Text): Said {
    s.(refs := s.refs + {(x, y)}, lists := s.lists[x := Noted(Others(s, x), y)])
  }

  function Refs(s: Said, x: Text, ys: seq<Text>): Said {
    if ys == [] then s
    else
      var n := |ys| - 1;
      Ref(Name(Refs(s, x, ys[..n]), ys[n]), x, ys[n])
  }

  function Hear(s: Said, t: Text): Said {
    match Parse(t)
    case Value(x, v) => Name(s, x).(texts := s.texts[x := v])
    case Refers(x, others) => Refs(Name(s, x), x, Entered(others))
    case Other => s
  }

  function HearAll(ls: seq<Text>): Said {
    if ls == [] then Nothing() else Hear(HearAll(ls[..|ls| - 1]), ls[|ls| - 1])
  }

  // What the programs that write dag's input have to say, and how they write it.

  datatype Fact = Call(name: Text, other: Text) | Meaning(name: Text, text: Text)

  /** Names are names, and texts have no blank in front and no newline in them. */
  predicate Writable(f: Fact) {
    IsWord(f.name) &&
    match f
    case Call(_, y) => IsWord(y)
    case Meaning(_, v) => (v != [] ==> !IsSpace(v[0])) && NEWLINE !in v && NUL !in v
  }

  function Written(f: Fact): Text {
    match f
    case Call(x, y) => x + ([BLANK] + ([COLON] + ([BLANK] + y)))
    case Meaning(x, v) => x + ([BLANK] + ([EQUALS] + ([BLANK] + v)))
  }

  function Learn(s: Said, f: Fact): Said {
    match f
    case Call(x, y) => Ref(Name(Name(s, x), y), x, y)
    case Meaning(x, v) => Name(s, x).(texts := s.texts[x := v])
  }

  function LearnAll(fs: seq<Fact>): Said {
    if fs == [] then Nothing() else Learn(LearnAll(fs[..|fs| - 1]), fs[|fs| - 1])
  }

  function AllWritten(fs: seq<Fact>): (ls: seq<Text>)
    ensures |ls| == |fs|
  {
    seq(|fs|, i requires 0 <= i < |fs| => Written(fs[i]))
  }

  lemma WrittenIsHeard(s: Said, f: Fact)
    requires Writable(f)
    ensures Hear(s, Written(f)) == Learn(s, f)
  {
    hide Parse, Entered, IsWord, IsSpace;
    match f
    case Call(x, y) =>
      ReferenceWritten(x, y);
      OneRef(Name(s, x), x, y);
    case Meaning(x, v) => ValueWritten(x, v);
  }

  lemma OneRef(s: Said, x: Text, y: Text)
    ensures Refs(s, x, [y]) == Ref(Name(s, y), x, y)
  {
    assert [y][..0] == [];
  }

  lemma {:induction false} AllHeard(fs: seq<Fact>)
    requires forall f | f in fs :: Writable(f)
    ensures HearAll(AllWritten(fs)) == LearnAll(fs)
  {
    hide Hear, Learn, Written, Writable;
    if fs != [] {
      var n := |fs| - 1;
      assert fs[n] in fs && forall f | f in fs[..n] :: f in fs;
      AllHeard(fs[..n]);
      assert AllWritten(fs)[..n] == AllWritten(fs[..n]);
      WrittenIsHeard(HearAll(AllWritten(fs[..n])), fs[n]);
    }
  }

  lemma WordIsText(x: Text)
    requires IsWord(x)
    ensures NEWLINE !in x && NUL !in x
  {
  }

  lemma WrittenFits(f: Fact)
    requires Writable(f)
    ensures NEWLINE !in Written(f) && NUL !in Written(f)
  {
    hide IsWord;
    WordIsText(f.name);
    if f.Call? {
      WordIsText(f.other);
    }
  }

  /** Whatever is written like that, in lines that are not too long, is what dag takes it to be. */
  lemma InputIsHeard(fs: seq<Fact>, size: nat)
    requires forall f | f in fs :: Writable(f) && |Written(f)| <= size
    ensures HearAll(Lines(Joined(AllWritten(fs)), size)) == LearnAll(fs)
  {
    hide HearAll, LearnAll, Lines, Joined, Written, Writable;
    var ls := AllWritten(fs);
    forall l | l in ls
      ensures |l| <= size && NEWLINE !in l && NUL !in l
    {
      var i :| 0 <= i < |ls| && ls[i] == l;
      assert fs[i] in fs;
      WrittenFits(fs[i]);
    }
    LinesJoined(ls, [], size);
    assert Joined(ls) + [] == Joined(ls);
    AllHeard(fs);
  }

  // The graph as a value.

  type Datas = map<Node, Data>

  ghost function DatasOf(nodes: set<Node>): Datas
    reads nodes`data
  {
    map n | n in nodes :: n.data
  }

  /** There is a node for each name. */
  ghost predicate Named(order: seq<Node>, names: set<Text>) {
    (forall n | n in order :: n.name in names) && forall x | x in names :: exists n :: n in order && n.name == x
  }

  ghost predicate Once(l: seq<Node>) {
    forall i, j | 0 <= i < j < |l| :: l[i] != l[j]
  }

  /** The successors are those referred to, each once. */
  ghost predicate Referring(lists: Lists, refs: set<(Text, Text)>) {
    && (forall a | a in lists :: Once(lists[a]))
    && (forall a, b | a in lists && b in lists[a] :: b in lists)
    && forall a, b | a in lists && b in lists :: b in lists[a] <==> (a.name, b.name) in refs
  }

  function NamesOf(nodes: seq<Node>): (ns: seq<Text>)
    ensures |ns| == |nodes|
  {
    seq(|nodes|, i requires 0 <= i < |nodes| => nodes[i].name)
  }

  /** Nodes and successors are in the order in which they were met. */
  ghost predicate Arranged(order: seq<Node>, lists: Lists, s: Said) {
    && NamesOf(order) == s.order && s.lists.Keys <= s.names
    && forall n | n in lists :: NamesOf(lists[n]) == Others(s, n.name)
  }

  ghost predicate Within(refs: set<(Text, Text)>, names: set<Text>) {
    forall p | p in refs :: p.0 in names && p.1 in names
  }

  /** The data are the texts. */
  ghost predicate Holding(datas: Datas, texts: map<Text, Text>) {
    forall n | n in datas :: datas[n] == if n.name in texts then Data(texts[n.name]) else NoData
  }

  /** The nodes are those named, with the successors and the data that have been said. */
  ghost predicate Pictured(order: seq<Node>, lists: Lists, datas: Datas, s: Said) {
    && lists.Keys == datas.Keys && Same(order, lists.Keys)
    && Named(order, s.names) && Referring(lists, s.refs) && Holding(datas, s.texts)
    && Within(s.refs, s.names) && s.texts.Keys <= s.names && Arranged(order, lists, s)
  }

  ghost predicate Different(order: seq<Node>) {
    forall i, j | 0 <= i < j < |order| :: order[i].name != order[j].name
  }

  lemma OneNode(order: seq<Node>, a: Node, b: Node)
    requires Different(order) && a in order && b in order && a.name == b.name
    ensures a == b
  {
    var i :| 0 <= i < |order| && order[i] == a;
    var j :| 0 <= j < |order| && order[j] == b;
  }

  /** A name that is there already. */
  lemma NameThere(order: seq<Node>, lists: Lists, datas: Datas, s: Said, np: Node)
    requires Pictured(order, lists, datas, s) && np in order
    ensures Pictured(order, lists, datas, Name(s, np.name))
  {
    assert s.names + {np.name} == s.names;
    NamesHave(order, np);
  }

  lemma NamesHave(nodes: seq<Node>, n: Node)
    requires n in nodes
    ensures n.name in NamesOf(nodes)
  {
    var i :| 0 <= i < |nodes| && nodes[i] == n;
    assert NamesOf(nodes)[i] == n.name;
  }

  lemma NamesSnoc(nodes: seq<Node>, n: Node)
    ensures NamesOf(nodes + [n]) == NamesOf(nodes) + [n.name]
  {
  }

  lemma NamedMore(order: seq<Node>, names: set<Text>, np: Node)
    requires Named(order, names)
    ensures Named(order + [np], names + {np.name})
  {
    forall x | x in names + {np.name}
      ensures exists n :: n in order + [np] && n.name == x
    {
      if x in names {
        var n :| n in order && n.name == x;
        assert n in order + [np];
      } else {
        assert np in order + [np];
      }
    }
  }

  lemma ReferringNew(lists: Lists, refs: set<(Text, Text)>, names: set<Text>, np: Node)
    requires Referring(lists, refs) && Within(refs, names) && np !in lists && np.name !in names
    ensures Referring(lists[np := []], refs)
  {
  }

  /** A name that is new. */
  lemma NameNew(order: seq<Node>, lists: Lists, datas: Datas, s: Said, np: Node)
    requires Pictured(order, lists, datas, s) && np !in lists
    requires forall n | n in order :: n.name != np.name
    ensures Pictured(order + [np], lists[np := []], datas[np := NoData], Name(s, np.name))
  {
    hide Named, Referring, Within, Holding, Same, Arranged;
    NotNamed(order, s.names, np);
    ArrangedNew(order, lists, s, np);
    NamedMore(order, s.names, np);
    SameMore(order, lists.Keys, np);
    ReferringNew(lists, s.refs, s.names, np);
    WithinMore(s.refs, s.names, np.name);
    HoldingNew(datas, s.texts, np);
    assert lists[np := []].Keys == lists.Keys + {np};
  }

  lemma ArrangedNew(order: seq<Node>, lists: Lists, s: Said, np: Node)
    requires Arranged(order, lists, s) && np.name !in s.names && np !in lists
    requires forall n | n in order :: n.name != np.name
    ensures Arranged(order + [np], lists[np := []], Name(s, np.name))
  {
    NamesSnoc(order, np);
    assert np.name !in NamesOf(order);
    assert NamesOf([]) == [];
  }

  lemma NotNamed(order: seq<Node>, names: set<Text>, np: Node)
    requires Named(order, names) && forall n | n in order :: n.name != np.name
    ensures np.name !in names
  {
  }

  lemma WithinMore(refs: set<(Text, Text)>, names: set<Text>, x: Text)
    requires Within(refs, names)
    ensures Within(refs, names + {x})
  {
  }

  lemma HoldingNew(datas: Datas, texts: map<Text, Text>, np: Node)
    requires Holding(datas, texts) && np.name !in texts
    ensures Holding(datas[np := NoData], texts)
  {
  }

  lemma WithinRef(refs: set<(Text, Text)>, names: set<Text>, x: Text, y: Text)
    requires Within(refs, names) && x in names && y in names
    ensures Within(refs + {(x, y)}, names)
  {
  }

  lemma ReferringMore(order: seq<Node>, lists: Lists, refs: set<(Text, Text)>, a: Node, b: Node)
    requires Referring(lists, refs) && Different(order) && Same(order, lists.Keys) && a in lists && b in lists
    ensures Referring(if b in lists[a] then lists else lists[a := lists[a] + [b]], refs + {(a.name, b.name)})
  {
    var lists' := if b in lists[a] then lists else lists[a := lists[a] + [b]];
    hide Different;
    assert b !in lists[a] ==> Once(lists[a] + [b]);
    forall c, d | c in lists && d in lists
      ensures d in lists'[c] <==> (c.name, d.name) in refs + {(a.name, b.name)}
    {
      if c.name == a.name && d.name == b.name {
        OneNode(order, c, a);
        OneNode(order, d, b);
      }
    }
  }

  /** A reference. */
  lemma RefMore(order: seq<Node>, lists: Lists, datas: Datas, s: Said, a: Node, b: Node)
    requires Pictured(order, lists, datas, s) && Different(order) && a in order && b in order
    ensures a in lists
    ensures var lists' := if b in lists[a] then lists else lists[a := lists[a] + [b]];
      Pictured(order, lists', datas, Ref(s, a.name, b.name))
  {
    hide Named, Referring, Within, Holding, Same, Different, Arranged;
    SameHas(order, lists.Keys, a);
    SameHas(order, lists.Keys, b);
    NamedIn(order, s.names, a);
    NamedIn(order, s.names, b);
    ReferringMore(order, lists, s.refs, a, b);
    ArrangedMore(order, lists, s, a, b);
    WithinRef(s.refs, s.names, a.name, b.name);
    var lists' := if b in lists[a] then lists else lists[a := lists[a] + [b]];
    assert lists'.Keys == lists.Keys;
  }

  lemma ArrangedMore(order: seq<Node>, lists: Lists, s: Said, a: Node, b: Node)
    requires Arranged(order, lists, s) && Referring(lists, s.refs) && Different(order) && Same(order, lists.Keys)
    requires a in lists && b in lists && a.name in s.names
    ensures Arranged(order, if b in lists[a] then lists else lists[a := lists[a] + [b]], Ref(s, a.name, b.name))
  {
    hide Different, Same;
    var lists' := if b in lists[a] then lists else lists[a := lists[a] + [b]];
    AllOrdered(order, lists.Keys);
    NamesSnoc(lists[a], b);
    assert b in lists[a] <==> b.name in NamesOf(lists[a]) by {
      if b in lists[a] {
        NamesHave(lists[a], b);
      }
      if i :| 0 <= i < |lists[a]| && NamesOf(lists[a])[i] == b.name {
        assert lists[a][i] in lists[a] && lists[a][i].name == b.name;
        OneNode(order, lists[a][i], b);
      }
    }
    forall n | n in lists
      ensures NamesOf(lists'[n]) == Others(Ref(s, a.name, b.name), n.name)
    {
      if n != a && n.name == a.name {
        OneNode(order, n, a);
      }
    }
  }

  lemma AllOrdered(order: seq<Node>, nodes: set<Node>)
    requires Same(order, nodes)
    ensures forall n | n in nodes :: n in order
  {
  }

  lemma NamedIn(order: seq<Node>, names: set<Text>, n: Node)
    requires Named(order, names) && n in order
    ensures n.name in names
  {
  }

  lemma HoldingMore(order: seq<Node>, datas: Datas, texts: map<Text, Text>, a: Node, t: Text)
    requires Holding(datas, texts) && Different(order) && Same(order, datas.Keys) && a in datas
    ensures Holding(datas[a := Data(t)], texts[a.name := t])
  {
    hide Different;
    forall n | n in datas && n.name == a.name
      ensures n == a
    {
      OneNode(order, n, a);
    }
  }

  /** A text. */
  lemma TextMore(order: seq<Node>, lists: Lists, datas: Datas, s: Said, a: Node, t: Text)
    requires Pictured(order, lists, datas, s) && Different(order) && a in order
    ensures Pictured(order, lists, datas[a := Data(t)], s.(texts := s.texts[a.name := t]))
  {
    HoldingMore(order, datas, s.texts, a, t);
    hide Referring, Different, Holding, NamesOf;
    assert a.name in s.names;
  }

  // The graph in memory.

  // What the lists of successors are made of.

  ghost function Chunks(nodes: set<Node>): set<Link>
    reads nodes`chunks
  {
    set n, i | n in nodes && 0 <= i < |n.chunks| :: n.chunks[i]
  }

  ghost function Slots(nodes: set<Node>): set<array<Node?>>
    reads nodes`chunks
  {
    set n, c | n in nodes && c in n.chunks :: c.node
  }

  lemma Types(d: Dag, nodes: set<Node>)
    ensures forall c | c in Chunks(nodes) :: d as object != c && forall n | n in nodes :: n as object != c
    ensures forall c | c in Slots(nodes) :: d as object != c && forall n | n in nodes :: n as object != c
  {
  }

  ghost predicate Disjoint(p: seq<Link>, q: seq<Link>) {
    forall c, e | c in p && e in q :: c != e && c.node != e.node
  }

  /** Every node has a list of its own. */
  ghost predicate Spread(nodes: set<Node>)
    reads nodes`link, nodes`lcnt, nodes`links, nodes`chunks, Chunks(nodes), Slots(nodes)
  {
    && (forall n | n in nodes :: n.Chunked())
    && (forall m, n | m in nodes && n in nodes && m != n :: Disjoint(m.chunks, n.chunks))
  }

  lemma SpreadNew(nodes: set<Node>, np: Node)
    requires Spread(nodes) && np.chunks == [] && np.Chunked()
    ensures Spread(nodes + {np}) && Chunks(nodes + {np}) == Chunks(nodes) && Slots(nodes + {np}) == Slots(nodes)
  {
    hide Node.Chunked;
    assert Chunks(nodes + {np}) == Chunks(nodes) && Slots(nodes + {np}) == Slots(nodes);
  }

  ghost predicate AllUnvisited(nodes: set<Node>)
    reads nodes`visit
  {
    forall n | n in nodes :: n.visit == 0
  }

  lemma AllUnvisitedNew(nodes: set<Node>, np: Node)
    requires AllUnvisited(nodes) && np.visit == 0
    ensures AllUnvisited(nodes + {np})
  {
  }

  lemma SameSets(order: seq<Node>, nodes: set<Node>)
    requires Same(order, nodes)
    ensures nodes == set n | n in order
  {
  }

  /** The graph that has been read so far. */
  ghost predicate Ready(d: Dag, s: Said)
    reads d, Nodes(d.tree), d.order`next, Chunks(Nodes(d.tree)), Slots(Nodes(d.tree))
  {
    && d.Valid() && d.Tallied() && Spread(Nodes(d.tree)) && AllUnvisited(Nodes(d.tree))
    && Pictured(d.order, ListsOf(Nodes(d.tree)), DatasOf(Nodes(d.tree)), s)
  }

  lemma ReadyParts(d: Dag, s: Said)
    requires Ready(d, s)
    ensures d.Valid() && d.Tallied() && Spread(Nodes(d.tree)) && AllUnvisited(Nodes(d.tree))
    ensures Pictured(d.order, ListsOf(Nodes(d.tree)), DatasOf(Nodes(d.tree)), s)
  {
    hide Spread, Pictured, ListsOf, DatasOf, Nodes, Dag.Valid, Dag.Tallied;
  }

  lemma ReadyIs(d: Dag, s: Said)
    requires d.Valid() && d.Tallied() && Spread(Nodes(d.tree)) && AllUnvisited(Nodes(d.tree))
    requires Pictured(d.order, ListsOf(Nodes(d.tree)), DatasOf(Nodes(d.tree)), s)
    ensures Ready(d, s)
  {
    hide Spread, Pictured, ListsOf, DatasOf, Nodes, Dag.Valid, Dag.Tallied;
  }

  lemma ValidOrder(d: Dag)
    requires d.Valid()
    ensures Same(d.order, Nodes(d.tree)) && Different(d.order)
  {
    hide Same, Ordered, Shape, Nodes;
  }

  lemma ListsAre(nodes: set<Node>)
    ensures ListsOf(nodes).Keys == DatasOf(nodes).Keys == nodes
  {
  }

  /** What a new node adds. */
  lemma PictureNew(order: seq<Node>, nodes: set<Node>, s: Said, np: Node)
    requires Pictured(order, ListsOf(nodes), DatasOf(nodes), s) && Different(order + [np]) && np !in nodes
    requires np.links == [] && np.data == NoData
    ensures Pictured(order + [np], ListsOf(nodes + {np}), DatasOf(nodes + {np}), Name(s, np.name))
  {
    hide Pictured, Different, Name;
    ListsAre(nodes);
    LastDiffers(order, np);
    NameNew(order, ListsOf(nodes), DatasOf(nodes), s, np);
    assert ListsOf(nodes + {np}) == ListsOf(nodes)[np := []];
    assert DatasOf(nodes + {np}) == DatasOf(nodes)[np := NoData];
  }

  lemma LastDiffers(order: seq<Node>, np: Node)
    requires Different(order + [np])
    ensures forall n | n in order :: n.name != np.name
  {
    forall n | n in order
      ensures n.name != np.name
    {
      var i :| 0 <= i < |order| && order[i] == n;
      assert (order + [np])[i] == n && (order + [np])[|order|] == np;
    }
  }

  /** A name: its node, which may be new. */
  method FindNode(d: Dag, x: Text, ghost s: Said) returns (np: Node)
    requires Ready(d, s)
    modifies d, Nodes(d.tree)`left, Nodes(d.tree)`right, d.order`next
    ensures Ready(d, Name(s, x)) && np.name == x && np in d.order && old(d.order) <= d.order
    ensures old(Nodes(d.tree)) <= Nodes(d.tree)
    ensures forall n | n in Nodes(d.tree) && n !in old(Nodes(d.tree)) :: fresh(n)
    ensures Chunks(Nodes(d.tree)) == old(Chunks(Nodes(d.tree))) && Slots(Nodes(d.tree)) == old(Slots(Nodes(d.tree)))
  {
    hide Dag.Valid, Dag.Tallied, Pictured, Nodes, ListsOf, DatasOf, Same, Different, Name, AllUnvisited, Node.Chunked;
    hide Disjoint, Spread, Ready;
    ghost var order, nodes := d.order, Nodes(d.tree);
    ReadyParts(d, s);
    ValidOrder(d);
    SameSets(order, nodes);
    Types(d, nodes);
    np := d.Getnode(x);
    ValidOrder(d);
    SameSets(d.order, Nodes(d.tree));
    if np in order {
      assert Nodes(d.tree) == nodes;
      NameThere(order, ListsOf(nodes), DatasOf(nodes), s, np);
    } else {
      assert Nodes(d.tree) == nodes + {np};
      PictureNew(order, nodes, s, np);
      SpreadNew(nodes, np);
      AllUnvisitedNew(nodes, np);
    }
    ReadyIs(d, Name(s, x));
  }

  lemma ListsNow(nodes: set<Node>, lists: Lists, a: Node, l: seq<Node>)
    requires nodes == lists.Keys && a in nodes
    requires forall n | n in nodes :: n.links == if n == a then l else lists[n]
    ensures ListsOf(nodes) == lists[a := l] && (l == lists[a] ==> ListsOf(nodes) == lists)
  {
  }

  lemma ListsHave(nodes: set<Node>)
    ensures ListsOf(nodes).Keys == nodes && forall n | n in nodes :: ListsOf(nodes)[n] == n.links
  {
  }

  /** The list of one node grows, and those of the others stay apart from it. */
  method AddTo(a: Node, b: Node, ghost nodes: set<Node>)
    requires Spread(nodes) && a in nodes && b in nodes && Counted(ListsOf(nodes), CountsOf(nodes))
    modifies a`link, a`lcnt, a`links, a`chunks, a.chunks, (set c | c in a.chunks :: c.node), b`rcnt
    ensures Spread(nodes) && Counted(ListsOf(nodes), CountsOf(nodes))
    ensures a.links == if b in old(a.links) then old(a.links) else old(a.links) + [b]
    ensures forall c | c in Chunks(nodes) && c !in old(Chunks(nodes)) :: fresh(c)
    ensures forall c | c in Slots(nodes) && c !in old(Slots(nodes)) :: fresh(c)
  {
    hide ListsOf, CountsOf, Counted, Disjoint, Node.Chunked;
    SpreadAt(nodes, a);
    ghost var was := a.chunks;
    forall n | n in nodes && n != a
      ensures SetApart(was, n.chunks)
    {
      StillApart(was, n.chunks);
    }
    var added := a.Addlink(b, nodes);
    forall n | n in nodes && n != a
      ensures n.Chunked()
    {
      assert SetApart(was, n.chunks);
      assert old(n.Chunked());
    }
    forall n | n in nodes && n != a
      ensures Disjoint(a.chunks, n.chunks) && Disjoint(n.chunks, a.chunks)
    {
      assert Disjoint(was, n.chunks);
      NewApart(was, a.chunks, n.chunks);
    }
  }

  lemma NewApart(was: seq<Link>, now: seq<Link>, q: seq<Link>)
    requires Disjoint(was, q) && was <= now
    requires forall i, c | |was| <= i < |now| && c in q :: now[i] != c && now[i].node != c.node
    ensures Disjoint(now, q) && Disjoint(q, now)
  {
    forall c, e | c in now && e in q
      ensures c != e && c.node != e.node
    {
      var i :| 0 <= i < |now| && now[i] == c;
      if i < |was| {
        assert c in was;
      }
    }
  }

  ghost predicate SetApart(p: seq<Link>, q: seq<Link>) {
    && (forall i, j | 0 <= i < |p| && 0 <= j < |q| :: p[i] != q[j])
    && forall c, e | c in p && e in q :: c.node != e.node
  }

  lemma StillApart(p: seq<Link>, q: seq<Link>)
    requires Disjoint(p, q)
    ensures SetApart(p, q)
  {
    forall i, j | 0 <= i < |p| && 0 <= j < |q|
      ensures p[i] != q[j]
    {
      assert p[i] in p && q[j] in q;
    }
  }

  lemma SpreadAt(nodes: set<Node>, a: Node)
    requires Spread(nodes) && a in nodes
    ensures a.Chunked()
  {
    hide Node.Chunked;
  }

  /** A reference from one node to another. */
  method Refer(d: Dag, a: Node, b: Node, ghost s: Said)
    requires Ready(d, s) && a in d.order && b in d.order
    modifies a`link, a`lcnt, a`links, a`chunks, a.chunks, (set c | c in a.chunks :: c.node), b`rcnt
    ensures Ready(d, Ref(s, a.name, b.name)) && d.tree == old(d.tree) && d.order == old(d.order)
    ensures forall c | c in Chunks(Nodes(d.tree)) && c !in old(Chunks(Nodes(d.tree))) :: fresh(c)
    ensures forall a | a in Slots(Nodes(d.tree)) && a !in old(Slots(Nodes(d.tree))) :: fresh(a)
  {
    hide Dag.Valid, Pictured, Nodes, ListsOf, CountsOf, DatasOf, Same, Different, AllUnvisited, Node.Chunked, Ready;
    hide Disjoint, Ref, Counted, Spread;
    ghost var order, nodes := d.order, Nodes(d.tree);
    ghost var lists, datas := ListsOf(nodes), DatasOf(nodes);
    ReadyParts(d, s);
    ValidOrder(d);
    SameHas(order, nodes, a);
    SameHas(order, nodes, b);
    ListsAre(nodes);
    ListsHave(nodes);
    AddTo(a, b, nodes);
    assert d.Valid();
    assert AllUnvisited(nodes);
    assert DatasOf(nodes) == datas;
    ListsNow(nodes, lists, a, a.links);
    RefMore(order, lists, datas, s, a, b);
    ReadyIs(d, Ref(s, a.name, b.name));
  }

  /** A text for a node, in place of what it had. */
  method GiveText(d: Dag, a: Node, t: Text, ghost s: Said)
    requires Ready(d, s) && a in d.order
    modifies a`data
    ensures Ready(d, s.(texts := s.texts[a.name := t]))
    ensures Chunks(Nodes(d.tree)) == old(Chunks(Nodes(d.tree))) && Slots(Nodes(d.tree)) == old(Slots(Nodes(d.tree)))
  {
    hide Dag.Valid, Dag.Tallied, Pictured, Nodes, ListsOf, Same, Different, AllUnvisited, Ready, Spread;
    ghost var order, nodes := d.order, Nodes(d.tree);
    ghost var lists, datas := ListsOf(nodes), DatasOf(nodes);
    ReadyParts(d, s);
    ValidOrder(d);
    SameHas(order, nodes, a);
    Types(d, nodes);
    a.data := Data(t);
    assert DatasOf(nodes) == datas[a := Data(t)];
    TextMore(order, lists, datas, s, a, t);
    ReadyIs(d, s.(texts := s.texts[a.name := t]));
  }

  /** One of the others on a line. */
  method ReadRef(d: Dag, np: Node, y: Text, ghost s: Said)
    requires Ready(d, s) && np in d.order
    modifies d, Nodes(d.tree), Chunks(Nodes(d.tree)), Slots(Nodes(d.tree))
    ensures Ready(d, Ref(Name(s, y), np.name, y)) && old(d.order) <= d.order
    ensures forall n | n in Nodes(d.tree) && n !in old(Nodes(d.tree)) :: fresh(n)
    ensures forall c | c in Chunks(Nodes(d.tree)) && c !in old(Chunks(Nodes(d.tree))) :: fresh(c)
    ensures forall a | a in Slots(Nodes(d.tree)) && a !in old(Slots(Nodes(d.tree))) :: fresh(a)
  {
    hide *;
    OrderIn(d, s);
    var rp := FindNode(d, y, s);
    OrderIn(d, Name(s, y));
    Refer(d, np, rp, Name(s, y));
  }

  // The line in memory, while the graph stays as it is.

  lemma ReadyAll(d: Dag, s: Said)
    requires Ready(d, s)
    ensures d.Valid() && d.Tallied() && Spread(Nodes(d.tree)) && AllUnvisited(Nodes(d.tree))
    ensures Pictured(d.order, ListsOf(Nodes(d.tree)), DatasOf(Nodes(d.tree)), s)
    ensures Nodes(d.tree) == set n | n in d.order
  {
    hide Spread, Pictured, ListsOf, DatasOf, Nodes, Dag.Valid, Dag.Tallied;
    ValidOrder(d);
    SameSets(d.order, Nodes(d.tree));
  }

  lemma LineApart(d: Dag, nodes: set<Node>, line: array<int>)
    ensures line as object != d && forall n | n in nodes :: n as object != line
    ensures forall c | c in Chunks(nodes) :: c as object != line
    ensures forall a | a in Slots(nodes) :: a as object != line
  {
  }

  /** The line up to the character behind its name, which is cut off. */
  method TakeHead(d: Dag, line: array<int>, ghost t: Text, ghost s: Said) returns (c: int, x: Text, p2: nat)
    requires Ready(d, s) && StringAt(line[..], 0, t)
    modifies line
    ensures Ready(d, s)
    ensures Chunks(Nodes(d.tree)) == old(Chunks(Nodes(d.tree))) && Slots(Nodes(d.tree)) == old(Slots(Nodes(d.tree)))
    ensures x == NameOf(Skip(t))
    ensures var r := Skip(Behind(Skip(t)));
      if r == [] then c == NUL else c == r[0] && StringAt(line[..], p2, r[1..])
  {
    hide Dag.Valid, Dag.Tallied, Pictured, Nodes, ListsOf, DatasOf, AllUnvisited, Spread, Ready;
    hide StringAt, Skip, NameOf, Behind, Next;
    ReadyAll(d, s);
    ghost var nodes := Nodes(d.tree);
    ghost var lists, datas := ListsOf(nodes), DatasOf(nodes);
    LineApart(d, nodes, line);
    ghost var q := Skip(t);
    var p1 := SkipBlanks(line, 0, t);
    p2 := SkipName(line, p1, q);
    StringStart(line[..], p2, Behind(q));
    c, p2 := Cut(line, p2, Behind(q));
    CutName(old(line[..]), line[..], p1, q);
    x := Copy(line, p1, NameOf(q));
    assert ListsOf(nodes) == lists && DatasOf(nodes) == datas;
    ReadyIs(d, s);
  }

  /** One of the others on a line, up to the end of the line. */
  method TakeName(d: Dag, line: array<int>, p: nat, ghost u: Text, ghost s: Said) returns (p2: nat, y: Text)
    requires Ready(d, s) && StringAt(line[..], p, u)
    ensures Ready(d, s)
    ensures Chunks(Nodes(d.tree)) == old(Chunks(Nodes(d.tree))) && Slots(Nodes(d.tree)) == old(Slots(Nodes(d.tree)))
    ensures y == Skip(u) && StringAt(line[..], p2, Behind(Skip(u)))
  {
    hide Dag.Valid, Dag.Tallied, Pictured, Nodes, ListsOf, DatasOf, AllUnvisited, Spread, Ready;
    hide StringAt, Skip, NameOf, Behind, Next;
    ReadyAll(d, s);
    ghost var nodes := Nodes(d.tree);
    ghost var lists, datas := ListsOf(nodes), DatasOf(nodes);
    LineApart(d, nodes, line);
    var p1 := SkipBlanks(line, p, u);
    p2 := SkipName(line, p1, Skip(u));
    y := Copy(line, p1, Skip(u));
    assert ListsOf(nodes) == lists && DatasOf(nodes) == datas;
    ReadyIs(d, s);
  }

  /** The text behind the blanks. */
  method TakeText(d: Dag, line: array<int>, p: nat, ghost u: Text, ghost s: Said) returns (y: Text)
    requires Ready(d, s) && StringAt(line[..], p, u)
    ensures Ready(d, s) && y == Skip(u)
    ensures Chunks(Nodes(d.tree)) == old(Chunks(Nodes(d.tree))) && Slots(Nodes(d.tree)) == old(Slots(Nodes(d.tree)))
  {
    hide Dag.Valid, Dag.Tallied, Pictured, Nodes, ListsOf, DatasOf, AllUnvisited, Spread, Ready;
    hide StringAt, Skip, NameOf, Behind, Next;
    ReadyAll(d, s);
    ghost var nodes := Nodes(d.tree);
    ghost var lists, datas := ListsOf(nodes), DatasOf(nodes);
    LineApart(d, nodes, line);
    var p1 := SkipBlanks(line, p, u);
    y := Copy(line, p1, Skip(u));
    assert ListsOf(nodes) == lists && DatasOf(nodes) == datas;
    ReadyIs(d, s);
  }

  /** On to the text behind a name. */
  method Pass(d: Dag, line: array<int>, p: nat, ghost q: Text, ghost s: Said) returns (p2: nat)
    requires Ready(d, s) && StringAt(line[..], p, Behind(q))
    modifies line
    ensures Ready(d, s) && StringAt(line[..], p2, Next(q))
    ensures Chunks(Nodes(d.tree)) == old(Chunks(Nodes(d.tree))) && Slots(Nodes(d.tree)) == old(Slots(Nodes(d.tree)))
  {
    hide Dag.Valid, Dag.Tallied, Pictured, Nodes, ListsOf, DatasOf, AllUnvisited, Spread, Ready;
    hide StringAt, Skip, NameOf, Behind, Next;
    ReadyAll(d, s);
    ghost var nodes := Nodes(d.tree);
    ghost var lists, datas := ListsOf(nodes), DatasOf(nodes);
    LineApart(d, nodes, line);
    p2 := StepOver(line, p, q);
    assert ListsOf(nodes) == lists && DatasOf(nodes) == datas;
    ReadyIs(d, s);
  }

  /** The line in the buffer is the first of what is left of the input, or there is none. */
  predicate Fetched(line: seq<int>, ok: bool, rest: seq<int>, size: nat) {
    if ok then LineEnd(rest) < |rest| && StringAt(line, 0, Held(rest[..LineEnd(rest)], size))
    else LineEnd(rest) == |rest|
  }

  lemma FetchedIs(line: seq<int>, ok: bool, rest: seq<int>, size: nat)
    requires Fetched(line, ok, rest, size)
    ensures ok ==> LineEnd(rest) < |rest| && StringAt(line, 0, Held(rest[..LineEnd(rest)], size))
    ensures Lines(rest, size) ==
      if ok then [Held(rest[..LineEnd(rest)], size)] + Lines(rest[LineEnd(rest) + 1..], size) else []
  {
    hide LineEnd, Held, StringAt;
  }

  /** The next line of the input. */
  method TakeLine(d: Dag, line: array<int>, inp: seq<int>, i0: nat, size: nat, ghost s: Said) returns (ok: bool, i: nat)
    requires Ready(d, s) && line.Length == size + 1 && i0 <= |inp|
    modifies line
    ensures Ready(d, s) && Fetched(line[..], ok, inp[i0..], size)
    ensures ok ==> i == i0 + LineEnd(inp[i0..]) + 1 <= |inp|
    ensures Chunks(Nodes(d.tree)) == old(Chunks(Nodes(d.tree))) && Slots(Nodes(d.tree)) == old(Slots(Nodes(d.tree)))
  {
    hide Dag.Valid, Dag.Tallied, Pictured, Nodes, ListsOf, DatasOf, AllUnvisited, Spread, Ready;
    hide StringAt, Skip, NameOf, Behind, Next;
    ReadyAll(d, s);
    ghost var nodes := Nodes(d.tree);
    ghost var lists, datas := ListsOf(nodes), DatasOf(nodes);
    LineApart(d, nodes, line);
    ok, i := Getst(line, inp, i0, size);
    assert ListsOf(nodes) == lists && DatasOf(nodes) == datas;
    ReadyIs(d, s);
  }

  // Lines and what they say.

  /** The next of the others, entered before there is a NUL behind it. */
  method NextRef(d: Dag, np: Node, line: array<int>, p: nat, ghost u: Text, ghost s: Said) returns (p2: nat)
    requires Ready(d, s) && np in d.order && StringAt(line[..], p, u)
    modifies d, Nodes(d.tree), Chunks(Nodes(d.tree)), Slots(Nodes(d.tree)), line
    ensures Ready(d, Ref(Name(s, Skip(u)), np.name, Skip(u))) && old(d.order) <= d.order
    ensures StringAt(line[..], p2, Next(Skip(u)))
    ensures forall n | n in Nodes(d.tree) && n !in old(Nodes(d.tree)) :: fresh(n)
    ensures forall c | c in Chunks(Nodes(d.tree)) && c !in old(Chunks(Nodes(d.tree))) :: fresh(c)
    ensures forall a | a in Slots(Nodes(d.tree)) && a !in old(Slots(Nodes(d.tree))) :: fresh(a)
  {
    hide *;
    ghost var q := Skip(u);
    var y;
    p2, y := TakeName(d, line, p, u, s);
    LineApart(d, Nodes(d.tree), line);
    ReadRef(d, np, y, s);
    p2 := Pass(d, line, p2, q, Ref(Name(s, q), np.name, q));
  }

  /** The others on a line. */
  method ReadRefs(d: Dag, np: Node, line: array<int>, p: nat, ghost t: Text, ghost s: Said)
    requires Ready(d, s) && np in d.order && StringAt(line[..], p, t)
    modifies d, Nodes(d.tree), Chunks(Nodes(d.tree)), Slots(Nodes(d.tree)), line
    ensures Ready(d, Refs(s, np.name, Entered(t)))
    ensures forall n | n in Nodes(d.tree) && n !in old(Nodes(d.tree)) :: fresh(n)
    ensures forall c | c in Chunks(Nodes(d.tree)) && c !in old(Chunks(Nodes(d.tree))) :: fresh(c)
    ensures forall a | a in Slots(Nodes(d.tree)) && a !in old(Slots(Nodes(d.tree))) :: fresh(a)
  {
    hide *;
    RefsNone(s, np.name);
    NothingEntered();
    var p2: nat := p;
    ghost var done, u: Text := [], t;
    StringStart(line[..], p, t);
    while line[p2] != NUL
      invariant p2 < line.Length && StringAt(line[..], p2, u) && (line[p2] == NUL <==> u == [])
      invariant Ready(d, Refs(s, np.name, done)) && np in d.order && done + Entered(u) == Entered(t)
      invariant forall n | n in Nodes(d.tree) && n !in old(Nodes(d.tree)) :: fresh(n)
      invariant forall c | c in Chunks(Nodes(d.tree)) && c !in old(Chunks(Nodes(d.tree))) :: fresh(c)
      invariant forall a | a in Slots(Nodes(d.tree)) && a !in old(Slots(Nodes(d.tree))) :: fresh(a)
      decreases |u|
    {
      EnteredFirst(u);
      EndsAre(u);
      p2 := NextRef(d, np, line, p2, u, Refs(s, np.name, done));
      RefsNext(s, np.name, done, Skip(u));
      done, u := done + [Skip(u)], Next(Skip(u));
      StringStart(line[..], p2, u);
    }
    assert done + [] == done;
  }

  /** The text for a name. */
  method ReadText(d: Dag, line: array<int>, x: Text, p: nat, ghost u: Text, ghost s: Said)
    requires Ready(d, s) && StringAt(line[..], p, u)
    modifies d, Nodes(d.tree)
    ensures Ready(d, Name(s, x).(texts := s.texts[x := Skip(u)]))
    ensures forall n | n in Nodes(d.tree) && n !in old(Nodes(d.tree)) :: fresh(n)
    ensures forall c | c in Chunks(Nodes(d.tree)) && c !in old(Chunks(Nodes(d.tree))) :: fresh(c)
    ensures forall a | a in Slots(Nodes(d.tree)) && a !in old(Slots(Nodes(d.tree))) :: fresh(a)
  {
    hide *;
    OrderIn(d, s);
    LineApart(d, Nodes(d.tree), line);
    var np := FindNode(d, x, s);
    OrderIn(d, Name(s, x));
    var v := TakeText(d, line, p, u, Name(s, x));
    NameTexts(s, x);
    GiveText(d, np, v, Name(s, x));
  }

  /** One line. */
  method ReadLine(d: Dag, line: array<int>, ghost t: Text, ghost s: Said)
    requires Ready(d, s) && StringAt(line[..], 0, t)
    modifies d, Nodes(d.tree), Chunks(Nodes(d.tree)), Slots(Nodes(d.tree)), line
    ensures Ready(d, Hear(s, t))
    ensures forall n | n in Nodes(d.tree) && n !in old(Nodes(d.tree)) :: fresh(n)
    ensures forall c | c in Chunks(Nodes(d.tree)) && c !in old(Chunks(Nodes(d.tree))) :: fresh(c)
    ensures forall a | a in Slots(Nodes(d.tree)) && a !in old(Slots(Nodes(d.tree))) :: fresh(a)
  {
    hide *;
    HearIs(s, t);
    var c, x, p := TakeHead(d, line, t, s);
    if c == EQUALS {
      ReadText(d, line, x, p, Skip(Behind(Skip(t)))[1..], s);
    } else if c == COLON {
      OrderIn(d, s);
      LineApart(d, Nodes(d.tree), line);
      var np := FindNode(d, x, s);
      OrderIn(d, Name(s, x));
      ReadRefs(d, np, line, p, Skip(Behind(Skip(t)))[1..], Name(s, x));
    }
  }

  lemma NameTexts(s: Said, x: Text)
    ensures Name(s, x).texts == s.texts
  {
  }

  lemma StringStart(s: seq<int>, p: nat, t: Text)
    requires StringAt(s, p, t)
    ensures p < |s| && (s[p] == NUL <==> t == [])
  {
    if t != [] {
      assert s[p] == s[p..p + |t|][0] && t[0] in t;
    }
  }

  lemma CutName(s: seq<int>, s': seq<int>, p: nat, q: Text)
    requires StringAt(s, p, q) && |s'| == |s|
    requires var k := p + |NameOf(q)|; k < |s| && s'[..k] == s[..k] && s'[k] == NUL
    ensures StringAt(s', p, NameOf(q))
  {
    hide StringAt;
    StringCut(s, s', p, q, |NameOf(q)|);
  }

  lemma OrderIn(d: Dag, s: Said)
    requires Ready(d, s)
    ensures forall n | n in d.order :: n in Nodes(d.tree)
    ensures forall n, c | n in Nodes(d.tree) && c in n.chunks ::
      c in Chunks(Nodes(d.tree)) && c.node in Slots(Nodes(d.tree))
  {
    hide *;
    ReadyAll(d, s);
    ChunksIn(Nodes(d.tree));
  }

  lemma ChunksIn(nodes: set<Node>)
    ensures forall n, c | n in nodes && c in n.chunks :: c in Chunks(nodes) && c.node in Slots(nodes)
  {
  }

  lemma HearIs(s: Said, t: Text)
    ensures var q := Skip(t); var x, r := NameOf(q), Skip(Behind(q));
      Hear(s, t) ==
        if r == [] || (r[0] != EQUALS && r[0] != COLON) then s
        else if r[0] == EQUALS then Name(s, x).(texts := s.texts[x := Skip(r[1..])])
        else Refs(Name(s, x), x, Entered(r[1..]))
    ensures EQUALS != NUL && COLON != NUL && EQUALS != COLON
  {
    hide Entered, Refs;
  }

  lemma RefsNone(s: Said, x: Text)
    ensures Refs(s, x, []) == s
  {
  }

  lemma RefsNext(s: Said, x: Text, ys: seq<Text>, y: Text)
    ensures Refs(s, x, ys + [y]) == Ref(Name(Refs(s, x, ys), y), x, y)
  {
    assert (ys + [y])[..|ys|] == ys;
  }

  /** A line, and the next from where it ends. */
  method ReadNext(d: Dag, line: array<int>, inp: seq<int>, i0: nat, size: nat, ghost rest: seq<int>,
                  ghost done: seq<Text>)
    returns (ok: bool, i: nat)
    requires Ready(d, HearAll(done)) && line.Length == size + 1 && Fetched(line[..], true, rest, size)
    requires i0 <= |inp| && LineEnd(rest) < |rest| && inp[i0..] == rest[LineEnd(rest) + 1..]
    modifies d, Nodes(d.tree), Chunks(Nodes(d.tree)), Slots(Nodes(d.tree)), line
    ensures Ready(d, HearAll(done + [Held(rest[..LineEnd(rest)], size)]))
    ensures Fetched(line[..], ok, inp[i0..], size) && (ok ==> i == i0 + LineEnd(inp[i0..]) + 1 <= |inp|)
    ensures forall n | n in Nodes(d.tree) && n !in old(Nodes(d.tree)) :: fresh(n)
    ensures forall c | c in Chunks(Nodes(d.tree)) && c !in old(Chunks(Nodes(d.tree))) :: fresh(c)
    ensures forall a | a in Slots(Nodes(d.tree)) && a !in old(Slots(Nodes(d.tree))) :: fresh(a)
  {
    hide *;
    FetchedIs(line[..], true, rest, size);
    ghost var t := Held(rest[..LineEnd(rest)], size);
    ReadLine(d, line, t, HearAll(done));
    HearNext(done, t);
    LineApart(d, Nodes(d.tree), line);
    ok, i := TakeLine(d, line, inp, i0, size, HearAll(done + [t]));
  }

  /** The whole input, line by line in a buffer for size characters and a NUL. */
  method ReadAll(inp: seq<int>, size: nat) returns (d: Dag)
    ensures fresh(d) && Ready(d, HearAll(Lines(inp, size)))
    ensures forall n | n in Nodes(d.tree) :: fresh(n)
    ensures forall c | c in Chunks(Nodes(d.tree)) :: fresh(c)
    ensures forall a | a in Slots(Nodes(d.tree)) :: fresh(a)
  {
    hide *;
    d := new Dag();
    ReadyNone(d);
    var line := new int[size + 1];
    ghost var done, rest: seq<int> := [], inp;
    assert inp[0..] == inp;
    var ok, i := TakeLine(d, line, inp, 0, size, HearAll(done));
    while ok
      invariant Fetched(line[..], ok, rest, size) && done + Lines(rest, size) == Lines(inp, size)
      invariant ok ==> 0 <= i <= |inp| && LineEnd(rest) < |rest| && inp[i..] == rest[LineEnd(rest) + 1..]
      invariant fresh(d) && Ready(d, HearAll(done))
      invariant forall n | n in Nodes(d.tree) :: fresh(n)
      invariant forall c | c in Chunks(Nodes(d.tree)) :: fresh(c)
      invariant forall a | a in Slots(Nodes(d.tree)) :: fresh(a)
      decreases |rest|
    {
      FetchedIs(line[..], ok, rest, size);
      ghost var t, i0 := Held(rest[..LineEnd(rest)], size), i;
      ok, i := ReadNext(d, line, inp, i, size, rest, done);
      Onward(inp, i0, ok, i);
      done, rest := done + [t], inp[i0..];
    }
    FetchedIs(line[..], ok, rest, size);
    assert done + [] == done;
  }

  lemma Onward(inp: seq<int>, i0: nat, ok: bool, i: int)
    requires i0 <= |inp| && (ok ==> i == i0 + LineEnd(inp[i0..]) + 1 <= |inp|)
    ensures ok ==> LineEnd(inp[i0..]) < |inp[i0..]| && inp[i..] == inp[i0..][LineEnd(inp[i0..]) + 1..]
  {
    hide LineEnd;
  }

  lemma ReadyNone(d: Dag)
    requires d.Valid() && d.Tallied() && d.order == []
    ensures Ready(d, HearAll([])) && Nodes(d.tree) == {} && Chunks({}) == {} && Slots({}) == {}
  {
    hide Dag.Tallied, Ordered, Shape;
    SameSets([], Nodes(d.tree));
    assert Nodes(d.tree) == {};
  }

  lemma HearNext(ls: seq<Text>, t: Text)
    ensures HearAll(ls + [t]) == Hear(HearAll(ls), t)
  {
    assert (ls + [t])[..|ls|] == ls;
  }
}
