/** dag's search tree of names: getnode finds the node of a name, or makes it in its place. */
module DagTree {
  import opened Strings
  import opened DagGraph

  datatype Tree = Leaf | Fork(node: Node, l: Tree, r: Tree)

  function Nodes(t: Tree): set<Node> {
    match t
    case Leaf => {}
    case Fork(n, l, r) => Nodes(l) + {n} + Nodes(r)
  }

  /** Names ascend from left to right, and no node is there twice. */
  ghost predicate Ordered(t: Tree) {
    match t
    case Leaf => true
    case Fork(n, l, r) =>
      && Ordered(l) && Ordered(r)
      && (forall m | m in Nodes(l) :: Cmp(m.name, n.name) < 0)
      && (forall m | m in Nodes(r) :: Cmp(m.name, n.name) > 0)
  }

  // The left or right links of nodes.
  type Links = map<Node, Node?>

  /** The nodes are linked as the tree says. */
  ghost predicate Linked(t: Tree, p: Node?, lf: Links, rt: Links)
  {
    match t
    case Leaf => p == null
    case Fork(n, l, r) => p == n && n in lf && n in rt && Linked(l, lf[n], lf, rt) && Linked(r, rt[n], lf, rt)
  }

  ghost function Lefts(s: set<Node>): Links
    reads s`left
  {
    map n | n in s :: n.left
  }

  ghost function Rights(s: set<Node>): Links
    reads s`right
  {
    map n | n in s :: n.right
  }

  ghost predicate Shape(t: Tree, p: Node?)
    reads Nodes(t)`left, Nodes(t)`right
  {
    Linked(t, p, Lefts(Nodes(t)), Rights(Nodes(t)))
  }

  function Has(t: Tree, name: Text): bool {
    t.Fork? &&
    var c := Cmp(name, t.node.name);
    if c > 0 then Has(t.r, name) else if c < 0 then Has(t.l, name) else true
  }

  /** Where the search for a name that is not there ends: at a node, to its right or left. */
  function End(t: Tree, name: Text): (Node, bool)
    requires t.Fork? && !Has(t, name)
  {
    var right := Cmp(name, t.node.name) > 0;
    var s := if right then t.r else t.l;
    if s.Fork? then End(s, name) else (t.node, right)
  }

  function Put(t: Tree, n: Node): Tree {
    if t.Leaf? then Fork(n, Leaf, Leaf)
    else if Cmp(n.name, t.node.name) > 0 then Fork(t.node, t.l, Put(t.r, n))
    else Fork(t.node, Put(t.l, n), t.r)
  }

  /** A name is found exactly when some node has it. */
  lemma {:induction false} HasIs(t: Tree, name: Text)
    requires Ordered(t)
    ensures Has(t, name) <==> exists n :: n in Nodes(t) && n.name == name
  {
    if t.Fork? {
      HasIs(t.l, name);
      HasIs(t.r, name);
      CmpOpposite(name, t.node.name);
      forall m | m in Nodes(t) && m.name == name
        ensures Has(t, name)
      {
        assert m in Nodes(t.l) || m == t.node || m in Nodes(t.r);
      }
    }
  }

  lemma {:induction false} PutNodes(t: Tree, n: Node)
    ensures Nodes(Put(t, n)) == Nodes(t) + {n}
  {
    if t.Fork? {
      PutNodes(t.l, n);
      PutNodes(t.r, n);
    }
  }

  lemma {:induction false} PutOrdered(t: Tree, n: Node)
    requires Ordered(t) && !Has(t, n.name)
    ensures Ordered(Put(t, n))
  {
    if t.Fork? {
      var c := Cmp(n.name, t.node.name);
      if c > 0 {
        PutOrdered(t.r, n);
        PutNodes(t.r, n);
      } else {
        PutOrdered(t.l, n);
        PutNodes(t.l, n);
      }
    }
  }

  lemma {:induction false} EndIn(t: Tree, name: Text)
    requires t.Fork? && !Has(t, name)
    ensures End(t, name).0 in Nodes(t)
  {
    var s := if Cmp(name, t.node.name) > 0 then t.r else t.l;
    if s.Fork? {
      EndIn(s, name);
    }
  }

  /** The two sides of a node have no node in common with each other or with it. */
  lemma SidesApart(t: Tree)
    requires t.Fork? && Ordered(t)
    ensures Nodes(t.l) !! Nodes(t.r) && t.node !in Nodes(t.l) && t.node !in Nodes(t.r)
  {
    CmpOpposite(t.node.name, t.node.name);
  }

  /** Linking a node in where the search ended puts it in the tree. */
  lemma {:induction false} LinkedIn(t: Tree, p: Node?, n: Node, lf: Links, rt: Links, lf': Links, rt': Links)
    requires Ordered(t) && t.Fork? && !Has(t, n.name) && Linked(t, p, lf, rt)
    requires n in lf' && n in rt' && lf'[n] == null && rt'[n] == null
    requires forall m | m in Nodes(t) :: m in lf && m in rt && m in lf' && m in rt'
    requires forall m | m in Nodes(t) :: lf'[m] == if End(t, n.name) == (m, false) then n else lf[m]
    requires forall m | m in Nodes(t) :: rt'[m] == if End(t, n.name) == (m, true) then n else rt[m]
    ensures Linked(Put(t, n), p, lf', rt')
  {
    SidesApart(t);
    EndIn(t, n.name);
    var right := Cmp(n.name, t.node.name) > 0;
    var s, o := if right then t.r else t.l, if right then t.l else t.r;
    if s.Fork? {
      EndIn(s, n.name);
      LinkedIn(s, s.node, n, lf, rt, lf', rt');
    }
    StillLinked(o, if right then lf[t.node] else rt[t.node], lf, rt, lf', rt');
  }

  /** Links elsewhere do not matter. */
  lemma {:induction false} StillLinked(t: Tree, p: Node?, lf: Links, rt: Links, lf': Links, rt': Links)
    requires Linked(t, p, lf, rt)
    requires forall m | m in Nodes(t) ::
      m in lf && m in rt && m in lf' && m in rt' && lf[m] == lf'[m] && rt[m] == rt'[m]
    ensures Linked(t, p, lf', rt')
  {
    if t.Fork? {
      StillLinked(t.l, lf[t.node], lf, rt, lf', rt');
      StillLinked(t.r, rt[t.node], lf, rt, lf', rt');
    }
  }

  ghost predicate Same(order: seq<Node>, nodes: set<Node>) {
    (forall n | n in order :: n in nodes) && forall n | n in nodes :: n in order
  }

  lemma SameHas(order: seq<Node>, nodes: set<Node>, n: Node)
    requires Same(order, nodes)
    ensures n in order <==> n in nodes
  {
  }

  lemma SameAll(order: seq<Node>, nodes: set<Node>)
    requires Same(order, nodes)
    ensures forall n | n in nodes :: n in order
  {
  }

  lemma SameMore(order: seq<Node>, nodes: set<Node>, n: Node)
    requires Same(order, nodes)
    ensures Same(order + [n], nodes + {n})
  {
  }

  class Dag {
    var root: Node?
    var first: Node?
    var last: Node?
    ghost var tree: Tree
    ghost var order: seq<Node>   // as they were made

    /** The list of the nodes, in the order in which they were made; their names differ. */
    ghost predicate Listed()
      reads this`first, this`last, this`order, order`next
    {
      && first == NodeAt(order, 0) && last == (if order == [] then null else order[|order| - 1])
      && (forall i, j | 0 <= i < j < |order| :: order[i].name != order[j].name)
      && forall i | 0 <= i < |order| :: order[i].next == NodeAt(order, i + 1)
    }

    ghost predicate Treed()
      reads this`root, this`tree, Nodes(tree)`left, Nodes(tree)`right
    {
      Ordered(tree) && Shape(tree, root)
    }

    ghost predicate Valid()
      reads this`root, this`tree, Nodes(tree)`left, Nodes(tree)`right, this`first, this`last, this`order, order`next
    {
      Treed() && Listed() && Same(order, Nodes(tree))
    }

    /** Each node's count is the number of the others that refer to it. */
    ghost predicate Tallied()
      reads this`tree, Nodes(tree)`links, Nodes(tree)`rcnt
    {
      Counted(ListsOf(Nodes(tree)), CountsOf(Nodes(tree)))
    }

    constructor ()
      ensures Valid() && Tallied() && order == []
    {
      root, first, last := null, null, null;
      tree, order := Leaf, [];
    }

    /** The search has come to cur, the right or left of pp; sub is what is left of the tree. */
    ghost predicate Searching(name: Text, pp: Node?, right: bool, cur: Node?, sub: Tree)
      reads this`tree, Nodes(tree)`left, Nodes(tree)`right
    {
      && Linked(sub, cur, Lefts(Nodes(tree)), Rights(Nodes(tree))) && Nodes(sub) <= Nodes(tree) &&
        Has(sub, name) == Has(tree, name)
      && (pp == null ==> sub == tree) && (pp != null ==> tree.Fork?)
      && (pp != null && !Has(tree, name) ==> End(tree, name) == if sub.Fork? then End(sub, name) else (pp, right))
    }

    /** Finds the node, or where it should be. */
    method Find(name: Text) returns (np: Node?, pp: Node?, right: bool)
      requires Valid()
      ensures np != null ==> np in Nodes(tree) && np.name == name
      ensures np == null ==>
        !Has(tree, name) && (pp == null ==> tree.Leaf?) && (pp != null ==> tree.Fork? && End(tree, name) == (pp, right))
    {
      pp, right := null, false;
      var cur := root;
      ghost var sub := tree;
      while cur != null
        invariant Searching(name, pp, right, cur, sub)
        decreases sub
      {
        var i := Cmp(name, cur.name);
        if i > 0 {
          pp, right := cur, true;
          cur, sub := cur.right, sub.r;
        } else if i < 0 {
          pp, right := cur, false;
          cur, sub := cur.left, sub.l;
        } else {
          CmpOpposite(name, cur.name);
          return cur, pp, right;
        }
      }
      np := null;
    }

    /** Links a node in below the one at which the search has ended. */
    method HangBelow(np: Node, pp: Node, right: bool)
      requires Treed() && !Has(tree, np.name) && np !in Nodes(tree) && np.left == null && np.right == null
      requires tree.Fork? && End(tree, np.name) == (pp, right)
      modifies Nodes(tree)`left, Nodes(tree)`right
      ensures var nodes := Nodes(tree) + {np}; Linked(Put(tree, np), root, Lefts(nodes), Rights(nodes))
    {
      hide Ordered, Put, Nodes, Linked, Has, End;
      ghost var nodes := Nodes(tree);
      ghost var lf, rt := Lefts(nodes), Rights(nodes);
      EndIn(tree, np.name);
      if right {
        pp.right := np;
      } else {
        pp.left := np;
      }
      LinkedIn(tree, root, np, lf, rt, Lefts(nodes + {np}), Rights(nodes + {np}));
    }

    /** Links the new node in. */
    method Attach(np: Node, pp: Node?, right: bool)
      requires Treed() && !Has(tree, np.name) && np !in Nodes(tree) && np.left == null && np.right == null
      requires (pp == null ==> tree.Leaf?) && (pp != null ==> tree.Fork? && End(tree, np.name) == (pp, right))
      modifies this`root, this`tree, Nodes(tree)`left, Nodes(tree)`right
      ensures tree == Put(old(tree), np) && Treed() && Nodes(tree) == Nodes(old(tree)) + {np}
    {
      hide Ordered, Put, Nodes, Linked, Has, End;
      PutOrdered(tree, np);
      PutNodes(tree, np);
      if pp == null {
        AttachFirst(np);
        assert {} + {np} == {np};
      }
      if pp == null {
        root := np;
      } else {
        HangBelow(np, pp, right);
      }
      tree := Put(tree, np);
    }

    lemma AttachFirst(np: Node)
      requires tree.Leaf? && np.left == null && np.right == null
      ensures Nodes(tree) == {} && Linked(Put(tree, np), np, Lefts({np}), Rights({np}))
    {
    }

    /** Puts the new node at the end of the list. */
    method Append(np: Node)
      requires Listed() && np.next == null && np !in order && forall i | 0 <= i < |order| :: order[i].name != np.name
      modifies this`first, this`last, this`order, order`next
      ensures order == old(order) + [np] && Listed()
    {
      if first == null {
        first := np;
      }
      if last != null {
        last.next := np;
      }
      last := np;
      order := order + [np];
    }

    /** getnode: the one node of that name. */
    method Getnode(name: Text) returns (np: Node)
      requires Valid() && Tallied()
      modifies this, Nodes(tree)`left, Nodes(tree)`right, order`next
      ensures Valid() && Tallied()
      ensures np.name == name && np in order
      ensures if np in old(order) then order == old(order)
              else fresh(np) && order == old(order) + [np]
      ensures np !in old(order) ==> np.links == [] && np.chunks == [] && np.Chunked()
      ensures np !in old(order) ==> np.visit == np.rcnt == 0 && np.data == NoData
    {
      hide *;
      ValidParts();
      SameAll(order, Nodes(tree));
      var found, pp, right := Find(name);
      if found != null {
        SameHas(order, Nodes(tree), found);
        return found;
      }
      TalliedIs();
      np := Make(name, pp, right);
      NewCounted(np, Nodes(old(tree)));
      TalliedIs();
    }

    /** A new node in the tree and at the end of the list. */
    method Make(name: Text, pp: Node?, right: bool) returns (np: Node)
      requires Valid() && !Has(tree, name)
      requires (pp == null ==> tree.Leaf?) && (pp != null ==> tree.Fork? && End(tree, name) == (pp, right))
      modifies this, Nodes(tree)`left, Nodes(tree)`right, order`next
      ensures Valid() && np.name == name && fresh(np) && order == old(order) + [np]
      ensures Nodes(tree) == Nodes(old(tree)) + {np}
      ensures np.links == [] && np.chunks == [] && np.Chunked() && np.visit == np.rcnt == 0 && np.data == NoData
    {
      hide *;
      ghost var was := order;
      ValidParts();
      SameAll(order, Nodes(tree));
      Unnamed(name);
      np := new Node(name);
      Attach(np, pp, right);
      Append(np);
      SameMore(was, Nodes(old(tree)), np);
      ValidParts();
    }

    lemma TalliedIs()
      ensures Tallied() <==> Counted(ListsOf(Nodes(tree)), CountsOf(Nodes(tree)))
    {
    }

    lemma NewCounted(np: Node, nodes: set<Node>)
      requires Counted(ListsOf(nodes), CountsOf(nodes)) && np !in nodes && np.links == [] && np.rcnt == 0
      ensures Counted(ListsOf(nodes + {np}), CountsOf(nodes + {np}))
    {
      hide Counted;
      CountedNew(ListsOf(nodes), CountsOf(nodes), np);
      assert ListsOf(nodes + {np}) == ListsOf(nodes)[np := []];
      assert CountsOf(nodes + {np}) == CountsOf(nodes)[np := 0];
    }

    lemma ValidParts()
      ensures Valid() <==> Treed() && Listed() && Same(order, Nodes(tree))
    {
    }

    lemma Unnamed(name: Text)
      requires Valid() && !Has(tree, name)
      ensures forall i | 0 <= i < |order| :: order[i].name != name
    {
      HasIs(tree, name);
      forall i | 0 <= i < |order|
        ensures order[i] in Nodes(tree)
      {
        assert order[i] in order;
      }
    }
  }
}
