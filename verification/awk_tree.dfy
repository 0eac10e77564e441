/** The linked parse tree that awk's compiler walks. Children are fixed when a node is made;
    position numbers and parent pointers are entered later, in place. */
module AwkTree {
  import opened AwkRegex

  datatype Kind = LEAF | STAR | PLUS | QUEST | CAT | OR | FINAL

  class Node {
    const kind: Kind
    const sym: Sym
    const left: Node?
    const right: Node?
    var index: int
    var parent: Node?
    ghost var re: Re     // the numbered expression that the node stands for
    ghost var ctx: Ctx   // the way from the node to the root

    constructor (kind: Kind, sym: Sym, left: Node?, right: Node?)
      ensures this.kind == kind && this.sym == sym && this.left == left && this.right == right
    {
      this.kind, this.sym, this.left, this.right := kind, sym, left, right;
    }
  }

  /** The nodes from n downwards form the tree r: no node occurs twice. */
  ghost predicate Tree(n: Node, r: Re)
    decreases r, 1
  {
    match r
    case Leaf(_, s) => n.kind == LEAF && n.sym == s && n.left == null && n.right == null
    case Star(e) => n.kind == STAR && Only(n) && Tree(n.left, e) && n !in Nodes(n.left, e)
    case Plus(e) => n.kind == PLUS && Only(n) && Tree(n.left, e) && n !in Nodes(n.left, e)
    case Quest(e) => n.kind == QUEST && Only(n) && Tree(n.left, e) && n !in Nodes(n.left, e)
    case Cat(a, b) =>
      && n.kind == CAT && n.left != null && n.right != null
      && Tree(n.left, a) && Tree(n.right, b)
      && n !in Nodes(n.left, a) && n !in Nodes(n.right, b) && Nodes(n.left, a) !! Nodes(n.right, b)
    case Or(a, b) =>
      && n.kind == OR && n.left != null && n.right != null
      && Tree(n.left, a) && Tree(n.right, b)
      && n !in Nodes(n.left, a) && n !in Nodes(n.right, b) && Nodes(n.left, a) !! Nodes(n.right, b)
  }

  ghost predicate Only(n: Node) {
    n.left != null && n.right == null
  }

  ghost function Nodes(n: Node, r: Re): (s: set<Node>)
    ensures n in s
    decreases r, 0
  {
    match r
    case Leaf(_, _) => {n}
    case Star(e) => {n} + if n.left != null then Nodes(n.left, e) else {}
    case Plus(e) => {n} + if n.left != null then Nodes(n.left, e) else {}
    case Quest(e) => {n} + if n.left != null then Nodes(n.left, e) else {}
    case Cat(a, b) =>
      {n} + (if n.left != null then Nodes(n.left, a) else {}) + (if n.right != null then Nodes(n.right, b) else {})
    case Or(a, b) =>
      {n} + (if n.left != null then Nodes(n.left, a) else {}) + (if n.right != null then Nodes(n.right, b) else {})
  }

  /** A node agrees with its children, and they point back to it. */
  ghost predicate Local(n: Node)
    reads n, n.left, n.right
  {
    match n.kind
    case LEAF => n.left == null && n.right == null && n.re == Leaf(n.index, n.sym)
    case STAR => Only(n) && Below(n, n.left) && n.re == Star(n.left.re) && n.left.ctx == UnderStar(n.left.re, n.ctx)
    case PLUS => Only(n) && Below(n, n.left) && n.re == Plus(n.left.re) && n.left.ctx == UnderPlus(n.left.re, n.ctx)
    case QUEST => Only(n) && Below(n, n.left) && n.re == Quest(n.left.re) && n.left.ctx == UnderQuest(n.ctx)
    case CAT =>
      && Below(n, n.left) && Below(n, n.right) && n.left != n.right
      && n.re == Cat(n.left.re, n.right.re)
      && n.left.ctx == CatLeft(n.right.re, n.ctx) && n.right.ctx == CatRight(n.left.re, n.ctx)
    case OR =>
      && Below(n, n.left) && Below(n, n.right) && n.left != n.right
      && n.re == Or(n.left.re, n.right.re)
      && n.left.ctx == OrLeft(n.right.re, n.ctx) && n.right.ctx == OrRight(n.left.re, n.ctx)
    case FINAL => false
  }

  ghost predicate Below(n: Node, c: Node?)
    reads c
  {
    c != null && c.parent == n
  }

  ghost predicate ChildOf(n: Node, c: Node) {
    n.left == c || n.right == c
  }

  ghost predicate Kids(n: Node, nodes: set<Node>) {
    && (n.left != null ==> n.left in nodes)
    && (n.right != null ==> n.right in nodes)
  }

  lemma {:induction false} TreeKids(p: Node, r: Re)
    requires Tree(p, r)
    ensures forall n | n in Nodes(p, r) :: Kids(n, Nodes(p, r)) && !ChildOf(n, p)
  {
    match r
    case Leaf(_, _) =>
    case Star(e) => TreeKids(p.left, e);
    case Plus(e) => TreeKids(p.left, e);
    case Quest(e) => TreeKids(p.left, e);
    case Cat(a, b) => TreeKids(p.left, a); TreeKids(p.right, b);
    case Or(a, b) => TreeKids(p.left, a); TreeKids(p.right, b);
  }

  /** The part of a unary node's tree below it. */
  lemma TreePart(p: Node, r: Re) returns (s: set<Node>)
    requires Tree(p, r) && (r.Star? || r.Plus? || r.Quest?)
    ensures p.kind == (if r.Star? then STAR else if r.Plus? then PLUS else QUEST)
    ensures p.left != null && Only(p) && Leaves(r) == Leaves(r.r)
    ensures Tree(p.left, r.r) && s == Nodes(p.left, r.r) && p.left in s
    ensures p !in s && Nodes(p, r) == {p} + s
    ensures forall n | n in s :: !ChildOf(n, p.left)
  {
    s := Nodes(p.left, r.r);
    TreeKids(p.left, r.r);
  }

  lemma LeavesParts(r: Re)
    requires r.Cat? || r.Or?
    ensures Leaves(r) == Leaves(r.left) + Leaves(r.right)
  {
  }

  /** The two halves of a binary node's tree. */
  lemma TreeParts(p: Node, r: Re) returns (s: set<Node>, t: set<Node>)
    requires Tree(p, r) && (r.Cat? || r.Or?)
    ensures p.kind == (if r.Cat? then CAT else OR)
    ensures p.left != null && Tree(p.left, r.left) && s == Nodes(p.left, r.left) && p.left in s
    ensures p.right != null && Tree(p.right, r.right) && t == Nodes(p.right, r.right) && p.right in t
    ensures p !in s && p !in t && s !! t && Nodes(p, r) == {p} + s + t
    ensures forall n | n in s :: !ChildOf(n, p.left)
    ensures forall n | n in t :: !ChildOf(n, p.right)
  {
    s, t := Nodes(p.left, r.left), Nodes(p.right, r.right);
    TreeKids(p.left, r.left);
    TreeKids(p.right, r.right);
  }

  /** A node stands in the tree: its expression in its context makes up the whole, and its
      parent, unless it is the top, belongs to the tree. */
  ghost predicate Placed(n: Node, top: Node, root: Re, nodes: set<Node>)
    reads n
  {
    && Fits(n.re, n.ctx) && Plug(n.re, n.ctx) == root
    && (n != top ==> n.parent != null && n.parent in nodes && ChildOf(n.parent, n))
  }

  /** Positions and parents have been entered in all of nodes, whose top is p. */
  ghost predicate Entered(p: Node, root: Re, nodes: set<Node>)
    reads nodes
  {
    && (forall n | n in nodes :: Kids(n, nodes))
    && (forall n | n in nodes :: Local(n) && Placed(n, p, root, nodes))
  }

  /** The same, for a top that stands for re in ctx. */
  ghost predicate EnteredAs(p: Node, re: Re, ctx: Ctx, root: Re, nodes: set<Node>)
    reads nodes
  {
    p in nodes && p.re == re && p.ctx == ctx && Entered(p, root, nodes)
  }

  /** The whole tree below top, with positions and parents entered. */
  ghost predicate Wired(top: Node, root: Re, nodes: set<Node>)
    reads nodes
  {
    top in nodes && top.re == root && top.ctx == Top && Entered(top, root, nodes)
  }

  /** Two entered trees below one node. */
  lemma EnteredPair(p: Node, re: Re, ctx: Ctx, root: Re, s: set<Node>, t: set<Node>)
    requires p.left != null && p.right != null && p !in s && p !in t && s !! t
    requires p.re == re && p.ctx == ctx && (re.Cat? || re.Or?) && p.kind == (if re.Cat? then CAT else OR)
    requires EnteredAs(p.left, re.left, if re.Cat? then CatLeft(re.right, ctx) else OrLeft(re.right, ctx), root, s)
    requires EnteredAs(p.right, re.right, if re.Cat? then CatRight(re.left, ctx) else OrRight(re.left, ctx), root, t)
    requires p.left.parent == p && p.right.parent == p
    requires Fits(re, ctx) && Plug(re, ctx) == root
    ensures EnteredAs(p, re, ctx, root, {p} + s + t)
  {
    hide Fits, Plug;
    forall n | n in {p} + s + t
      ensures Local(n) && Placed(n, p, root, {p} + s + t)
    {
    }
  }

  lemma EnteredOne(p: Node, re: Re, ctx: Ctx, inner: Ctx, root: Re, s: set<Node>)
    requires Only(p) && p !in s && p.re == re && p.ctx == ctx
    requires
      || (p.kind == STAR && re.Star? && inner == UnderStar(re.r, ctx))
      || (p.kind == PLUS && re.Plus? && inner == UnderPlus(re.r, ctx))
      || (p.kind == QUEST && re.Quest? && inner == UnderQuest(ctx))
    requires EnteredAs(p.left, re.r, inner, root, s) && p.left.parent == p
    requires Fits(re, ctx) && Plug(re, ctx) == root
    ensures EnteredAs(p, re, ctx, root, {p} + s)
  {
    hide Fits, Plug;
    forall n | n in {p} + s
      ensures Local(n) && Placed(n, p, root, {p} + s)
    {
    }
  }
}
