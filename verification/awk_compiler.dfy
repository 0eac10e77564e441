/** awk's compiler from parse trees to tables, working on the globals it fills in place. */
module AwkCompiler {
  import opened AwkRegex
  import opened AwkTree

  /** A remembered set of positions: its size, then its members in ascending order. */
  predicate IsVec(v: seq<int>) {
    && |v| >= 1 && v[0] == |v| - 1
    && (forall i | 1 <= i < |v| :: 1 <= v[i])
    && (forall i, j | 1 <= i < j < |v| :: v[i] < v[j])
  }

  ghost function Elems(s: seq<int>): set<int> {
    set x | x in s
  }

  lemma ElemsSnoc(s: seq<int>, x: int)
    ensures Elems(s + [x]) == Elems(s) + {x}
  {
  }

  ghost function Members(v: seq<int>): set<int>
    requires IsVec(v)
  {
    Elems(v[1..])
  }

  lemma {:induction false} AscendingSize(s: seq<int>)
    requires forall i, j | 0 <= i < j < |s| :: s[i] < s[j]
    ensures |Elems(s)| == |s|
  {
    if s != [] {
      var n := |s| - 1;
      AscendingSize(s[..n]);
      assert s == s[..n] + [s[n]];
      ElemsSnoc(s[..n], s[n]);
    } else {
      assert Elems(s) == {};
    }
  }

  /** The first i members of a remembered set. */
  ghost function Upto(v: seq<int>, i: int): set<int>
    requires 0 <= i < |v|
  {
    Elems(v[1..i + 1])
  }

  /** What a loop over a remembered set knows of it. */
  lemma VecShape(v: seq<int>)
    requires IsVec(v)
    ensures |v| >= 1 && v[0] == |v| - 1
    ensures Upto(v, 0) == {} && Upto(v, v[0]) == Members(v)
    ensures forall i | 1 <= i < |v| :: v[i] in Members(v) && v[i] >= 1
  {
    assert v[1..v[0] + 1] == v[1..];
    forall i | 1 <= i < |v| ensures v[i] in Members(v) {
      assert v[i] == v[1..][i - 1];
    }
  }

  lemma UptoStep(v: seq<int>, i: int)
    requires 0 <= i < |v| - 1
    ensures Upto(v, i + 1) == Upto(v, i) + {v[i + 1]}
  {
    assert v[1..i + 2] == v[1..i + 1] + [v[i + 1]];
    ElemsSnoc(v[1..i + 1], v[i + 1]);
  }

  lemma MembersSize(v: seq<int>)
    requires IsVec(v)
    ensures |Members(v)| == v[0]
  {
    AscendingSize(v[1..]);
  }

  lemma SubsetOfSameSize(a: set<int>, b: set<int>)
    requires a <= b && |a| == |b|
    ensures a == b
  {
    assert b == a + (b - a);
    assert |b| == |a| + |b - a|;
  }

  /** The numbers below n. */
  ghost function Range(n: nat): (s: set<int>)
    ensures |s| == n && forall k :: k in s <==> 0 <= k < n
  {
    if n == 0 then {} else Range(n - 1) + {n - 1}
  }

  lemma SmallerSet(a: set<int>, b: set<int>)
    requires a <= b
    ensures |a| <= |b|
  {
    assert b == a + (b - a);
  }

  lemma LessStep(a: set<int>, u: set<int>, out: set<int>, x: int)
    ensures (a + (u - out)) + ({x} - out) == a + ((u + {x}) - out)
  {
  }

  /** The position set being collected: the globals setvec and setcnt. */
  class Marks {
    const setvec: array<int>
    var setcnt: int

    constructor (maxlin: nat)
      ensures fresh(setvec) && setvec.Length == maxlin
    {
      setvec := new int[maxlin];
      setcnt := 0;
    }

    /** The positions collected. Position 0, the dot of the leading dot-star, is never one. */
    ghost function Vec(line: int): set<int>
      requires 0 <= line < setvec.Length
      reads setvec
    {
      set i | 1 <= i <= line && setvec[i] == 1
    }

    /** Position 0 is marked beforehand, so that it is not counted. */
    ghost predicate Counted(line: int)
      requires 0 <= line < setvec.Length
      reads this, setvec
    {
      setvec[0] == 1 && setcnt == |Vec(line)|
    }

    /** Clears the whole set. */
    method ClearAll(line: int)
      requires 0 <= line < setvec.Length
      modifies this, setvec
      ensures setcnt == |Vec(line)| && Vec(line) == {}
    {
      setcnt := 0;
      for k := 0 to line + 1
        invariant setcnt == 0
        invariant forall l | 0 <= l < k :: setvec[l] == 0
      {
        setvec[k] := 0;
      }
      assert Vec(line) == {};
    }

    /** Marks position i, which need not be one of those left out, unless it is marked. */
    method MarkUnless(i: int, out: set<int>, ghost line: int)
      requires 1 <= i <= line < setvec.Length && setcnt == |Vec(line)|
      modifies this, setvec
      ensures setcnt == |Vec(line)| && Vec(line) == old(Vec(line)) + ({i} - out)
      ensures setvec[0] == old(setvec[0])
    {
      hide Vec;
      ghost var before := Vec(line);
      VecHas(i, line);
      if setvec[i] != 1 && i !in out {
        SetMark(i, line);
        setcnt := setcnt + 1;
        assert {i} - out == {i};
      } else {
        assert before + ({i} - out) == before;
      }
    }

    lemma VecHas(i: int, line: int)
      requires 1 <= i <= line < setvec.Length
      ensures i in Vec(line) <==> setvec[i] == 1
    {
    }

    method SetMark(i: int, ghost line: int)
      requires 1 <= i <= line < setvec.Length && setvec[i] != 1
      modifies setvec
      ensures Vec(line) == old(Vec(line)) + {i} && |Vec(line)| == |old(Vec(line))| + 1
      ensures setvec[0] == old(setvec[0])
    {
      ghost var before := Vec(line);
      assert i !in before;
      setvec[i] := 1;
      assert Vec(line) == before + {i};
    }

    /** Marks the members of a remembered set, except those left out. */
    method Collect(ptr: seq<int>, out: set<int>, ghost line: int)
      requires IsVec(ptr) && 0 <= line < setvec.Length && setcnt == |Vec(line)|
      requires forall x | x in Members(ptr) :: x <= line
      modifies this, setvec
      ensures setcnt == |Vec(line)|
      ensures Vec(line) == old(Vec(line)) + (Members(ptr) - out)
    {
      hide *;
      VecShape(ptr);
      for k := 0 to ptr[0]
        invariant setcnt == |Vec(line)|
        invariant Vec(line) == old(Vec(line)) + (Upto(ptr, k) - out)
      {
        UptoStep(ptr, k);
        LessStep(old(Vec(line)), Upto(ptr, k), out, ptr[k + 1]);
        MarkUnless(ptr[k + 1], out, line);
      }
    }

    /** Clears the set, leaving position 0 marked. */
    method Clear(line: int)
      requires 0 <= line < setvec.Length && setvec[0] == 1
      modifies this, setvec
      ensures Counted(line) && Vec(line) == {}
    {
      setcnt := 0;
      for i := 1 to line + 1
        invariant setvec[0] == 1 && setcnt == 0
        invariant forall k | 1 <= k < i :: setvec[k] == 0
      {
        setvec[i] := 0;
      }
      assert Vec(line) == {};
    }

    /** Marks position i unless it is marked. */
    method Mark(i: int, ghost line: int)
      requires 0 <= i <= line < setvec.Length && Counted(line)
      modifies this, setvec
      ensures Counted(line) && Vec(line) == old(Vec(line)) + ({i} - {0})
    {
      if i == 0 {
        assert setvec[0] == 1;
      } else {
        MarkUnless(i, {}, line);
      }
    }

    /** Is the set missing from vecs[0..n]? If not, prev is a place it is at. */
    method Notin(vecs: array<seq<int>>, n: int, line: int) returns (b: int, prev: int)
      requires 0 <= line < setvec.Length && setcnt == |Vec(line)|
      requires -1 <= n < vecs.Length
      requires forall i | 0 <= i <= n :: IsVec(vecs[i]) && forall x | x in Members(vecs[i]) :: x <= line
      ensures b in {0, 1}
      ensures b == 1 ==> forall i | 0 <= i <= n :: Members(vecs[i]) != Vec(line)
      ensures b == 0 ==> 0 <= prev <= n && Members(vecs[prev]) == Vec(line)
    {
      prev := -1;
      for i := 0 to n + 1
        invariant forall k | 0 <= k < i :: Members(vecs[k]) != Vec(line)
      {
        var ptr := vecs[i];
        MembersSize(ptr);
        if ptr[0] == setcnt {
          assert forall k | 1 <= k < |ptr| :: ptr[k] in Members(ptr) by {
            assert forall k | 1 <= k < |ptr| :: ptr[k] == ptr[1..][k - 1];
          }
          var j := 0;
          while j < setcnt && setvec[ptr[j + 1]] == 1
            invariant 0 <= j <= setcnt
            invariant forall k | 1 <= k <= j :: ptr[k] in Vec(line)
          {
            j := j + 1;
          }
          if j == setcnt {
            assert Members(ptr) <= Vec(line);
            SubsetOfSameSize(Members(ptr), Vec(line));
            return 0, i;
          }
          assert ptr[j + 1] in Members(ptr) && ptr[j + 1] !in Vec(line);
        }
      }
      return 1, prev;
    }

    /** Remembers the set. */
    method Add(n: int, line: int) returns (v: seq<int>)
      requires 0 <= line < setvec.Length && n == |Vec(line)|
      ensures IsVec(v) && Members(v) == Vec(line)
    {
      v := [];
      for i := 1 to line + 1
        invariant forall k | 0 <= k < |v| :: v[k] in Vec(line) && v[k] < i
        invariant forall k, l | 0 <= k < l < |v| :: v[k] < v[l]
        invariant forall x | x in Vec(line) && x < i :: x in v
      {
        if setvec[i] == 1 {
          v := v + [i];
        }
      }
      AscendingSize(v);
      assert Elems(v) == Vec(line);
      assert ([n] + v)[1..] == v;
      v := [n] + v;
    }
  }

  class Compiler {
    const maxlin: nat          // bound on the number of leaves
    const point: array<Node?>
    const marks: Marks
    const foll: array<seq<int>>
    const state: array<seq<int>>
    var line: int
    const root1: Node          // the node below the end marker
    ghost var top: Node
    ghost var root: Re
    ghost var nodes: set<Node>

    constructor (maxlin: nat, nstates: nat, top: Node)
      ensures this.maxlin == maxlin && line == 0 && this.top == root1 == top
      ensures Sized() && state.Length == nstates && point.Length == maxlin
      ensures fresh(point) && fresh(marks) && fresh(marks.setvec) && fresh(foll) && fresh(state)
    {
      this.maxlin := maxlin;
      point := new Node?[maxlin];
      marks := new Marks(maxlin);
      foll := new seq<int>[maxlin];
      state := new seq<int>[nstates];
      line := 0;
      root1, this.top := top, top;
    }

    predicate Sized() {
      point.Length == maxlin && marks.setvec.Length == maxlin && foll.Length == maxlin && foll != state
    }

    /** Enters parent pointers and numbers the leaves. */
    method Penter(p: Node, ghost r: Re, ghost ctx: Ctx, ghost root: Re, ghost nodes: set<Node>)
      requires Sized() && 0 <= line && line + Leaves(r) <= maxlin
      requires Tree(p, r) && nodes == Nodes(p, r)
      requires Fits(Number(r, line), ctx) && Plug(Number(r, line), ctx) == root
      requires forall i | 0 <= i < line :: IsPoint(i, root)
      modifies nodes, this`line, point
      ensures line == old(line) + Leaves(r)
      ensures EnteredAs(p, Number(r, old(line)), ctx, root, nodes) && p.parent == old(p.parent)
      ensures forall i | 0 <= i < line :: IsPoint(i, root)
      decreases r, 2
    {
      match p.kind
      case LEAF =>
        p.re, p.ctx := Number(r, line), ctx;
        SeenFromRoot(p.re, ctx, line);
        p.index := line;
        SetPoint(p, root);
      case STAR => PenterOne(p, r, ctx, root, nodes);
      case PLUS => PenterOne(p, r, ctx, root, nodes);
      case QUEST => PenterOne(p, r, ctx, root, nodes);
      case CAT => PenterPair(p, r, ctx, root, nodes);
      case OR => PenterPair(p, r, ctx, root, nodes);
    }

    method SetPoint(p: Node, ghost root: Re)
      requires Sized() && 0 <= line < maxlin && p.kind == LEAF
      requires Ordered(root) && Has(root, line) && p.sym == SymAt(root, line)
      requires forall i | 0 <= i < line :: IsPoint(i, root)
      modifies this`line, point
      ensures line == old(line) + 1
      ensures forall i | 0 <= i < line :: IsPoint(i, root)
    {
      point[line] := p;
      line := line + 1;
      forall i | 0 <= i < line - 1 ensures IsPoint(i, root) {
        assert old(IsPoint(i, root));
      }
    }

    /** Sets the parent of c; nothing in the tree below c is disturbed. */
    method Adopt(p: Node, c: Node, ghost re: Re, ghost ctx: Ctx, ghost root: Re, ghost nodes: set<Node>)
      requires EnteredAs(c, re, ctx, root, nodes)
      requires forall n | n in nodes :: !ChildOf(n, c)
      modifies c`parent
      ensures c.parent == p
      ensures EnteredAs(c, re, ctx, root, nodes)
    {
      hide Fits, Plug;
      c.parent := p;
      forall n | n in nodes
        ensures Local(n) && Placed(n, c, root, nodes)
      {
        assert old(Local(n)) && old(Placed(n, c, root, nodes));
      }
    }

    method PenterOne(p: Node, ghost r: Re, ghost ctx: Ctx, ghost root: Re, ghost nodes: set<Node>)
      requires r.Star? || r.Plus? || r.Quest?
      requires Sized() && 0 <= line && line + Leaves(r) <= maxlin
      requires Tree(p, r) && nodes == Nodes(p, r)
      requires Fits(Number(r, line), ctx) && Plug(Number(r, line), ctx) == root
      requires forall i | 0 <= i < line :: IsPoint(i, root)
      modifies nodes, this`line, point
      ensures line == old(line) + Leaves(r)
      ensures EnteredAs(p, Number(r, old(line)), ctx, root, nodes) && p.parent == old(p.parent)
      ensures forall i | 0 <= i < line :: IsPoint(i, root)
      decreases r, 1
    {
      hide *;
      ghost var s := TreePart(p, r);
      ghost var inner := PartFits(r, line, ctx);
      ghost var re := Number(r, line);
      p.re, p.ctx := re, ctx;
      Penter(p.left, r.r, inner, root, s);
      Adopt(p, p.left, re.r, inner, root, s);
      EnteredOne(p, re, ctx, inner, root, s);
    }

    method PenterBoth(p: Node, ghost r: Re, ghost re: Re, ghost ca: Ctx, ghost cb: Ctx, ghost root: Re,
                      ghost s: set<Node>, ghost t: set<Node>)
      requires (r.Cat? || r.Or?) && (re.Cat? || re.Or?)
      requires Sized() && 0 <= line && line + Leaves(r) <= maxlin && Leaves(r) == Leaves(r.left) + Leaves(r.right)
      requires p.left != null && Tree(p.left, r.left) && s == Nodes(p.left, r.left)
      requires p.right != null && Tree(p.right, r.right) && t == Nodes(p.right, r.right)
      requires s !! t && p.left in s && p.right in t
      requires re.left == Number(r.left, line) && Fits(re.left, ca) && Plug(re.left, ca) == root
      requires re.right == Number(r.right, line + Leaves(r.left)) && Fits(re.right, cb) && Plug(re.right, cb) == root
      requires forall i | 0 <= i < line :: IsPoint(i, root)
      modifies s, t, this`line, point
      ensures line == old(line) + Leaves(r)
      ensures EnteredAs(p.left, re.left, ca, root, s)
      ensures EnteredAs(p.right, re.right, cb, root, t)
      ensures forall i | 0 <= i < line :: IsPoint(i, root)
      decreases r, 0
    {
      hide *;
      Penter(p.left, r.left, ca, root, s);
      Penter(p.right, r.right, cb, root, t);
    }

    method PenterPair(p: Node, ghost r: Re, ghost ctx: Ctx, ghost root: Re, ghost nodes: set<Node>)
      requires r.Cat? || r.Or?
      requires Sized() && 0 <= line && line + Leaves(r) <= maxlin
      requires Tree(p, r) && nodes == Nodes(p, r)
      requires Fits(Number(r, line), ctx) && Plug(Number(r, line), ctx) == root
      requires forall i | 0 <= i < line :: IsPoint(i, root)
      modifies nodes, this`line, point
      ensures line == old(line) + Leaves(r)
      ensures EnteredAs(p, Number(r, old(line)), ctx, root, nodes) && p.parent == old(p.parent)
      ensures forall i | 0 <= i < line :: IsPoint(i, root)
      decreases r, 1
    {
      hide *;
      LeavesParts(r);
      ghost var s, t := TreeParts(p, r);
      ghost var ca, cb := PartsFit(r, line, ctx);
      ghost var re := Number(r, line);
      p.re, p.ctx := re, ctx;
      PenterBoth(p, r, re, ca, cb, root, s, t);
      Adopt(p, p.left, re.left, ca, root, s);
      Adopt(p, p.right, re.right, cb, root, t);
      EnteredPair(p, re, ctx, root, s, t);
    }

    /** point[i] is the leaf at position i of r. */
    ghost predicate IsPoint(i: int, r: Re)
      requires Sized()
      reads point
    {
      && 0 <= i < maxlin && point[i] != null && point[i].kind == LEAF
      && Ordered(r) && Has(r, i) && point[i].sym == SymAt(r, i)
    }

    /** The tree is entered, and its end marker has the number line. */
    ghost predicate Ready()
      reads this, nodes
    {
      && Sized() && line < maxlin
      && Ordered(root) && Lo(root) == 0 && Leaves(root) == line
      && Wired(top, root, nodes)
      && top.parent != null && top.parent.kind == FINAL
    }

    /** Enters the end marker, which is above the tree. */
    method Close(final: Node, ghost root: Re, ghost nodes: set<Node>)
      requires Sized() && 0 <= line < maxlin && top in nodes
      requires final.kind == FINAL && top.parent == final
      requires forall i | 0 <= i < line :: IsPoint(i, root)
      requires Ordered(root) && Lo(root) == 0 && Leaves(root) == line
      requires EnteredAs(top, root, Top, root, nodes)
      modifies this`root, this`nodes, point
      ensures Ready() && this.root == root && this.nodes == nodes
      ensures forall i | 0 <= i < line :: IsPoint(i, root)
      ensures point[line] == final
    {
      hide Fits, Plug, Entered, Numbered, Lo, Leaves;
      point[line] := final;
      this.root, this.nodes := root, nodes;
      forall i | 0 <= i < line ensures IsPoint(i, root) {
        assert old(IsPoint(i, root));
      }
    }

    lemma NodeFacts(n: Node)
      requires Ready() && n in nodes
      ensures Local(n) && Kids(n, nodes)
      ensures Ordered(n.re) && 0 <= Lo(n.re) && Lo(n.re) + Leaves(n.re) <= line
      ensures n.kind == LEAF ==>
        0 <= n.index < line && CtxAt(root, Top, n.index) == n.ctx && SymAt(root, n.index) == n.sym
      ensures 0 <= line < marks.setvec.Length && line < foll.Length
    {
      assert Placed(n, top, root, nodes);
      FollowCtxBounds(n.re, n.ctx, line);
      assert Has(n.re, Lo(n.re)) && Has(n.re, Lo(n.re) + Leaves(n.re) - 1);
      if n.kind == LEAF {
        SeenFromRoot(n.re, n.ctx, n.index);
      }
    }

    /** How a node's context reads off its parent. */
    lemma ParentFacts(n: Node)
      requires Ready() && n in nodes
      ensures 0 <= line < marks.setvec.Length && n.parent != null && n.parent.kind != LEAF
      ensures n.parent.kind == FINAL ==> n.ctx == Top
      ensures n.parent.kind != FINAL ==> n.parent in nodes
      ensures n.parent.kind == STAR ==> n.ctx == UnderStar(n.re, n.parent.ctx)
      ensures n.parent.kind == PLUS ==> n.ctx == UnderPlus(n.re, n.parent.ctx)
      ensures n.parent.kind == QUEST ==> n.ctx == UnderQuest(n.parent.ctx)
      ensures n.parent.kind == OR ==> n.ctx.OrLeft? || n.ctx.OrRight?
      ensures n.parent.kind == OR ==> n.ctx.up == n.parent.ctx
      ensures n.parent.kind == CAT && n == n.parent.left ==>
        n.parent.right != null && n.parent.right in nodes && n.ctx == CatLeft(n.parent.right.re, n.parent.ctx)
      ensures n.parent.kind == CAT && n != n.parent.left ==> n.ctx.CatRight? && n.ctx.up == n.parent.ctx
    {
      hide Fits, Plug;
      assert Placed(n, top, root, nodes);
      if n != top {
        assert Local(n.parent) && Kids(n.parent, nodes);
      }
    }

    /** Collects the positions at which a word of p can start; 0 when p matches the empty word. */
    method First(p: Node) returns (b: int)
      requires Ready() && p in nodes && marks.Counted(line)
      modifies marks, marks.setvec
      ensures marks.Counted(line) && marks.Vec(line) == old(marks.Vec(line)) + (AwkRegex.First(p.re) - {0})
      ensures b == if Nullable(p.re) then 0 else 1
      decreases p.re
    {
      hide Ready, Wired, Fits, Plug, Marks.Vec, Marks.Counted;
      NodeFacts(p);
      match p.kind
      case LEAF =>
        marks.Mark(p.index, line);
        b := if p.sym.Ccl? && p.sym.cs == [] then 0 else 1;
      case PLUS =>
        b := First(p.left);
        if b == 0 { return 0; }
        b := 1;
      case STAR =>
        b := First(p.left);
        b := 0;
      case QUEST =>
        b := First(p.left);
        b := 0;
      case CAT =>
        b := First(p.left);
        if b == 0 {
          b := First(p.right);
          if b == 0 { return 0; }
        }
        b := 1;
      case OR =>
        b := First(p.right);
        var c := First(p.left);
        if c == 0 || b == 0 { return 0; }
        b := 1;
    }

    /** Collects the positions that can follow v. */
    method Follow(v: Node)
      requires Ready() && v in nodes && marks.Counted(line)
      modifies marks, marks.setvec
      ensures marks.Counted(line) && marks.Vec(line) == old(marks.Vec(line)) + (FollowCtx(v.ctx, line) - {0})
      decreases v.ctx
    {
      hide Ready, Wired, Fits, Plug, Local, Marks.Vec, Marks.Counted;
      ParentFacts(v);
      var p := v.parent;
      match p.kind
      case LEAF => assert false;
      case STAR =>
        var b := First(v);
        Follow(p);
      case PLUS =>
        var b := First(v);
        Follow(p);
      case OR =>
        Follow(p);
      case QUEST =>
        Follow(p);
      case CAT =>
        if v == p.left {
          var b := First(p.right);
          if b == 0 {
            Follow(p);
          }
        } else {
          Follow(p);
        }
      case FINAL =>
        marks.Mark(line, line);
    }

    /** The remembered follow set of position i. */
    ghost predicate FollOk(i: int)
      requires Ready()
      reads this, nodes, foll
    {
      && 0 <= i < line
      && IsVec(foll[i]) && Members(foll[i]) == AwkRegex.Follow(root, i, line) - {0}
    }

    /** Enters the follow set of each leaf of v. */
    method Cfoll(v: Node)
      requires Ready() && v in nodes && marks.setvec[0] == 1
      requires forall i | 0 <= i < Lo(v.re) :: FollOk(i)
      modifies marks, marks.setvec, foll
      ensures Ready() && marks.setvec[0] == 1
      ensures forall i | 0 <= i < Lo(v.re) + Leaves(v.re) :: FollOk(i)
      decreases v.re
    {
      hide Wired, Fits, Plug;
      NodeFacts(v);
      match v.kind
      case LEAF =>
        CfollLeaf(v);
      case STAR => Cfoll(v.left);
      case PLUS => Cfoll(v.left);
      case QUEST => Cfoll(v.left);
      case CAT =>
        Cfoll(v.left);
        LoIsBase(v.right.re, Lo(v.left.re) + Leaves(v.left.re));
        Cfoll(v.right);
      case OR =>
        Cfoll(v.left);
        LoIsBase(v.right.re, Lo(v.left.re) + Leaves(v.left.re));
        Cfoll(v.right);
    }

    method CfollLeaf(v: Node)
      requires Ready() && v in nodes && marks.setvec[0] == 1 && v.kind == LEAF
      requires 0 <= v.index < line
      requires forall i | 0 <= i < v.index :: FollOk(i)
      modifies marks, marks.setvec, foll
      ensures Ready() && marks.setvec[0] == 1
      ensures forall i | 0 <= i <= v.index :: FollOk(i)
    {
      hide Ready, Wired, Fits, Plug, CtxAt, FollowCtx, Local, IsVec, Members;
      NodeFacts(v);
      FollBounds(v.index);
      marks.Clear(line);
      Follow(v);
      var b, prev := marks.Notin(foll, v.index - 1, line);
      var w;
      if b == 1 {
        w := marks.Add(marks.setcnt, line);
      } else {
        w := foll[prev];
      }
      SetFoll(v.index, w);
    }

    method SetFoll(i: int, w: seq<int>)
      requires Ready() && 0 <= i < line
      requires forall k | 0 <= k < i :: FollOk(k)
      requires IsVec(w) && Members(w) == AwkRegex.Follow(root, i, line) - {0}
      modifies foll
      ensures Ready() && forall k | 0 <= k <= i :: FollOk(k)
    {
      hide Wired;
      foll[i] := w;
      forall k | 0 <= k < i ensures FollOk(k) {
        assert old(FollOk(k));
      }
    }

    lemma FollBounds(n: int)
      requires Ready() && 0 <= n <= line
      requires forall i | 0 <= i < n :: FollOk(i)
      ensures forall i | 0 <= i < n :: IsVec(foll[i]) && forall x | x in Members(foll[i]) :: x <= line
    {
      forall i | 0 <= i < n
        ensures IsVec(foll[i]) && forall x | x in Members(foll[i]) :: x <= line
      {
        assert FollOk(i);
        FollowBounds(root, i, line);
      }
    }
  }
}
