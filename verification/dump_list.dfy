/** frec's list of blocks still to be recovered: a circular list, linked both ways, in ascending
    order of block number, changed in place. */
module DumpList {

  datatype Kind = DATA | SINGLE | DOUBLE

  /** What a block is to a requested file: data at logical block bindex, of which count bytes
      count, or pointers to the blocks from bindex on. */
  datatype Item = Item(kind: Kind, req: nat, blkno: int, count: int, bindex: int)

  class Bdata {
    const item: Item
    const head: bool
    var rlink: Bdata?
    var llink: Bdata?

    constructor (item: Item, head: bool)
      ensures this.item == item && this.head == head
    {
      this.item, this.head := item, head;
    }
  }

  predicate Ordered(s: seq<Item>) {
    forall i, j | 0 <= i < j < |s| :: s[i].blkno <= s[j].blkno
  }

  /** The place before the first item whose block number is not below blk. */
  function Place(s: seq<Item>, blk: int): (p: nat)
    ensures p <= |s|
  {
    if s == [] || blk <= s[0].blkno then 0 else 1 + Place(s[1..], blk)
  }

  lemma {:induction false} PlaceSplits(s: seq<Item>, blk: int)
    requires Ordered(s)
    ensures forall i | 0 <= i < Place(s, blk) :: s[i].blkno < blk
    ensures forall i | Place(s, blk) <= i < |s| :: blk <= s[i].blkno
  {
    if s != [] && s[0].blkno < blk {
      PlaceSplits(s[1..], blk);
      forall i | 0 <= i < Place(s, blk) ensures s[i].blkno < blk {
        if i > 0 { assert s[i] == s[1..][i - 1]; }
      }
      forall i | Place(s, blk) <= i < |s| ensures blk <= s[i].blkno {
        assert s[i] == s[1..][i - 1];
      }
    }
  }

  function Inserted(s: seq<Item>, x: Item): seq<Item> {
    var p := Place(s, x.blkno);
    s[..p] + [x] + s[p..]
  }

  lemma InsertedOrdered(s: seq<Item>, x: Item)
    requires Ordered(s)
    ensures Ordered(Inserted(s, x))
  {
    PlaceSplits(s, x.blkno);
  }

  /** Node k of a circle, where one past the end is the beginning and one before it the end. */
  ghost function Around(nodes: seq<Bdata>, k: int): Bdata
    requires |nodes| > 0 && -1 <= k <= |nodes|
  {
    if k == |nodes| then nodes[0] else if k == -1 then nodes[|nodes| - 1] else nodes[k]
  }

  function Wrap(k: int, n: int): int {
    if k == n then 0 else k
  }

  ghost predicate Distinct(nodes: seq<Bdata>) {
    forall i, j | 0 <= i < j < |nodes| :: nodes[i] != nodes[j]
  }

  ghost predicate Circle(nodes: seq<Bdata>)
    reads nodes
  {
    && |nodes| > 0
    && (forall i | 0 <= i < |nodes| :: nodes[i].rlink == Around(nodes, i + 1))
    && (forall i | 0 <= i < |nodes| :: nodes[i].llink == Around(nodes, i - 1))
  }

  /** The circle closes around a node linked in before place i. */
  lemma CircleInsert(nodes: seq<Bdata>, n: Bdata, i: int)
    requires 1 <= i <= |nodes| && n !in nodes
    requires forall k | 0 <= k < |nodes| :: nodes[k].rlink == if k == i - 1 then n else Around(nodes, k + 1)
    requires forall k | 0 <= k < |nodes| :: nodes[k].llink == if k == Wrap(i, |nodes|) then n else Around(nodes, k - 1)
    requires n.rlink == Around(nodes, i) && n.llink == nodes[i - 1]
    ensures Circle(nodes[..i] + [n] + nodes[i..])
  {
    var new' := nodes[..i] + [n] + nodes[i..];
    forall k | 0 <= k < |new'|
      ensures new'[k].rlink == Around(new', k + 1) && new'[k].llink == Around(new', k - 1)
    {
      if k < i {
        assert new'[k] == nodes[k];
      } else if k > i {
        assert new'[k] == nodes[k - 1];
      }
    }
  }

  /** The circle closes behind a node taken out of place i. */
  lemma CircleDelete(nodes: seq<Bdata>, i: int)
    requires 1 <= i < |nodes|
    requires forall k | 0 <= k < |nodes| && k != i ::
      nodes[k].rlink == if k == i - 1 then Around(nodes, i + 1) else Around(nodes, k + 1)
    requires forall k | 0 <= k < |nodes| && k != i ::
      nodes[k].llink == if k == Wrap(i + 1, |nodes|) then nodes[i - 1] else Around(nodes, k - 1)
    ensures Circle(nodes[..i] + nodes[i + 1..])
  {
    var new' := nodes[..i] + nodes[i + 1..];
    forall k | 0 <= k < |new'|
      ensures new'[k].rlink == Around(new', k + 1) && new'[k].llink == Around(new', k - 1)
    {
      if k < i {
        assert new'[k] == nodes[k];
      } else {
        assert new'[k] == nodes[k + 1];
      }
    }
  }

  ghost function ItemsOf(nodes: seq<Bdata>): seq<Item>
    requires |nodes| > 0
  {
    seq(|nodes| - 1, i requires 0 <= i < |nodes| - 1 => nodes[i + 1].item)
  }

  lemma ItemsInsert(nodes: seq<Bdata>, n: Bdata, i: int)
    requires 1 <= i <= |nodes|
    ensures ItemsOf(nodes[..i] + [n] + nodes[i..]) == ItemsOf(nodes)[..i - 1] + [n.item] + ItemsOf(nodes)[i - 1..]
  {
  }

  lemma ItemsDelete(nodes: seq<Bdata>, i: int)
    requires 1 <= i < |nodes|
    ensures ItemsOf(nodes[..i] + nodes[i + 1..]) == ItemsOf(nodes)[..i - 1] + ItemsOf(nodes)[i..]
  {
  }

  /** Node 0 is the head, which carries no block; no node occurs twice. */
  ghost predicate Shape(nodes: seq<Bdata>, head: Bdata) {
    && |nodes| >= 1 && nodes[0] == head && head.head && head.item.blkno == 0
    && (forall i | 1 <= i < |nodes| :: !nodes[i].head) && Distinct(nodes)
  }

  lemma ShapeDistinct(nodes: seq<Bdata>, head: Bdata)
    requires Shape(nodes, head)
    ensures Distinct(nodes)
  {
  }

  lemma ShapeInsert(nodes: seq<Bdata>, head: Bdata, n: Bdata, i: int)
    requires Shape(nodes, head) && 1 <= i <= |nodes| && n !in nodes && !n.head
    ensures Shape(nodes[..i] + [n] + nodes[i..], head)
  {
  }

  lemma ShapeDelete(nodes: seq<Bdata>, head: Bdata, i: int)
    requires Shape(nodes, head) && 1 <= i < |nodes|
    ensures Shape(nodes[..i] + nodes[i + 1..], head)
  {
  }

  /** The list itself. Node 0 is the head, which carries no block. */
  class Pending {
    const head: Bdata
    ghost var nodes: seq<Bdata>

    ghost predicate Valid()
      reads this, nodes
    {
      Shape(nodes, head) && Circle(nodes)
    }

    /** The items of the list, without the head. */
    ghost function Items(): seq<Item>
      requires Valid()
      reads this, nodes
    {
      ItemsOf(nodes)
    }

    constructor ()
      ensures Valid() && Items() == [] && fresh(nodes)
    {
      head := new Bdata(Item(DATA, 0, 0, 0, 0), true);
      new;
      head.rlink, head.llink := head, head;
      nodes := [head];
    }

    lemma Ends()
      requires Valid()
      ensures Items() == [] <==> head.rlink == head
      ensures |nodes| > 1 ==> head.rlink == nodes[1]
      ensures |nodes| >= 1 && |Items()| == |nodes| - 1 && nodes[0] == head
    {
    }

    lemma NodeAt(i: int)
      requires Valid() && 1 <= i <= |nodes|
      ensures Around(nodes, i).head <==> i == |nodes|
      ensures i == |nodes| ==> Around(nodes, i) == head
      ensures i < |nodes| ==> nodes[i].item == Items()[i - 1] && nodes[i].rlink == Around(nodes, i + 1)
      ensures head.rlink == Around(nodes, 1)
    {
    }

    lemma PlaceStep(s: seq<Item>, blk: int, k: nat)
      requires k < |s|
      ensures blk > s[k].blkno ==> Place(s[k..], blk) == 1 + Place(s[k + 1..], blk)
      ensures blk <= s[k].blkno ==> Place(s[k..], blk) == 0
    {
      assert s[k..][0] == s[k] && s[k..][1..] == s[k + 1..];
    }

    /** The first node whose block number is not below blk, or the head. */
    method Seek(blk: int) returns (bp: Bdata, ghost i: int)
      requires Valid()
      ensures 1 <= i <= |nodes| && i == Place(Items(), blk) + 1 && bp == Around(nodes, i)
    {
      hide Circle, Distinct, ItemsOf, Place;
      ghost var items := Items();
      Ends();
      NodeAt(1);
      bp := head.rlink;
      i := 1;
      assert items[0..] == items;
      while !bp.head && blk > bp.item.blkno
        invariant 1 <= i <= |nodes| && bp == Around(nodes, i)
        invariant Place(items, blk) == i - 1 + Place(items[i - 1..], blk)
        decreases |nodes| - i
      {
        NodeAt(i);
        PlaceStep(items, blk, i - 1);
        i := i + 1;
        bp := bp.rlink;
      }
      NodeAt(i);
      if i < |nodes| {
        PlaceStep(items, blk, i - 1);
      } else {
        PlaceNone(items[i - 1..], blk);
      }
    }

    lemma PlaceNone(s: seq<Item>, blk: int)
      requires s == []
      ensures Place(s, blk) == 0
    {
    }

    /** addnod: links in a node for the item before the first whose block number is not smaller. */
    method Addnod(item: Item) returns (n: Bdata)
      requires Valid()
      modifies this, nodes
      ensures Valid() && Items() == Inserted(old(Items()), item) && fresh(n)
      ensures var p := Place(old(Items()), item.blkno) + 1;
        p <= |old(nodes)| && nodes == old(nodes)[..p] + [n] + old(nodes)[p..]
    {
      hide Circle, ItemsOf, Place, Shape;
      n := new Bdata(item, false);
      ghost var i;
      var bp;
      bp, i := Seek(item.blkno);
      ShapeDistinct(nodes, head);
      Link(n, bp, i);
      CircleInsert(nodes, n, i);
      ItemsInsert(nodes, n, i);
      ShapeInsert(nodes, head, n, i);
      nodes := nodes[..i] + [n] + nodes[i..];
    }

    method Link(n: Bdata, bp: Bdata, ghost i: int)
      requires Distinct(nodes) && Circle(nodes) && 1 <= i <= |nodes| && bp == Around(nodes, i) && n !in nodes
      modifies nodes, n
      ensures forall k | 0 <= k < |nodes| :: nodes[k].rlink == if k == i - 1 then n else Around(nodes, k + 1)
      ensures forall k | 0 <= k < |nodes| :: nodes[k].llink == if k == Wrap(i, |nodes|) then n else Around(nodes, k - 1)
      ensures n.rlink == Around(nodes, i) && n.llink == nodes[i - 1]
    {
      hide Distinct, Circle;
      ghost var w := AroundFacts(i);
      n.rlink := bp;
      n.llink := bp.llink;
      CircleFacts();
      SetLinks(bp.llink, bp, n, i - 1, w);
    }

    lemma AroundFacts(i: int) returns (w: int)
      requires Circle(nodes) && 1 <= i <= |nodes|
      ensures w == Wrap(i, |nodes|) && 0 <= w < |nodes|
      ensures Around(nodes, i) == nodes[w] && nodes[w].llink == nodes[i - 1]
    {
      w := Wrap(i, |nodes|);
    }

    lemma CircleFacts()
      requires Circle(nodes)
      ensures forall k | 0 <= k < |nodes| :: nodes[k].rlink == Around(nodes, k + 1)
      ensures forall k | 0 <= k < |nodes| :: nodes[k].llink == Around(nodes, k - 1)
    {
    }

    method SetLinks(prev: Bdata, next: Bdata, n: Bdata, ghost i: int, ghost j: int)
      requires Distinct(nodes) && 0 <= i < |nodes| && 0 <= j < |nodes| && prev == nodes[i] && next == nodes[j]
      modifies prev`rlink, next`llink
      ensures forall k | 0 <= k < |nodes| :: nodes[k].rlink == if k == i then n else old(nodes[k].rlink)
      ensures forall k | 0 <= k < |nodes| :: nodes[k].llink == if k == j then n else old(nodes[k].llink)
    {
      prev.rlink := n;
      next.llink := n;
    }

    /** delnode: unlinks node i and returns the one after it. */
    method Delnode(bp: Bdata, ghost i: int) returns (next: Bdata)
      requires Valid() && 1 <= i < |nodes| && bp == nodes[i]
      modifies this, nodes
      ensures Valid() && Items() == old(Items())[..i - 1] + old(Items())[i..]
      ensures nodes == old(nodes)[..i] + old(nodes)[i + 1..]
      ensures i <= |nodes| && next == Around(nodes, i)
    {
      hide Circle, ItemsOf, Shape;
      ShapeDistinct(nodes, head);
      next := Unlink(bp, i);
      CircleDelete(nodes, i);
      ItemsDelete(nodes, i);
      ShapeDelete(nodes, head, i);
      nodes := nodes[..i] + nodes[i + 1..];
    }

    method Unlink(bp: Bdata, ghost i: int) returns (next: Bdata)
      requires Distinct(nodes) && Circle(nodes) && 1 <= i < |nodes| && bp == nodes[i]
      modifies nodes
      ensures forall k | 0 <= k < |nodes| && k != i ::
        nodes[k].rlink == if k == i - 1 then Around(nodes, i + 1) else Around(nodes, k + 1)
      ensures forall k | 0 <= k < |nodes| && k != i ::
        nodes[k].llink == if k == Wrap(i + 1, |nodes|) then nodes[i - 1] else Around(nodes, k - 1)
      ensures next == Around(nodes, i + 1)
    {
      ghost var pre, post := i - 1, Wrap(i + 1, |nodes|);
      Neighbours(nodes, i);
      DistinctFrom(nodes, pre);
      DistinctFrom(nodes, post);
      hide Distinct;
      bp.llink.rlink := bp.rlink;
      bp.rlink.llink := bp.llink;
      next := bp.rlink;
    }

    static lemma Neighbours(nodes: seq<Bdata>, i: int)
      requires Circle(nodes) && 1 <= i < |nodes|
      ensures nodes[i].rlink == nodes[Wrap(i + 1, |nodes|)] == Around(nodes, i + 1) && nodes[i].llink == nodes[i - 1]
    {
    }

    static lemma DistinctFrom(nodes: seq<Bdata>, i: int)
      requires Distinct(nodes) && 0 <= i < |nodes|
      ensures forall k | 0 <= k < |nodes| && k != i :: nodes[k] != nodes[i]
    {
    }
  }
}
