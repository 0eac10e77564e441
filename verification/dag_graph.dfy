/** dag's graph: nodes with their successors in a list of chunks, filled in place. */
module DagGraph {
  import opened Strings

  const NLINK := 8

  class Link {
    var next: Link?
    const node: array<Node?>

    constructor ()
      ensures next == null && node.Length == NLINK && fresh(node)
    {
      next := null;
      node := new Node?[NLINK](_ => null);
    }
  }

  ghost function ChunkAt(chunks: seq<Link>, i: int): Link? {
    if 0 <= i < |chunks| then chunks[i] else null
  }

  /** The number of the successor at place j of chunk i. */
  function Slot(i: nat, j: nat): nat {
    i * NLINK + j
  }

  ghost function NodeAt(order: seq<Node>, i: nat): Node? {
    if i < |order| then order[i] else null
  }

  datatype Data = NoData | Data(text: Text)

  class Node {
    const name: Text
    var data: Data
    var next: Node?
    var left: Node?
    var right: Node?
    var rcnt: nat
    var visit: nat
    var lcnt: nat
    var link: Link?
    ghost var links: seq<Node>    // the successors
    ghost var chunks: seq<Link>   // the list they are in

    constructor (name: Text)
      ensures this.name == name && data == NoData && next == null && left == null && right == null
      ensures rcnt == visit == lcnt == 0 && links == [] && chunks == [] && Chunked()
    {
      this.name := name;
      data := NoData;
      next, left, right, link := null, null, null, null;
      rcnt, visit, lcnt := 0, 0, 0;
      links, chunks := [], [];
    }

    ghost predicate Chained()
      reads this`link, this`chunks, chunks
    {
      && link == ChunkAt(chunks, 0)
      && (forall i | 0 <= i < |chunks| :: chunks[i].node.Length == NLINK && chunks[i].next == ChunkAt(chunks, i + 1))
    }

    ghost predicate Apart()
      reads this`chunks
    {
      forall i, j | 0 <= i < j < |chunks| :: chunks[i] != chunks[j] && chunks[i].node != chunks[j].node
    }

    ghost predicate Holds()
      requires forall i | 0 <= i < |chunks| :: chunks[i].node.Length == NLINK
      reads this`links, this`chunks, set c | c in chunks :: c.node
    {
      forall i, j | 0 <= i < |chunks| && 0 <= j < NLINK &&
        Slot(i, j) < |links| :: chunks[i].node[j] == links[Slot(i, j)]
    }

    /** The chunks are a list and hold the successors, NLINK to a chunk, in order; there may be one
        chunk more than is needed. */
    ghost predicate Linked()
      reads this`link, this`lcnt, this`links, this`chunks, chunks, set c | c in chunks :: c.node
    {
      lcnt == |links| <= |chunks| * NLINK && Chained() && Apart() && Holds()
    }

    ghost predicate Chunked()
      reads this`link, this`lcnt, this`links, this`chunks, chunks, set c | c in chunks :: c.node
    {
      Linked() && (|chunks| - 1) * NLINK < lcnt
    }

    /** lp is the chunk, and j the place in it, of successor i. */
    ghost predicate LinkAt(i: nat, j: nat, c: nat, lp: Link?)
      reads this`chunks
    {
      i == c * NLINK + j && j < NLINK && c <= |chunks| && lp == ChunkAt(chunks, c)
    }

    lemma ChainStart()
      requires Chunked()
      ensures lcnt == |links| && LinkAt(0, 0, 0, link)
    {
    }

    lemma LinkThere(i: nat, j: nat, c: nat, lp: Link?)
      requires Chunked() && LinkAt(i, j, c, lp) && i < lcnt && lp != null
      ensures lp.node.Length == NLINK && j < NLINK && i < |links| && lp.node[j] == links[i]
    {
      SlotAt(c, j);
    }

    lemma LinkNext(i: nat, j: nat, c: nat, lp: Link?)
      requires Chunked() && LinkAt(i, j, c, lp) && i < lcnt && lp != null
      ensures if j + 1 >= NLINK then LinkAt(i + 1, 0, c + 1, lp.next) else LinkAt(i + 1, j + 1, c, lp)
    {
    }

    lemma LinkEnd(i: nat, j: nat, c: nat, lp: Link?)
      requires Chunked() && LinkAt(i, j, c, lp) && i <= lcnt
      ensures lp == null ==> i == lcnt
    {
    }

    lemma ChainedIs()
      requires Linked()
      ensures Chained() && lcnt == |links| <= |chunks| * NLINK
    {
    }

    lemma SlotAt(c: nat, j: nat)
      requires Linked() && c < |chunks| && j < NLINK && c * NLINK + j < lcnt
      ensures chunks[c].node.Length == NLINK && chunks[c].node[j] == links[c * NLINK + j]
    {
      assert Slot(c, j) == c * NLINK + j;
    }

    /** Whether rp is among the successors; if not, the chunk and the place for it, or where the
        next chunk goes. */
    method FindLink(rp: Node) returns (found: bool, j: nat, lp: Link?, prev: Link?, ghost c: nat)
      requires Chunked()
      ensures found == (rp in links)
      ensures !found ==> lcnt == c * NLINK + j && j < NLINK && c <= |chunks| && lp == ChunkAt(chunks, c)
      ensures !found ==>
        if lp == null then lcnt == |chunks| * NLINK && prev == ChunkAt(chunks, |chunks| - 1) else c == |chunks| - 1
      ensures !found && lp == null ==> c == |chunks| && j == 0
    {
      hide Holds, Apart, Linked;
      ChainedIs();
      found := false;
      var i := 0;
      j, c := 0, 0;
      prev := null;      // null while it is the node's own pointer that is followed
      lp := link;
      while lp != null && i < lcnt
        invariant 0 <= i <= lcnt && i == c * NLINK + j && j < NLINK && c <= |chunks| && lp == ChunkAt(chunks, c)
        invariant prev == ChunkAt(chunks, c - 1) && Chunked() && Chained()
        invariant rp !in links[..i]
      {
        SlotAt(c, j);
        if lp.node[j] == rp {
          return true, j, lp, prev, c;
        }
        assert links[..i + 1] == links[..i] + [links[i]];
        j := j + 1;
        if j >= NLINK {
          j := 0;
          prev := lp;
          lp := lp.next;
          c := c + 1;
        }
        i := i + 1;
      }
      assert links[..i] == links;
    }

    /** A new chunk at the end of the list. */
    method Grow(prev: Link?) returns (lp: Link)
      requires Chunked() && lcnt == |chunks| * NLINK && prev == ChunkAt(chunks, |chunks| - 1)
      modifies this`link, this`chunks, chunks
      ensures chunks == old(chunks) + [lp] && fresh(lp) && fresh(lp.node) && Linked()
    {
      hide Holds;
      lp := new Link();
      if prev == null {
        link := lp;
      } else {
        prev.next := lp;
      }
      ghost var was := chunks;
      chunks := chunks + [lp];
      StillHolds(was, lp);
    }

    /** A chunk more holds no more. */
    twostate lemma StillHolds(was: seq<Link>, new lp: Link)
      requires old(Linked()) && was == old(chunks) && chunks == was + [lp]
      requires old(lcnt) == |was| * NLINK && links == old(links)
      requires forall i | 0 <= i < |chunks| :: chunks[i].node.Length == NLINK
      requires forall i | 0 <= i < |was| :: was[i].node[..] == old(was[i].node[..])
      ensures Holds()
    {
      forall i, k | 0 <= i < |chunks| && 0 <= k < NLINK && Slot(i, k) < |links|
        ensures chunks[i].node[k] == links[Slot(i, k)]
      {
        assert i < |was|;
        assert was[i].node[..][k] == old(was[i].node[..])[k];
      }
    }

    method Fill(lp: Link, j: nat, ghost c: nat, rp: Node)
      requires Linked() && c == |chunks| - 1 && lp == chunks[c] && lcnt == c * NLINK + j && j < NLINK
      modifies this`lcnt, this`links, lp.node
      ensures links == old(links) + [rp] && Chunked()
    {
      ghost var was := links;
      lp.node[j] := rp;
      lcnt := lcnt + 1;
      links := links + [rp];
      forall i, k | 0 <= i < |chunks| && 0 <= k < NLINK && Slot(i, k) < lcnt
        ensures chunks[i].node[k] == links[Slot(i, k)]
      {
        if i == c && k == j {
        } else {
          assert Slot(i, k) < |was| && old(chunks[i].node[k]) == was[Slot(i, k)];
        }
      }
    }

    /** addlink: puts rp among the successors unless it is there already, and counts a node more that
        refers to it. */
    method Addlink(rp: Node, ghost nodes: set<Node>) returns (added: bool)
      requires Chunked() && this in nodes && rp in nodes && Counted(ListsOf(nodes), CountsOf(nodes))
      modifies this`link, this`lcnt, this`links, this`chunks, chunks, (set c | c in chunks :: c.node), rp`rcnt
      ensures Chunked() && added == (rp !in old(links)) && links == old(links) + if added then [rp] else []
      ensures rp.rcnt == old(rp.rcnt) + (if added && rp != this then 1 else 0)
      ensures Counted(ListsOf(nodes), CountsOf(nodes))
      ensures old(chunks) <= chunks
      ensures forall i | |old(chunks)| <= i < |chunks| :: fresh(chunks[i]) && fresh(chunks[i].node)
    {
      hide Chunked, Counted, Referrers;
      ghost var lists, counts := ListsOf(nodes), CountsOf(nodes);
      CountedKeys(lists, counts);
      added := Place(rp);
      if added {
        CountedNow(nodes, lists, counts, this, rp);
      } else {
        assert links == old(links);
        CountedStill(nodes, lists, counts);
      }
    }

    /** The search for the successor and its place, and the entry there. */
    method Place(rp: Node) returns (added: bool)
      requires Chunked()
      modifies this`link, this`lcnt, this`links, this`chunks, chunks, (set c | c in chunks :: c.node), rp`rcnt
      ensures Chunked() && added == (rp !in old(links)) && links == old(links) + if added then [rp] else []
      ensures rp.rcnt == old(rp.rcnt) + (if added && rp != this then 1 else 0)
      ensures old(chunks) <= chunks
      ensures forall i | |old(chunks)| <= i < |chunks| :: fresh(chunks[i]) && fresh(chunks[i].node)
    {
      hide Linked;
      var found, j, lp, prev;
      ghost var c;
      found, j, lp, prev, c := FindLink(rp);
      if found {
        return false;
      }
      if lp == null {
        lp := Grow(prev);
      }
      Fill(lp, j, c, rp);
      Refer(rp);
      added := true;
    }

    method Refer(rp: Node)
      requires Chunked()
      modifies rp`rcnt
      ensures Chunked() && rp.rcnt == old(rp.rcnt) + if rp != this then 1 else 0
    {
      if this != rp {
        rp.rcnt := rp.rcnt + 1;
      }
    }
  }

  // The successors and the counts of a set of nodes.
  type Lists = map<Node, seq<Node>>
  type Counts = map<Node, nat>

  ghost function ListsOf(nodes: set<Node>): Lists
    reads nodes`links
  {
    map n | n in nodes :: n.links
  }

  ghost function CountsOf(nodes: set<Node>): Counts
    reads nodes`rcnt
  {
    map n | n in nodes :: n.rcnt
  }

  /** The other nodes that have n among their successors. */
  ghost function Referrers(lists: Lists, n: Node): set<Node> {
    set m | m in lists && m != n && n in lists[m]
  }

  /** Successors are among the nodes, and each count is the number of nodes that refer to one. */
  ghost predicate Counted(lists: Lists, counts: Counts) {
    && lists.Keys == counts.Keys
    && (forall n, m | n in lists && m in lists[n] :: m in lists)
    && (forall n | n in lists :: counts[n] == |Referrers(lists, n)|)
  }

  lemma ReferrersMore(lists: Lists, a: Node, rp: Node, n: Node)
    requires a in lists && rp !in lists[a]
    ensures |Referrers(lists[a := lists[a] + [rp]], n)| == |Referrers(lists, n)| + if n == rp != a then 1 else 0
  {
    assert Referrers(lists[a := lists[a] + [rp]], n) == Referrers(lists, n) + if n == rp != a then {a} else {};
  }

  /** A link more. */
  lemma CountedMore(lists: Lists, counts: Counts, a: Node, rp: Node)
    requires Counted(lists, counts) && a in lists && rp in lists && rp !in lists[a]
    ensures Counted(lists[a := lists[a] + [rp]], counts[rp := counts[rp] + if rp != a then 1 else 0])
  {
    hide Referrers;
    var lists' := lists[a := lists[a] + [rp]];
    forall n | n in lists
      ensures |Referrers(lists', n)| == |Referrers(lists, n)| + if n == rp != a then 1 else 0
    {
      ReferrersMore(lists, a, rp, n);
    }
    assert lists'.Keys == lists.Keys;
    forall n, m | n in lists && m in lists'[n]
      ensures m in lists
    {
      assert m in lists[n] || m == rp;
    }
  }

  /** The nodes after a has got rp as a successor. */
  lemma CountedNow(nodes: set<Node>, lists: Lists, counts: Counts, a: Node, rp: Node)
    requires Counted(lists, counts) && nodes == lists.Keys && a in nodes && rp in nodes && rp !in lists[a]
    requires forall n | n in nodes :: n.links == if n == a then lists[n] + [rp] else lists[n]
    requires forall n | n in nodes :: n.rcnt == counts[n] + if n == rp != a then 1 else 0
    ensures Counted(ListsOf(nodes), CountsOf(nodes))
  {
    hide Counted;
    CountedMore(lists, counts, a, rp);
    assert counts.Keys == nodes by {
      CountedKeys(lists, counts);
    }
    assert ListsOf(nodes) == lists[a := lists[a] + [rp]];
    assert CountsOf(nodes) == counts[rp := counts[rp] + if rp != a then 1 else 0];
  }

  lemma CountedStill(nodes: set<Node>, lists: Lists, counts: Counts)
    requires Counted(lists, counts) && nodes == lists.Keys == counts.Keys
    requires forall n | n in nodes :: n.links == lists[n] && n.rcnt == counts[n]
    ensures Counted(ListsOf(nodes), CountsOf(nodes))
  {
    hide Counted;
    assert ListsOf(nodes) == lists && CountsOf(nodes) == counts;
  }

  lemma CountedKeys(lists: Lists, counts: Counts)
    requires Counted(lists, counts)
    ensures lists.Keys == counts.Keys
  {
  }

  /** A node more, that refers to nothing and is not referred to. */
  lemma CountedNew(lists: Lists, counts: Counts, np: Node)
    requires Counted(lists, counts) && np !in lists
    ensures Counted(lists[np := []], counts[np := 0])
  {
    var lists' := lists[np := []];
    forall n | n in lists'
      ensures Referrers(lists', n) == if n == np then {} else Referrers(lists, n)
    {
    }
  }
}
