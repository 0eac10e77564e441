/** A pointer block gives way to the blocks it points to. */
module DumpExpand {
  import opened Arith
  import opened DumpDisk
  import opened DumpList
  import opened DumpPlan

  /** All items but x are apart, and x is there only once. */
  predicate ApartBut(n: nat, x: Item, y: Item, z: Item) {
    (y == x) != (z == x) || (y != x && z != x && Apart(n, y, z))
  }

  predicate AllApartBut(n: nat, s: seq<Item>, x: Item) {
    forall i, j | 0 <= i < j < |s| :: ApartBut(n, x, s[i], s[j])
  }

  lemma SpanPositive(n: nat, k: Kind)
    requires n > 0
    ensures Span(n, k) > 0
  {
    MulMono(1, n, n);
  }

  lemma ApartIsBut(n: nat, s: seq<Item>, x: Item)
    requires n > 0 && AllApart(n, s)
    ensures AllApartBut(n, s, x)
  {
    hide Span;
    forall i, j | 0 <= i < j < |s|
      ensures ApartBut(n, x, s[i], s[j])
    {
      assert Apart(n, s[i], s[j]);
      SpanPositive(n, s[i].kind);
    }
  }

  lemma ApartButInsert(n: nat, s: seq<Item>, x: Item, c: Item)
    requires AllApartBut(n, s, x) && c != x && forall y | y in s && y != x :: Apart(n, c, y)
    ensures AllApartBut(n, Inserted(s, c), x)
  {
    hide Apart;
    var p := Place(s, c.blkno);
    var s' := Inserted(s, c);
    forall i, j | 0 <= i < j < |s'|
      ensures ApartBut(n, x, s'[i], s'[j])
    {
      if i == p {
        assert s'[j] == s[j - 1] && s[j - 1] in s;
        ApartSwap(n, c, s[j - 1]);
      } else if j == p {
        assert s'[i] == s[i] && s[i] in s;
        ApartSwap(n, c, s[i]);
      } else {
        assert s'[i] == if i < p then s[i] else s[i - 1];
        assert s'[j] == if j < p then s[j] else s[j - 1];
      }
    }
  }

  lemma ApartSwap(n: nat, x: Item, y: Item)
    ensures Apart(n, x, y) <==> Apart(n, y, x)
  {
  }

  lemma ApartButDelete(n: nat, s: seq<Item>, i: nat)
    requires i < |s| && AllApartBut(n, s, s[i])
    ensures var t := s[..i] + s[i + 1..]; AllApart(n, t) && s[i] !in t && forall y | y in t :: y in s
  {
    hide Apart;
    var x, t := s[i], s[..i] + s[i + 1..];
    forall a | 0 <= a < |t|
      ensures t[a] != x && t[a] in s
    {
      var a' := if a < i then a else a + 1;
      assert t[a] == s[a'];
      assert if a' < i then ApartBut(n, x, s[a'], s[i]) else ApartBut(n, x, s[i], s[a']);
    }
    forall a, b | 0 <= a < b < |t|
      ensures Apart(n, t[a], t[b])
    {
      var a', b' := if a < i then a else a + 1, if b < i then b else b + 1;
      assert t[a] == s[a'] && t[b] == s[b'];
      assert ApartBut(n, x, s[a'], s[b']);
    }
  }

  function ChildWeight(n: nat, x: Item): nat {
    if x.kind == SINGLE then 1 else n + 1
  }

  /** y is x's child at one of the first t entries. */
  ghost predicate IsChild(fs: Fs, files: seq<Inode>, x: Item, t: nat, y: Item)
    requires fs.Valid() && x.req < |files| && t <= fs.nindir
  {
    exists u | 0 <= u < t :: Entry(fs, x.blkno, u) != 0 && y == Child(fs, files, x, u)
  }

  /** Before x is expanded the items were as given; its first t entries have been seen. */
  ghost predicate Expanding(fs: Fs, files: seq<Inode>, before: seq<Item>, items: seq<Item>, x: Item, t: nat)
    requires fs.Valid() && x.req < |files| && t <= fs.nindir
  {
    && Ordered(items) && AllApartBut(fs.nindir, items, x)
    && (forall y | y in before :: y in items)
    && (forall y | y in items :: y in before || IsChild(fs, files, x, t, y))
    && (forall u | 0 <= u < t && Entry(fs, x.blkno, u) != 0 :: Child(fs, files, x, u) in items)
    && Weights(fs.nindir, items) <= Weights(fs.nindir, before) + t * ChildWeight(fs.nindir, x)
  }

  /** What x must be to be expanded. */
  ghost predicate Expandable(fs: Fs, files: seq<Inode>, before: seq<Item>, x: Item)
    requires fs.Valid()
  {
    x.req < |files| && x.kind != DATA && Plan(fs, files, before) && x in before && Legit(fs, files, x) &&
      Plain(fs, files[x.req])
  }

  lemma ExpandStart(fs: Fs, files: seq<Inode>, before: seq<Item>, x: Item)
    requires fs.Valid() && Expandable(fs, files, before, x)
    ensures Expanding(fs, files, before, before, x, 0)
  {
    hide AllApart, AllApartBut, Legit, Plain, Weights;
    ApartIsBut(fs.nindir, before, x);
  }

  /** A child is apart from all items but its parent. */
  lemma ChildApart(fs: Fs, files: seq<Inode>, before: seq<Item>, items: seq<Item>, x: Item, t: nat, y: Item)
    requires fs.Valid() && Expandable(fs, files, before, x) && t < fs.nindir
    requires Expanding(fs, files, before, items, x, t) && y in items && y != x
    ensures Apart(fs.nindir, Child(fs, files, x, t), y)
  {
    hide Legit, Plain, Weights, Child, AllApartBut;
    if y in before {
      InPlan(fs.nindir, before, x, y);
      ChildWithin(fs, files, x, t);
      ChildReq(fs, files, x, t);
    } else {
      var u :| 0 <= u < t && Entry(fs, x.blkno, u) != 0 && y == Child(fs, files, x, u);
      ChildrenApart(fs, files, x, u, t);
      ApartSwap(fs.nindir, y, Child(fs, files, x, t));
    }
  }

  lemma InPlan(n: nat, s: seq<Item>, x: Item, y: Item)
    requires AllApart(n, s) && x in s && y in s && x != y
    ensures Apart(n, x, y)
  {
    var i :| 0 <= i < |s| && s[i] == x;
    var j :| 0 <= j < |s| && s[j] == y;
    if i < j {
      assert Apart(n, s[i], s[j]);
    } else {
      assert Apart(n, s[j], s[i]);
    }
  }

  lemma ChildReq(fs: Fs, files: seq<Inode>, x: Item, t: nat)
    requires fs.Valid() && x.req < |files| && t < fs.nindir && x.kind != DATA
    ensures var c := Child(fs, files, x, t);
      c.req == x.req && c != x && c.blkno == Entry(fs, x.blkno, t) &&
        Weight(fs.nindir, c.kind) == ChildWeight(fs.nindir, x)
  {
  }

  /** An entry that points to a block puts its child in. */
  lemma ExpandStep(fs: Fs, files: seq<Inode>, before: seq<Item>, items: seq<Item>, x: Item, t: nat)
    requires fs.Valid() && Expandable(fs, files, before, x) && t < fs.nindir && Entry(fs, x.blkno, t) != 0
    requires Expanding(fs, files, before, items, x, t)
    ensures Expanding(fs, files, before, Inserted(items, Child(fs, files, x, t)), x, t + 1)
  {
    hide Legit, Plain, Weights, Child, AllApartBut, Apart, Plan, Inserted, Ordered, Weight, ChildWeight;
    var c := Child(fs, files, x, t);
    var items' := Inserted(items, c);
    forall y | y in items && y != x
      ensures Apart(fs.nindir, c, y)
    {
      ChildApart(fs, files, before, items, x, t, y);
    }
    ChildReq(fs, files, x, t);
    ApartButInsert(fs.nindir, items, x, c);
    InsertedOrdered(items, c);
    InsertedHas(items, c);
    WeightsInsert(fs.nindir, items, c);
    MulStep(t, ChildWeight(fs.nindir, x));
    forall y | y in items'
      ensures y in before || IsChild(fs, files, x, t + 1, y)
    {
      if y == c {
        assert IsChild(fs, files, x, t + 1, y);
      } else if y !in before {
        ChildLater(fs, files, x, t, y);
      }
    }
  }

  lemma ChildLater(fs: Fs, files: seq<Inode>, x: Item, t: nat, y: Item)
    requires fs.Valid() && x.req < |files| && t < fs.nindir && IsChild(fs, files, x, t, y)
    ensures IsChild(fs, files, x, t + 1, y)
  {
    var u :| 0 <= u < t && Entry(fs, x.blkno, u) != 0 && y == Child(fs, files, x, u);
    assert Entry(fs, x.blkno, u) != 0 && y == Child(fs, files, x, u);
  }

  /** An entry that is zero changes nothing. */
  lemma ExpandSkip(fs: Fs, files: seq<Inode>, before: seq<Item>, items: seq<Item>, x: Item, t: nat)
    requires fs.Valid() && x.req < |files| && t < fs.nindir && Entry(fs, x.blkno, t) == 0
    requires Expanding(fs, files, before, items, x, t)
    ensures Expanding(fs, files, before, items, x, t + 1)
  {
    hide Weights, Child, AllApartBut, Ordered, ChildWeight, IsChild;
    MulStep(t, ChildWeight(fs.nindir, x));
    forall y | y in items
      ensures y in before || IsChild(fs, files, x, t + 1, y)
    {
      if y !in before {
        ChildLater(fs, files, x, t, y);
      }
    }
  }

  /** Past the last block of the file all entries are zero. */
  lemma {:induction false} ExpandEnds(fs: Fs, files: seq<Inode>, before: seq<Item>, items: seq<Item>, x: Item, t: nat)
    requires fs.Valid() && Expandable(fs, files, before, x) && t <= fs.nindir && x.kind == SINGLE
    requires x.bindex + t > LastBlock(fs, files[x.req])
    requires Expanding(fs, files, before, items, x, t)
    ensures Expanding(fs, files, before, items, x, fs.nindir)
    decreases fs.nindir - t
  {
    hide Expanding, Legit, Phys, LastBlock, Plan;
    if t < fs.nindir {
      SinglePhys(fs, files, x, t);
      ExpandSkip(fs, files, before, items, x, t);
      ExpandEnds(fs, files, before, items, x, t + 1);
    }
  }

  /** All entries seen, x can go, and the list weighs less than before. */
  lemma ExpandDone(fs: Fs, files: seq<Inode>, before: seq<Item>, items: seq<Item>, i: nat)
    requires fs.Valid() && i < |items| && Expandable(fs, files, before, items[i])
    requires Expanding(fs, files, before, items, items[i], fs.nindir)
    ensures var rest := items[..i] + items[i + 1..];
      Plan(fs, files, rest) && Weights(fs.nindir, rest) < Weights(fs.nindir, before) &&
      items[i] !in rest && forall y | y in rest :: y.req == items[i].req || y in before
  {
    hide Legit, Plain, Weights, Child, AllApartBut, Apart, AllApart, Ordered, Entry;
    var x, rest := items[i], items[..i] + items[i + 1..];
    ApartButDelete(fs.nindir, items, i);
    DeletedOrdered(items, i);
    WeightsDelete(fs.nindir, items, i);
    forall y | y in rest
      ensures y.req < |files| && Legit(fs, files, y) && Plain(fs, files[y.req]) && (y.req == x.req || y in before)
    {
      if y in before {
        LegitReq(fs, files, y);
      }
      if y !in before {
        ChildrenLegit(fs, files, x, fs.nindir, y);
      }
    }
  }

  lemma ChildrenLegit(fs: Fs, files: seq<Inode>, x: Item, t: nat, y: Item)
    requires fs.Valid() && x.req < |files| && Legit(fs, files, x)
    requires x.kind != DATA && t <= fs.nindir && IsChild(fs, files, x, t, y)
    ensures Legit(fs, files, y) && y.req == x.req
  {
    hide Legit, Child;
    LegitReq(fs, files, x);
    var u :| 0 <= u < t && Entry(fs, x.blkno, u) != 0 && y == Child(fs, files, x, u);
    ChildLegit(fs, files, x, u);
    ChildReq(fs, files, x, u);
  }

  lemma DeletedOrdered(s: seq<Item>, i: nat)
    requires Ordered(s) && i < |s|
    ensures Ordered(s[..i] + s[i + 1..])
  {
    var t := s[..i] + s[i + 1..];
    forall a, b | 0 <= a < b < |t|
      ensures t[a].blkno <= t[b].blkno
    {
      assert t[a] == if a < i then s[a] else s[a + 1];
      assert t[b] == if b < i then s[b] else s[b + 1];
    }
  }

  /** An item that goes leaves a plan that weighs less. */
  lemma PlanDelete(fs: Fs, files: seq<Inode>, items: seq<Item>, i: nat)
    requires fs.Valid() && Plan(fs, files, items) && i < |items|
    ensures var rest := items[..i] + items[i + 1..];
      Plan(fs, files, rest) && Weights(fs.nindir, rest) < Weights(fs.nindir, items) &&
      items[i] !in rest && forall y | y in rest :: y in items
  {
    hide Legit, Plain, Weights, AllApartBut, AllApart, Ordered;
    ApartIsBut(fs.nindir, items, items[i]);
    ApartButDelete(fs.nindir, items, i);
    DeletedOrdered(items, i);
    WeightsDelete(fs.nindir, items, i);
  }

  /** When each block is referred to once, no other item has the block of x. */
  lemma OthersElsewhere(fs: Fs, files: seq<Inode>, rest: seq<Item>, x: Item)
    requires fs.Valid() && OnceEach(fs, files) && Plan(fs, files, rest) && Legit(fs, files, x) && x !in rest
    ensures forall y | y in rest :: y.blkno != x.blkno
  {
    hide Legit, AllApart, Ordered, Plain;
  }
}
