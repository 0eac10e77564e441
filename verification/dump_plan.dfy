/** What frec must recover: the items a requested file breaks up into, and how they cover it. */
module DumpPlan {
  import opened Arith
  import opened DumpDisk
  import opened DumpList

  /** The number of logical blocks an item stands for. */
  function Span(n: nat, k: Kind): nat {
    match k
    case DATA => 1
    case SINGLE => n
    case DOUBLE => n * n
  }

  predicate Covers(n: nat, x: Item, r: int, j: int) {
    x.req == r && x.bindex <= j < x.bindex + Span(n, x.kind)
  }

  /** A file that frec takes on. */
  predicate Wanted(f: Inode)
    requires f.Valid()
  {
    f.mode != 0 && !f.IsDir() && f.addr[NADDR - 1] == 0
  }

  /** x is a part of its file: the block is the one, and the bytes are those, that the file has
      there. */
  ghost predicate Legit(fs: Fs, files: seq<Inode>, x: Item)
    requires fs.Valid()
  {
    && x.req < |files| && x.blkno != 0 && files[x.req].Valid() && Wanted(files[x.req])
    && var n, f := fs.nindir, files[x.req];
      match x.kind
      case DATA => 0 <= x.bindex && x.blkno == Phys(fs, f, x.bindex) && x.count == Count(fs, f, x.bindex)
      case SINGLE => x.count == fs.Bsize() &&
        ((x.bindex == DIRECT && x.blkno == f.addr[DIRECT]) ||
         exists t | 0 <= t < n :: x.bindex == DIRECT + n + t * n && x.blkno == Entry(fs, f.addr[DIRECT + 1], t))
      case DOUBLE => x.count == fs.Bsize() && x.bindex == DIRECT + n && x.blkno == f.addr[DIRECT + 1]
  }

  lemma LegitReq(fs: Fs, files: seq<Inode>, x: Item)
    requires fs.Valid() && Legit(fs, files, x)
    ensures x.req < |files| && x.blkno != 0 && files[x.req].Valid()
  {
  }

  /** No block is referred to twice, and none lies in the inode list. */
  ghost predicate OnceEach(fs: Fs, files: seq<Inode>)
    requires fs.Valid()
  {
    && (forall x, y | Legit(fs, files, x) && Legit(fs, files, y) && x.blkno == y.blkno :: x == y)
    && (forall x | Legit(fs, files, x) :: x.blkno >= fs.fstblk)
  }

  /** Two items stand for different blocks. */
  predicate Apart(n: nat, x: Item, y: Item) {
    x.req != y.req || x.bindex + Span(n, x.kind) <= y.bindex || y.bindex + Span(n, y.kind) <= x.bindex
  }

  predicate AllApart(n: nat, s: seq<Item>) {
    forall i, j | 0 <= i < j < |s| :: Apart(n, s[i], s[j])
  }

  lemma ApartInsert(n: nat, s: seq<Item>, x: Item)
    requires AllApart(n, s) && forall y | y in s :: Apart(n, x, y)
    ensures AllApart(n, Inserted(s, x))
  {
    var p := Place(s, x.blkno);
    var s' := Inserted(s, x);
    forall i, j | 0 <= i < j < |s'|
      ensures Apart(n, s'[i], s'[j])
    {
      assert i < p ==> s'[i] == s[i] && s[i] in s;
      assert i > p ==> s'[i] == s[i - 1];
      assert j < p ==> s'[j] == s[j];
      assert j > p ==> s'[j] == s[j - 1] && s[j - 1] in s;
    }
  }

  lemma InsertedHas(s: seq<Item>, x: Item)
    ensures forall y :: y in Inserted(s, x) <==> y in s || y == x
  {
    var p := Place(s, x.blkno);
    assert s == s[..p] + s[p..];
  }

  /** The item that entry t of a pointer block stands for. */
  function Child(fs: Fs, files: seq<Inode>, x: Item, t: nat): Item
    requires fs.Valid() && x.req < |files| && t < fs.nindir
  {
    if x.kind == SINGLE then
      Item(DATA, x.req, Entry(fs, x.blkno, t), Count(fs, files[x.req], x.bindex + t), x.bindex + t)
    else
      Item(SINGLE, x.req, Entry(fs, x.blkno, t), fs.Bsize(), x.bindex + t * fs.nindir)
  }

  /** The blocks below a single indirect item are those of the file. */
  lemma SinglePhys(fs: Fs, files: seq<Inode>, x: Item, t: nat)
    requires fs.Valid() && Legit(fs, files, x) && x.kind == SINGLE && t < fs.nindir
    ensures 0 <= x.bindex && Phys(fs, files[x.req], x.bindex + t) == Entry(fs, x.blkno, t)
  {
    var n, f := fs.nindir, files[x.req];
    if !(x.bindex == DIRECT && x.blkno == f.addr[DIRECT]) {
      var q :| 0 <= q < n && x.bindex == DIRECT + n + q * n && x.blkno == Entry(fs, f.addr[DIRECT + 1], q);
      OuterInner(n, q, t);
      MulMono(0, q, n);
    }
  }

  lemma ChildLegit(fs: Fs, files: seq<Inode>, x: Item, t: nat)
    requires fs.Valid() && Legit(fs, files, x) && x.kind != DATA && t < fs.nindir && Entry(fs, x.blkno, t) != 0
    ensures Legit(fs, files, Child(fs, files, x, t))
  {
    if x.kind == SINGLE {
      SinglePhys(fs, files, x, t);
    }
  }

  /** A child stands for some of the blocks of its parent, and different children for different
      ones. */
  lemma ChildWithin(fs: Fs, files: seq<Inode>, x: Item, t: nat)
    requires fs.Valid() && x.req < |files| && x.kind != DATA && t < fs.nindir
    ensures var c := Child(fs, files, x, t);
      x.bindex <= c.bindex && c.bindex + Span(fs.nindir, c.kind) <= x.bindex + Span(fs.nindir, x.kind)
  {
    var n := fs.nindir;
    MulMono(0, t, n);
    MulMono(t + 1, n, n);
    MulStep(t, n);
  }

  lemma ChildrenApart(fs: Fs, files: seq<Inode>, x: Item, t: nat, u: nat)
    requires fs.Valid() && x.req < |files| && x.kind != DATA && t < u < fs.nindir
    ensures Apart(fs.nindir, Child(fs, files, x, t), Child(fs, files, x, u))
  {
    MulMono(t + 1, u, fs.nindir);
    MulStep(t, fs.nindir);
  }

  /** Every block of a pointer item is below one of its entries. */
  lemma ChildCovers(fs: Fs, files: seq<Inode>, x: Item, j: int) returns (t: nat)
    requires fs.Valid() && Legit(fs, files, x) && x.kind != DATA
    requires Covers(fs.nindir, x, x.req, j) && Phys(fs, files[x.req], j) != 0
    ensures t < fs.nindir && Entry(fs, x.blkno, t) != 0 && Covers(fs.nindir, Child(fs, files, x, t), x.req, j)
  {
    var n := fs.nindir;
    if x.kind == SINGLE {
      t := j - x.bindex;
      SinglePhys(fs, files, x, t);
    } else {
      var k: nat := j - x.bindex;
      t := Outer(n, k);
      DivMod(k, n);
    }
  }

  // The items of a file to begin with.

  /** The bytes frec takes to be left when it comes to direct block i. */
  function Remaining(fs: Fs, f: Inode, i: nat): int
    requires fs.Valid() && f.Valid() && i <= DIRECT
  {
    if i == 0 then f.size
    else
      var r := Remaining(fs, f, i - 1);
      if f.addr[i - 1] == 0 || r <= fs.Bsize() then r else r - fs.Bsize()
  }

  function SavedCount(fs: Fs, f: Inode, i: nat): int
    requires fs.Valid() && f.Valid() && i < DIRECT
  {
    if Remaining(fs, f, i) > fs.Bsize() then fs.Bsize() else Remaining(fs, f, i)
  }

  function Holes(f: Inode, i: nat): nat
    requires f.Valid() && i <= DIRECT
  {
    if i == 0 then 0 else Holes(f, i - 1) + if f.addr[i - 1] == 0 then 1 else 0
  }

  /** A file that ends in a direct block which is not full has no hole before that. */
  predicate DirectOk(fs: Fs, f: Inode)
    requires fs.Valid() && f.Valid()
  {
    var last := LastBlock(fs, f);
    0 <= last < DIRECT && f.addr[last] != 0 && Residual(fs, f) < fs.Bsize() ==> Holes(f, last) == 0
  }

  lemma {:induction false} RemainingIs(fs: Fs, f: Inode, i: nat)
    requires fs.Valid() && f.Valid() && f.size > 0 && i <= DIRECT && i <= LastBlock(fs, f)
    ensures Remaining(fs, f, i) == (LastBlock(fs, f) - i + Holes(f, i)) * fs.Bsize() + Residual(fs, f)
  {
    LastBlockBounds(fs, f);
    if i > 0 {
      RemainingIs(fs, f, i - 1);
      var k := LastBlock(fs, f) - i + Holes(f, i - 1);
      MulStep(k, fs.Bsize());
      MulMono(0, k, fs.Bsize());
    }
  }

  /** frec gives every direct block of the file its right number of bytes if and only if the file
      is DirectOk. */
  lemma DirectCounts(fs: Fs, f: Inode)
    requires fs.Valid() && f.Valid() && f.size > 0
    ensures DirectOk(fs, f) <==>
      forall i | 0 <= i < DIRECT && i <= LastBlock(fs, f) && f.addr[i] != 0 :: SavedCount(fs, f, i) == Count(fs, f, i)
  {
    LastBlockBounds(fs, f);
    var last, b := LastBlock(fs, f), fs.Bsize();
    forall i | 0 <= i < DIRECT && i <= last && f.addr[i] != 0
      ensures SavedCount(fs, f, i) == if i < last || Holes(f, i) > 0 then b else Residual(fs, f)
    {
      RemainingIs(fs, f, i);
      var k := last - i + Holes(f, i);
      if k > 0 {
        MulMono(1, k, b);
      }
    }
  }

  function DirectItem(fs: Fs, f: Inode, r: nat, i: nat): Item
    requires fs.Valid() && f.Valid() && i < DIRECT
  {
    Item(DATA, r, f.addr[i], SavedCount(fs, f, i), i)
  }

  function SingleItem(fs: Fs, f: Inode, r: nat): Item
    requires fs.Valid() && f.Valid()
  {
    Item(SINGLE, r, f.addr[DIRECT], fs.Bsize(), DIRECT)
  }

  function DoubleItem(fs: Fs, f: Inode, r: nat): Item
    requires fs.Valid() && f.Valid()
  {
    Item(DOUBLE, r, f.addr[DIRECT + 1], fs.Bsize(), DIRECT + fs.nindir)
  }

  /** x is one of the items that frec starts with for request r. */
  predicate Root(fs: Fs, f: Inode, r: nat, x: Item)
    requires fs.Valid() && f.Valid()
  {
    Wanted(f) &&
    match x.kind
    case DATA => 0 <= x.bindex < DIRECT && f.size > 0 && f.addr[x.bindex] != 0 && x == DirectItem(fs, f, r, x.bindex)
    case SINGLE => f.addr[DIRECT] != 0 && x == SingleItem(fs, f, r)
    case DOUBLE => f.addr[DIRECT + 1] != 0 && x == DoubleItem(fs, f, r)
  }

  lemma RootLegit(fs: Fs, files: seq<Inode>, r: nat, x: Item)
    requires fs.Valid() && r < |files| && Plain(fs, files[r]) && DirectOk(fs, files[r]) && Root(fs, files[r], r, x)
    ensures Legit(fs, files, x) && 0 <= x.bindex && x.req == r
  {
    var f := files[r];
    if x.kind == DATA {
      assert Phys(fs, f, x.bindex) == f.addr[x.bindex];
      DirectCounts(fs, f);
    }
  }

  lemma RootsApart(fs: Fs, f: Inode, r: nat, x: Item, y: Item)
    requires fs.Valid() && f.Valid() && Root(fs, f, r, x) && Root(fs, f, r, y) && x != y
    ensures Apart(fs.nindir, x, y)
  {
  }

  lemma RootCovers(fs: Fs, f: Inode, r: nat, j: int) returns (x: Item)
    requires fs.Valid() && Plain(fs, f) && Phys(fs, f, j) != 0
    ensures Root(fs, f, r, x) && Covers(fs.nindir, x, r, j)
  {
    LastBlockBounds(fs, f);
    assert j <= LastBlock(fs, f);
    if j < DIRECT {
      SizePositive(fs, f);
      x := DirectItem(fs, f, r, j);
    } else if j < DIRECT + fs.nindir {
      x := SingleItem(fs, f, r);
    } else {
      x := DoubleItem(fs, f, r);
    }
  }

  lemma SizePositive(fs: Fs, f: Inode)
    requires fs.Valid() && f.size >= 0 && LastBlock(fs, f) >= 0
    ensures f.size > 0
  {
    LastBlockBounds(fs, f);
    MulMono(0, LastBlock(fs, f), fs.Bsize());
  }

  // Why recovery comes to an end.

  function Weight(n: nat, k: Kind): nat {
    match k
    case DATA => 1
    case SINGLE => n + 1
    case DOUBLE => n * (n + 1) + 1
  }

  function Weights(n: nat, s: seq<Item>): nat {
    if s == [] then 0 else Weight(n, s[0].kind) + Weights(n, s[1..])
  }

  lemma {:induction false} WeightsConcat(n: nat, s: seq<Item>, t: seq<Item>)
    ensures Weights(n, s + t) == Weights(n, s) + Weights(n, t)
  {
    if s == [] {
      assert s + t == t;
    } else {
      assert (s + t)[1..] == s[1..] + t;
      WeightsConcat(n, s[1..], t);
    }
  }

  lemma WeightsInsert(n: nat, s: seq<Item>, x: Item)
    ensures Weights(n, Inserted(s, x)) == Weights(n, s) + Weight(n, x.kind)
  {
    var p := Place(s, x.blkno);
    assert s == s[..p] + s[p..];
    WeightsConcat(n, s[..p], s[p..]);
    WeightsConcat(n, s[..p] + [x], s[p..]);
    WeightsConcat(n, s[..p], [x]);
    assert [x][1..] == [];
  }

  lemma WeightsDelete(n: nat, s: seq<Item>, i: nat)
    requires i < |s|
    ensures Weights(n, s[..i] + s[i + 1..]) + Weight(n, s[i].kind) == Weights(n, s)
  {
    assert s == s[..i] + ([s[i]] + s[i + 1..]);
    WeightsConcat(n, s[..i], [s[i]] + s[i + 1..]);
    WeightsConcat(n, [s[i]], s[i + 1..]);
    WeightsConcat(n, s[..i], s[i + 1..]);
    assert [s[i]][1..] == [];
  }

  // Files being recovered, as the bytes written so far, by offset.

  function Write(m: map<int, int>, off: int, s: seq<int>): (w: map<int, int>)
    ensures forall o :: o in w <==> o in m || off <= o < off + |s|
    ensures forall o | o in w :: w[o] == if off <= o < off + |s| then s[o - off] else m[o]
  {
    if s == [] then m
    else Write(m, off, s[..|s| - 1])[off + |s| - 1 := s[|s| - 1]]
  }

  /** w is m but for the bytes of s, which begin at off. */
  ghost predicate Overlaid(m: map<int, int>, off: int, s: seq<int>, w: map<int, int>) {
    && (forall o :: o in w <==> o in m || off <= o < off + |s|)
    && (forall t | 0 <= t < |s| :: w[off + t] == s[t])
    && (forall o | o in m && !(off <= o < off + |s|) :: w[o] == m[o])
  }

  function Offset(b: int, j: int, t: int): int {
    j * b + t
  }

  /** Nothing but the file's own bytes has been written, each at its own offset. */
  ghost predicate Sound(fs: Fs, files: seq<Inode>, out: seq<map<int, int>>)
    requires fs.Valid()
  {
    && |out| == |files|
    && (forall r | 0 <= r < |files| :: files[r].Valid())
    && (forall r, o | 0 <= r < |files| && o in out[r] ::
          o in Contents(fs, files[r]) && out[r][o] == Contents(fs, files[r])[o])
  }

  /** All of block j of file r has been written. */
  ghost predicate Done(fs: Fs, files: seq<Inode>, out: seq<map<int, int>>, r: nat, j: int)
    requires fs.Valid() && r < |files| == |out|
  {
    forall t | 0 <= t < Count(fs, files[r], j) :: Offset(fs.Bsize(), j, t) in out[r]
  }

  /** File r has a block j, but that, or a pointer block above it, is not on the tape. */
  ghost predicate Missing(fs: Fs, files: seq<Inode>, tape: seq<int>, r: int, j: int)
    requires fs.Valid()
  {
    && 0 <= r < |files| && files[r].Valid() && Phys(fs, files[r], j) != 0
    && exists x :: Legit(fs, files, x) && Covers(fs.nindir, x, r, j) && x.blkno !in tape
  }

  ghost predicate Awaited(n: nat, items: seq<Item>, r: nat, j: int) {
    exists x :: x in items && Covers(n, x, r, j)
  }

  /** Every block of the first k files, where they are taken on, is written, awaited or missing. */
  ghost predicate Settled(fs: Fs, files: seq<Inode>, k: int, tape: seq<int>, items: seq<Item>, out: seq<map<int, int>>)
    requires fs.Valid() && k <= |files| == |out| && forall r | 0 <= r < |files| :: files[r].Valid()
  {
    forall r: nat, j | r < k && Wanted(files[r]) && Phys(fs, files[r], j) != 0 ::
      Done(fs, files, out, r, j) || Awaited(fs.nindir, items, r, j) || Missing(fs, files, tape, r, j)
  }

  /** The items are parts of the files, apart from each other, in order. */
  ghost predicate Plan(fs: Fs, files: seq<Inode>, items: seq<Item>)
    requires fs.Valid()
  {
    && Ordered(items) && AllApart(fs.nindir, items)
    && forall x | x in items :: Legit(fs, files, x) && Plain(fs, files[x.req])
  }

  /** Byte t of a data item's block is the byte of the file at its offset. */
  lemma DataByte(fs: Fs, f: Inode, x: Item, t: nat)
    requires fs.Valid() && Plain(fs, f) && x.blkno != 0 && 0 <= x.bindex
    requires x.blkno == Phys(fs, f, x.bindex) && x.count == Count(fs, f, x.bindex) && t < x.count
    ensures 0 <= x.count <= |Bytes(fs.block(x.blkno))|
    ensures var o := x.bindex * fs.Bsize() + t;
      o in Contents(fs, f) && Contents(fs, f)[o] == Bytes(fs.block(x.blkno))[t]
  {
    hide Phys, LastBlock, Residual, Bytes;
    CountBounds(fs, f, x.bindex);
    CountIsSize(fs, f, x.bindex, t);
    MulMono(0, x.bindex, fs.Bsize());
  }

  lemma CountBounds(fs: Fs, f: Inode, j: int)
    requires fs.Valid() && f.size >= 0
    ensures 0 < Count(fs, f, j) <= fs.Bsize() && forall b :: |Bytes(fs.block(b))| == fs.Bsize()
  {
    LastBlockBounds(fs, f);
  }

  /** Writing a data item writes bytes of the file only. */
  lemma WriteSound(fs: Fs, files: seq<Inode>, out: seq<map<int, int>>, x: Item)
    requires fs.Valid() && Sound(fs, files, out)
    requires Legit(fs, files, x) && x.kind == DATA && Plain(fs, files[x.req])
    ensures 0 <= x.count <= |Bytes(fs.block(x.blkno))|
    ensures var m := Write(out[x.req], x.bindex * fs.Bsize(), Bytes(fs.block(x.blkno))[..x.count]);
      Sound(fs, files, out[x.req := m])
  {
    hide Write, Contents, Bytes, Phys, Count, Plain;
    var f, off := files[x.req], x.bindex * fs.Bsize();
    PlainSize(fs, f);
    CountBounds(fs, f, x.bindex);
    var s := Bytes(fs.block(x.blkno))[..x.count];
    var m := Write(out[x.req], off, s);
    forall o | o in m
      ensures o in Contents(fs, f) && m[o] == Contents(fs, f)[o]
    {
      if off <= o < off + |s| {
        DataByte(fs, f, x, o - off);
      } else {
        assert o in out[x.req];
      }
    }
  }

  lemma PlainSize(fs: Fs, f: Inode)
    requires fs.Valid() && Plain(fs, f)
    ensures f.size >= 0
  {
  }

  /** ... and settles its block. */
  lemma WriteSettles(fs: Fs, files: seq<Inode>, k: int, tape: seq<int>, items: seq<Item>, i: nat, out: seq<map<int,
                     int>>, m: map<int, int>)
    requires fs.Valid() && i < |items| && Legit(fs, files, items[i]) && items[i].kind == DATA
    requires k <= |files| == |out| && forall r | 0 <= r < |files| :: files[r].Valid()
    requires Settled(fs, files, k, tape, items, out)
    requires var x := items[i];
      0 <= x.count <= |Bytes(fs.block(x.blkno))| &&
      m == Write(out[x.req], x.bindex * fs.Bsize(), Bytes(fs.block(x.blkno))[..x.count])
    ensures Settled(fs, files, k, tape, items[..i] + items[i + 1..], out[items[i].req := m])
  {
    var x := items[i];
    var out' := out[x.req := m];
    var items' := items[..i] + items[i + 1..];
    forall r: nat, j | r < k && Wanted(files[r]) && Phys(fs, files[r], j) != 0
      ensures Done(fs, files, out', r, j) || Awaited(fs.nindir, items', r, j) || Missing(fs, files, tape, r, j)
    {
      if Done(fs, files, out, r, j) {
        forall t | 0 <= t < Count(fs, files[r], j) ensures Offset(fs.Bsize(), j, t) in out'[r] {
          assert Offset(fs.Bsize(), j, t) in out[r];
        }
      } else if y :| y in items && Covers(fs.nindir, y, r, j) {
        if y == x {
          assert Done(fs, files, out', r, j);
        } else {
          RemovedHas(items, i, y);
        }
      }
    }
  }

  lemma RemovedHas(items: seq<Item>, i: nat, y: Item)
    requires i < |items| && y in items && y != items[i]
    ensures y in items[..i] + items[i + 1..]
  {
    var t := items[..i] + items[i + 1..];
    var k :| 0 <= k < |items| && items[k] == y;
    assert y == if k < i then t[k] else t[k - 1];
  }

  /** An item whose block is not on the tape leaves what it stands for missing. */
  lemma DropSettles(fs: Fs, files: seq<Inode>, k: int, tape: seq<int>, items: seq<Item>, i: nat, out: seq<map<int,
                    int>>)
    requires fs.Valid() && i < |items| && Legit(fs, files, items[i]) && items[i].blkno !in tape
    requires k <= |files| == |out| && forall r | 0 <= r < |files| :: files[r].Valid()
    requires Settled(fs, files, k, tape, items, out)
    ensures Settled(fs, files, k, tape, items[..i] + items[i + 1..], out)
  {
    var items' := items[..i] + items[i + 1..];
    forall r: nat, j | r < k && Wanted(files[r]) && Phys(fs, files[r], j) != 0
      ensures Done(fs, files, out, r, j) || Awaited(fs.nindir, items', r, j) || Missing(fs, files, tape, r, j)
    {
      if !Done(fs, files, out, r, j) && Awaited(fs.nindir, items, r, j) {
        var y :| y in items && Covers(fs.nindir, y, r, j);
        if y != items[i] {
          RemovedHas(items, i, y);
        }
      }
    }
  }

  /** A pointer item may go once its children have come. */
  lemma ExpandSettles(fs: Fs, files: seq<Inode>, k: int, tape: seq<int>, before: seq<Item>, items: seq<Item>, i: nat,
                      out: seq<map<int, int>>)
    requires fs.Valid() && i < |items| && Legit(fs, files, items[i]) && items[i].kind != DATA
    requires k <= |files| == |out| && forall r | 0 <= r < |files| :: files[r].Valid()
    requires Settled(fs, files, k, tape, before, out)
    requires forall y | y in before :: y in items
    requires forall t | 0 <= t < fs.nindir && Entry(fs, items[i].blkno, t) != 0 ::
      Child(fs, files, items[i], t) in items
    ensures Settled(fs, files, k, tape, items[..i] + items[i + 1..], out)
  {
    var x := items[i];
    var items' := items[..i] + items[i + 1..];
    forall r: nat, j | r < k && Wanted(files[r]) && Phys(fs, files[r], j) != 0
      ensures Done(fs, files, out, r, j) || Awaited(fs.nindir, items', r, j) || Missing(fs, files, tape, r, j)
    {
      if !Done(fs, files, out, r, j) && Awaited(fs.nindir, before, r, j) {
        var y :| y in before && Covers(fs.nindir, y, r, j);
        if y == x {
          var t := ChildCovers(fs, files, x, j);
          y := Child(fs, files, x, t);
        }
        RemovedHas(items, i, y);
        assert y in items' && Covers(fs.nindir, y, r, j);
      }
    }
  }

  /** When nothing is awaited and nothing of a file is missing, it has all its bytes and no others. */
  lemma SettledIsRecovered(fs: Fs, files: seq<Inode>, k: int, tape: seq<int>, out: seq<map<int, int>>, r: nat)
    requires fs.Valid() && Sound(fs, files, out) && k <= |files| && Settled(fs, files, k, tape, [], out)
    requires r < k && Plain(fs, files[r])
    requires forall j :: !Missing(fs, files, tape, r, j)
    ensures out[r] == Contents(fs, files[r])
  {
    var f, b := files[r], fs.Bsize();
    forall o | o in Contents(fs, f)
      ensures o in out[r]
    {
      var j, t := o / b, o % b;
      DivMod(o, b);
      CountIsSize(fs, f, j, t);
      assert Done(fs, files, out, r, j);
      assert Offset(b, j, t) in out[r];
    }
  }
}
