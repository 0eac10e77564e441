/** The items frec starts with: those of the inodes that were requested. */
module DumpRoots {
  import opened DumpDisk
  import opened DumpList
  import opened DumpPlan

  /** The place of a root in the inode's addresses. */
  function Stage(x: Item): int {
    match x.kind
    case DATA => x.bindex
    case SINGLE => DIRECT
    case DOUBLE => DIRECT + 1
  }

  function RootAt(fs: Fs, f: Inode, r: nat, i: nat): Item
    requires fs.Valid() && f.Valid() && i < NADDR - 1
  {
    if i < DIRECT then DirectItem(fs, f, r, i) else if i == DIRECT then SingleItem(fs, f, r) else DoubleItem(fs, f, r)
  }

  /** Whether address i is taken for a root. */
  predicate Taking(f: Inode, i: nat)
    requires f.Valid() && i < NADDR - 1
  {
    f.addr[i] != 0 && (i < DIRECT ==> f.size > 0)
  }

  lemma RootStage(fs: Fs, f: Inode, r: nat, x: Item)
    requires fs.Valid() && f.Valid() && Wanted(f)
    ensures Root(fs, f, r, x) <==> 0 <= Stage(x) < NADDR - 1 && Taking(f, Stage(x)) && x == RootAt(fs, f, r, Stage(x))
  {
  }

  lemma RootAtStage(fs: Fs, f: Inode, r: nat, i: nat)
    requires fs.Valid() && f.Valid() && i < NADDR - 1
    ensures Stage(RootAt(fs, f, r, i)) == i && RootAt(fs, f, r, i).req == r
  {
  }

  ghost predicate Before(fs: Fs, files: seq<Inode>, k: nat, x: Item)
    requires fs.Valid() && k <= |files| && forall r | 0 <= r < |files| :: files[r].Valid()
  {
    x.req < k && Root(fs, files[x.req], x.req, x)
  }

  /** The items are the roots of the first k files, and those of the next up to stage i; they are
      apart from each other and in order. */
  ghost predicate Partial(fs: Fs, files: seq<Inode>, k: nat, i: int, items: seq<Item>)
    requires fs.Valid() && k <= |files| && forall r | 0 <= r < |files| :: files[r].Valid()
  {
    && Ordered(items) && AllApart(fs.nindir, items)
    && forall x :: x in items <==>
        Before(fs, files, k, x) || (x.req == k < |files| && Root(fs, files[k], k, x) && Stage(x) < i)
  }

  ghost predicate Rooted(fs: Fs, files: seq<Inode>, k: nat, items: seq<Item>)
    requires fs.Valid() && k <= |files| && forall r | 0 <= r < |files| :: files[r].Valid()
  {
    Partial(fs, files, k, 0, items)
  }

  lemma PartialTaken(fs: Fs, files: seq<Inode>, k: nat, i: nat, items: seq<Item>)
    requires fs.Valid() && k < |files| && forall r | 0 <= r < |files| :: files[r].Valid()
    requires Wanted(files[k]) && i < NADDR - 1 && Taking(files[k], i) && Partial(fs, files, k, i, items)
    ensures Partial(fs, files, k, i + 1, Inserted(items, RootAt(fs, files[k], k, i)))
  {
    hide Ordered, AllApart, Taking, Inserted, RootAt, Wanted, Stage, Root;
    var f := files[k];
    var x := RootAt(fs, f, k, i);
    RootAtStage(fs, f, k, i);
    RootStage(fs, f, k, x);
    forall y | y in items
      ensures Apart(fs.nindir, x, y)
    {
      if y.req == k {
        RootsApart(fs, f, k, x, y);
      }
    }
    ApartInsert(fs.nindir, items, x);
    InsertedOrdered(items, x);
    InsertedHas(items, x);
    forall y
      ensures y in Inserted(items, x) <==>
        Before(fs, files, k, y) || (y.req == k && Root(fs, f, k, y) && Stage(y) < i + 1)
    {
      RootStage(fs, f, k, y);
    }
  }

  lemma PartialSkipped(fs: Fs, files: seq<Inode>, k: nat, i: nat, items: seq<Item>)
    requires fs.Valid() && k < |files| && forall r | 0 <= r < |files| :: files[r].Valid()
    requires Wanted(files[k]) && i < NADDR - 1 && !Taking(files[k], i) && Partial(fs, files, k, i, items)
    ensures Partial(fs, files, k, i + 1, items)
  {
    hide Ordered, AllApart, Taking, Wanted, Stage, Root;
    var f := files[k];
    forall y
      ensures y in items <==>
        Before(fs, files, k, y) || (y.req == k && Root(fs, f, k, y) && Stage(y) < i + 1)
    {
      RootStage(fs, f, k, y);
    }
  }

  /** After the last stage, or for a file frec does not take on, the next file is done. */
  lemma RootedNext(fs: Fs, files: seq<Inode>, k: nat, i: int, items: seq<Item>)
    requires fs.Valid() && k < |files| && forall r | 0 <= r < |files| :: files[r].Valid()
    requires Partial(fs, files, k, i, items) && (Wanted(files[k]) ==> i >= NADDR - 1)
    ensures Rooted(fs, files, k + 1, items)
  {
    hide Ordered, AllApart, Taking, Stage, Root;
    var f := files[k];
    forall y
      ensures y in items <==>
        Before(fs, files, k + 1, y) || (y.req == k + 1 < |files| && Root(fs, files[k + 1], k + 1, y) && Stage(y) < 0)
    {
      if Wanted(f) {
        RootStage(fs, f, k, y);
      } else {
        NotWanted(fs, f, k, y);
      }
      if k + 1 < |files| {
        StagePositive(fs, files[k + 1], k + 1, y);
      }
      if k < |files| && y.req == k {
        StagePositive(fs, files[k], k, y);
      }
    }
  }

  lemma NotWanted(fs: Fs, f: Inode, k: nat, y: Item)
    requires fs.Valid() && f.Valid() && !Wanted(f)
    ensures !Root(fs, f, k, y)
  {
  }

  lemma StagePositive(fs: Fs, f: Inode, k: nat, y: Item)
    requires fs.Valid() && f.Valid()
    ensures Root(fs, f, k, y) ==> Stage(y) >= 0
  {
  }

  lemma RootedNone(fs: Fs, files: seq<Inode>)
    requires fs.Valid() && forall r | 0 <= r < |files| :: files[r].Valid()
    ensures Rooted(fs, files, 0, [])
  {
    forall y: Item
      ensures !(y.req == 0 < |files| && Root(fs, files[0], 0, y) && Stage(y) < 0)
    {
    }
  }

  /** Every file that frec takes on is such that it can be recovered. */
  ghost predicate Recoverable(fs: Fs, files: seq<Inode>)
    requires fs.Valid() && forall r | 0 <= r < |files| :: files[r].Valid()
  {
    forall r | 0 <= r < |files| && Wanted(files[r]) :: Plain(fs, files[r]) && DirectOk(fs, files[r])
  }

  /** The roots are a plan, and account for all blocks of their files. */
  lemma RootedIsPlan(fs: Fs, files: seq<Inode>, k: nat, items: seq<Item>)
    requires fs.Valid() && k <= |files| && forall r | 0 <= r < |files| :: files[r].Valid()
    requires Rooted(fs, files, k, items) && Recoverable(fs, files)
    ensures Plan(fs, files, items)
  {
    hide Ordered, AllApart, Stage, Root, Plain, DirectOk, Legit, Wanted;
    forall x | x in items
      ensures Legit(fs, files, x) && x.req < |files| && Plain(fs, files[x.req])
    {
      RootedItem(fs, files, k, items, x);
      RootLegit(fs, files, x.req, x);
    }
  }

  lemma RootedItem(fs: Fs, files: seq<Inode>, k: nat, items: seq<Item>, x: Item)
    requires fs.Valid() && k <= |files| && forall r | 0 <= r < |files| :: files[r].Valid()
    requires Rooted(fs, files, k, items) && x in items
    ensures x.req < k && Root(fs, files[x.req], x.req, x) && Wanted(files[x.req])
  {
  }

  lemma RootedSettles(fs: Fs, files: seq<Inode>, k: nat, tape: seq<int>, items: seq<Item>, out: seq<map<int, int>>)
    requires fs.Valid() && k <= |files| == |out| && forall r | 0 <= r < |files| :: files[r].Valid()
    requires Rooted(fs, files, k, items) && Recoverable(fs, files)
    ensures Settled(fs, files, k, tape, items, out)
  {
    hide Ordered, AllApart, Stage, Root, Plain, DirectOk, Wanted, Phys;
    forall r: nat, j | r < k && Wanted(files[r]) && Phys(fs, files[r], j) != 0
      ensures Awaited(fs.nindir, items, r, j)
    {
      var x := RootCovers(fs, files[r], r, j);
      assert x.req == r;
      assert Before(fs, files, k, x);
    }
  }

  lemma {:induction false} RemainingPositive(fs: Fs, f: Inode, i: nat)
    requires fs.Valid() && f.Valid() && i <= DIRECT
    ensures f.size > 0 <==> Remaining(fs, f, i) > 0
    ensures i == 0 ==> Remaining(fs, f, i) == f.size
  {
    if i > 0 {
      RemainingPositive(fs, f, i - 1);
    }
  }

  /** A file without a size has no direct roots. */
  lemma {:induction false} PartialEmpty(fs: Fs, files: seq<Inode>, k: nat, i: nat, items: seq<Item>)
    requires fs.Valid() && k < |files| && forall r | 0 <= r < |files| :: files[r].Valid()
    requires Wanted(files[k]) && i <= DIRECT && files[k].size <= 0 && Partial(fs, files, k, i, items)
    ensures Partial(fs, files, k, DIRECT, items)
    decreases DIRECT - i
  {
    hide Partial;
    if i < DIRECT {
      PartialSkipped(fs, files, k, i, items);
      PartialEmpty(fs, files, k, i + 1, items);
    }
  }
}
