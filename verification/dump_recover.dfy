/** frec: the index, the inode list, and the loop that recovers the pending blocks. */
module DumpRecover {
  import opened DumpDisk
  import opened DumpTape
  import opened DumpIndex
  import opened DumpCollect
  import opened DumpList
  import opened DumpPlan
  import opened DumpExpand
  import opened DumpRequests
  import opened DumpRoots

  /** No pending block is the block last read. */
  ghost predicate Clear(items: seq<Item>, dumped: seq<int>, curb: int)
    requires curb < |dumped|
  {
    curb >= 0 ==> forall y | y in items :: y.blkno != dumped[curb]
  }

  ghost predicate IndexAt(records: seq<Record>, nindir: nat, list: seq<int>) {
    Sized(Flat(records), nindir) && list <= Flat(Flat(records))
  }

  ghost predicate DataAt(fs: Fs, records: seq<Record>, start: nat, list: seq<int>) {
    start <= |records| && Blocks(fs, list) <= Flat(records[start..])
  }

  /** A request, with what is noted of its file. */
  datatype Ireq = Ireq(inum: int, lastblk: int, residual: int)

  /** The notes on the files that items belong to are right. */
  ghost predicate Noted(fs: Fs, files: seq<Inode>, reqs: seq<Ireq>, items: seq<Item>)
    requires fs.Valid()
  {
    forall x | x in items :: NotedAt(fs, files, reqs, x.req)
  }

  ghost predicate NotedAt(fs: Fs, files: seq<Inode>, reqs: seq<Ireq>, r: nat)
    requires fs.Valid()
  {
    r < |files| == |reqs| && reqs[r].lastblk == LastBlock(fs, files[r]) && reqs[r].residual == Residual(fs, files[r])
  }

  /** Nothing is pending, and nothing has been written, for the requests from k on. */
  ghost predicate Untouched(items: seq<Item>, out: seq<map<int, int>>, k: int) {
    && (forall x | x in items :: x.req < k)
    && (forall r | 0 <= r < |out| && k <= r :: out[r] == map[])
  }

  lemma StillUntouched(items: seq<Item>, rest: seq<Item>, out: seq<map<int, int>>, k: int, x: Item, m: map<int, int>)
    requires Untouched(items, out, k) && x in items && x.req < |out|
    requires forall y | y in rest :: y in items || y.req == x.req
    ensures Untouched(rest, out, k) && Untouched(rest, out[x.req := m], k)
  {
  }

  /** How things stand while the blocks are recovered. */
  ghost predicate Progress(fs: Fs, files: seq<Inode>, k: int, dumped: seq<int>, curb: int, reqs: seq<Ireq>,
                           items: seq<Item>,
                           out: seq<map<int, int>>)
  {
    && fs.Valid() && k <= |files| == |out| && (forall r | 0 <= r < |files| :: files[r].Valid()) && curb < |dumped|
    && OnceEach(fs, files) && Plan(fs, files, items) && Clear(items, dumped, curb) && Noted(fs, files, reqs, items)
    && Sound(fs, files, out) && Settled(fs, files, k, dumped, items, out) && Untouched(items, out, k)
  }

  function Without(items: seq<Item>, i: nat): seq<Item>
    requires i < |items|
  {
    items[..i] + items[i + 1..]
  }

  /** The block of item i is not on the tape. */
  lemma ProgressDropped(fs: Fs, files: seq<Inode>, k: int, dumped: seq<int>, curb: int, curb': int, reqs: seq<Ireq>,
                        items: seq<Item>,
                        out: seq<map<int, int>>, i: nat)
    requires Progress(fs, files, k, dumped, curb, reqs, items, out) && i < |items| && items[i].blkno !in dumped
    requires curb' == curb || curb' == -1
    ensures Progress(fs, files, k, dumped, curb', reqs, Without(items, i), out)
    ensures Weights(fs.nindir, Without(items, i)) < Weights(fs.nindir, items)
  {
    hide OnceEach, Settled, Sound, Legit, Plain, AllApart, Ordered, Untouched;
    DropSettles(fs, files, k, dumped, items, i, out);
    PlanDelete(fs, files, items, i);
    LegitReq(fs, files, items[i]);
    StillUntouched(items, Without(items, i), out, k, items[i], map[]);
  }

  /** Item i's data has been written. */
  lemma ProgressWritten(fs: Fs, files: seq<Inode>, k: int, dumped: seq<int>, curb: int, curb': int, reqs: seq<Ireq>,
                        items: seq<Item>,
                        out: seq<map<int, int>>, i: nat)
    requires Progress(fs, files, k, dumped, curb, reqs, items, out) && i < |items| && items[i].kind == DATA
    requires 0 <= curb' < |dumped| && dumped[curb'] == items[i].blkno
    ensures var x := items[i];
      0 <= x.count <= |Bytes(fs.block(x.blkno))| &&
      var m := Write(out[x.req], x.bindex * fs.Bsize(), Bytes(fs.block(x.blkno))[..x.count]);
      Progress(fs, files, k, dumped, curb', reqs, Without(items, i), out[x.req := m])
    ensures Weights(fs.nindir, Without(items, i)) < Weights(fs.nindir, items)
  {
    hide OnceEach, Settled, Sound, Legit, Plain, AllApart, Ordered, Write, Bytes, Untouched;
    var x := items[i];
    LegitReq(fs, files, x);
    WriteSound(fs, files, out, x);
    var m := Write(out[x.req], x.bindex * fs.Bsize(), Bytes(fs.block(x.blkno))[..x.count]);
    WriteSettles(fs, files, k, dumped, items, i, out, m);
    PlanDelete(fs, files, items, i);
    StillUntouched(items, Without(items, i), out, k, x, m);
    OthersElsewhere(fs, files, Without(items, i), x);
  }

  /** The children of item i have come. */
  lemma ProgressExpanded(fs: Fs, files: seq<Inode>, k: int, dumped: seq<int>, curb: int, curb': int, reqs: seq<Ireq>,
                         before: seq<Item>,
                         items: seq<Item>, out: seq<map<int, int>>, i: nat)
    requires Progress(fs, files, k, dumped, curb, reqs, before, out) && i < |items|
    requires 0 <= curb' < |dumped| && dumped[curb'] == items[i].blkno
    requires Expandable(fs, files, before, items[i]) && Expanding(fs, files, before, items, items[i], fs.nindir)
    ensures Progress(fs, files, k, dumped, curb', reqs, Without(items, i), out)
    ensures Weights(fs.nindir, Without(items, i)) < Weights(fs.nindir, before)
  {
    hide OnceEach, Settled, Sound, Legit, Plain, AllApart, AllApartBut, Ordered, Child, IsChild, Weights, Untouched;
    ExpandSettles(fs, files, k, dumped, before, items, i, out);
    ExpandDone(fs, files, before, items, i);
    StillUntouched(before, Without(items, i), out, k, items[i], map[]);
    OthersElsewhere(fs, files, Without(items, i), items[i]);
  }

  class Frec {
    ghost const fs: Fs
    ghost const inums: seq<int>    // the inodes requested, by number
    ghost const files: seq<Inode>
    ghost const dumped: seq<int>   // the numbers finc wrote
    const reader: Reader
    const nBlks: nat
    const nindir: nat
    const fstblk: int
    const list: Pending
    var reqs: seq<Ireq>
    var blklist: seq<int>
    var out: seq<map<int, int>>

    constructor (reader: Reader, nBlks: nat, nindir: nat, fstblk: int, inums: seq<int>, ghost fs: Fs,
                 ghost dumped: seq<int>)
      requires fs.Valid() && fs.Inopb() > 0
      ensures this.reader == reader && this.nBlks == nBlks && this.nindir == nindir && this.fstblk == fstblk
      ensures this.fs == fs && this.dumped == dumped && this.inums == inums && files == FilesOf(fs, inums)
      ensures |reqs| == |inums| && forall r | 0 <= r < |inums| :: reqs[r].inum == inums[r]
      ensures list.Valid() && list.Items() == [] && fresh(list) && fresh(list.nodes)
      ensures out == seq(|inums|, _ => map[])
    {
      this.reader, this.nBlks, this.nindir, this.fstblk := reader, nBlks, nindir, fstblk;
      this.fs, this.dumped, this.inums, this.files := fs, dumped, inums, FilesOf(fs, inums);
      list := new Pending();
      reqs := seq(|inums|, r requires 0 <= r < |inums| => Ireq(inums[r], 0, 0));
      blklist := [];
      out := seq(|inums|, _ => map[]);
    }

    /** The record at which frec takes the data to begin. */
    function DataStart(): nat
      requires nBlks > 0 && nindir > 0 && reader.factor > 0
    {
      FrecRecords(nBlks, nindir, reader.factor)
    }

    /** What finc wrote is where frec looks for it. */
    ghost predicate OnTape() {
      && fs.Valid() && nindir == fs.nindir && fstblk == fs.fstblk && fs.Inopb() > 0
      && nBlks == |dumped| > 0 && Ascending(dumped) && reader.factor > 0
      && IndexAt(reader.records, nindir, dumped) && DataAt(fs, reader.records, DataStart(), dumped)
    }

    /** The index has been read, and the blocks up to curb. */
    ghost predicate At()
      reads this`blklist, reader
    {
      && OnTape() && reader.Valid() && reader.start == DataStart() && blklist == dumped
      && reader.curb + 1 == |reader.Taken()| <= |dumped|
    }

    /** Mounts the tape again and reads its index. */
    method Newtp()
      requires OnTape() && reader.Valid()
      modifies reader, this`blklist
      ensures At() && reader.curb == -1 && reader.Taken() == [] && reader.pos == reader.start
    {
      hide Flat, Sized, Reader.Taken, Ascending, FrecRecords, Fs.Valid;
      reader.Rewind();
      assert reader.records[0..] == reader.records;
      var ok, l := ReadIndex(reader, nBlks, nindir);
      assert l == dumped by {
        PrefixesAgree(l, dumped, Flat(Flat(reader.records)));
      }
      blklist := l;
    }

    lemma PrefixesAgree(a: seq<int>, b: seq<int>, c: seq<int>)
      requires a <= c && b <= c && |a| == |b|
      ensures a == b
    {
    }

    /** getblk, where the tape has another block of the dump. */
    method Next() returns (b: Block)
      requires At() && reader.curb + 1 < |dumped|
      modifies reader
      ensures At() && reader.curb == old(reader.curb) + 1 && b == fs.block(dumped[reader.curb])
    {
      hide Flat, Sized, Reader.Taken, Ascending, FrecRecords, Fs.Valid;
      ghost var taken := reader.Taken();
      var ok;
      ok, b := reader.Getblk();
      assert reader.Section()[|taken|] == b;
      assert Blocks(fs, dumped)[|taken|] == b;
    }

    /** Frecover up to the block: rewinds when the block may lie behind, looks it up in the index,
        and reads on until it comes by. */
    method Find(blkno: int) returns (found: bool, b: Block)
      requires At() && (reader.curb >= 0 ==> dumped[reader.curb] != blkno)
      modifies reader, this`blklist
      ensures At() && found == (blkno in dumped)
      ensures found ==> reader.curb >= 0 && dumped[reader.curb] == blkno && b == fs.block(blkno)
      ensures !found ==> reader.curb == -1 || reader.curb == old(reader.curb)
    {
      hide Flat, Sized, Reader.Taken, FrecRecords, Fs.Valid, OnTape;
      var current: int := *;
      if reader.curb >= 0 {
        current := blklist[reader.curb];
      }
      if blkno < current {
        Newtp();
      }
      ghost var from := reader.curb;
      var pa := 0;
      Opened();
      while pa < nBlks && blklist[pa] != blkno
        invariant 0 <= pa <= nBlks && blkno !in dumped[..pa]
      {
        assert dumped[..pa + 1] == dumped[..pa] + [dumped[pa]];
        pa := pa + 1;
      }
      if pa == nBlks {
        assert dumped[..pa] == dumped;
        return false, [];
      }
      b := Next();
      while blklist[reader.curb] != blkno
        invariant At() && from < reader.curb <= pa && b == fs.block(dumped[reader.curb])
        decreases pa - reader.curb
      {
        b := Next();
      }
      found := true;
    }

    lemma Opened()
      requires OnTape()
      ensures nBlks == |dumped| > 0 && Ascending(dumped)
    {
    }

    /** Writes the block at its place in the recovered file. */
    method Datablk(x: Item, b: Block)
      requires x.req < |out| && 0 <= x.count <= |Bytes(b)|
      modifies this`out
      ensures |out| == |old(out)| && forall r | 0 <= r < |out| && r != x.req :: out[r] == old(out)[r]
      ensures Overlaid(old(out)[x.req], x.bindex * (4 * nindir), Bytes(b)[..x.count], out[x.req])
    {
      out := out[x.req := Write(out[x.req], x.bindex * (4 * nindir), Bytes(b)[..x.count])];
    }

    lemma Overwritten(was: seq<map<int, int>>, r: nat, off: int, s: seq<int>)
      requires r < |was| == |out| && (forall i | 0 <= i < |out| && i != r :: out[i] == was[i])
      requires Overlaid(was[r], off, s, out[r])
      ensures out == was[r := Write(was[r], off, s)]
    {
      assert out[r] == Write(was[r], off, s);
    }

    /** The item for entry i of x's block. */
    method ChildItem(x: Item, e: int, i: nat) returns (c: Item, last: bool)
      requires fs.Valid() && nindir == fs.nindir && i < nindir && x.kind != DATA && x.req < |files| == |reqs|
      requires reqs[x.req].lastblk == LastBlock(fs, files[x.req]) && reqs[x.req].residual == Residual(fs, files[x.req])
      requires e == Entry(fs, x.blkno, i)
      ensures c == Child(fs, files, x, i)
      ensures last ==> x.kind == SINGLE && x.bindex + i == LastBlock(fs, files[x.req])
    {
      last := false;
      if x.kind == SINGLE {
        last := x.bindex + i == reqs[x.req].lastblk;
        c := Item(DATA, x.req, e, if last then reqs[x.req].residual else 4 * nindir, x.bindex + i);
      } else {
        c := Item(SINGLE, x.req, e, 4 * nindir, x.bindex + i * nindir);
      }
    }

    /** Adds an item for every block pointed to, up to the last block of the file. */
    method Ptrblk(bp: Bdata, buf: Block, ghost i0: nat) returns (ghost i: nat)
      requires fs.Valid() && nindir == fs.nindir && list.Valid() && 1 <= i0 < |list.nodes| && bp == list.nodes[i0]
      requires Expandable(fs, files, list.Items(), bp.item) && buf == fs.block(bp.item.blkno)
      requires Noted(fs, files, reqs, list.Items())
      modifies list, list.nodes
      ensures list.Valid()
      ensures forall m | 0 <= m < |list.nodes| :: list.nodes[m] in old(list.nodes) || fresh(list.nodes[m])
      ensures 1 <= i < |list.nodes| && bp == list.nodes[i]
      ensures Expanding(fs, files, old(list.Items()), list.Items(), bp.item, fs.nindir)
    {
      hide Expandable, Expanding, Pending.Valid, Pending.Items, Inserted, Place, Noted, Legit, LastBlock, Residual;
      ghost var before, x := list.Items(), bp.item;
      ExpandStart(fs, files, before, x);
      ExpandableReq(before, x);
      i := i0;
      var t, done := 0, false;
      while t < nindir && !done
        invariant 0 <= t <= nindir && list.Valid()
        invariant forall m | 0 <= m < |list.nodes| :: list.nodes[m] in old(list.nodes) || fresh(list.nodes[m])
        invariant 1 <= i < |list.nodes| && bp == list.nodes[i]
        invariant Expanding(fs, files, before, list.Items(), x, t)
        invariant done ==> x.kind == SINGLE && x.bindex + t > LastBlock(fs, files[x.req])
        decreases nindir - t, !done
      {
        if buf[t] != 0 {
          var c;
          c, done := ChildItem(bp.item, buf[t], t);
          ExpandStep(fs, files, before, list.Items(), x, t);
          ghost var p := Place(list.Items(), c.blkno) + 1;
          var n := list.Addnod(c);
          i := if p <= i then i + 1 else i;
        } else {
          ExpandSkip(fs, files, before, list.Items(), x, t);
        }
        t := t + 1;
      }
      if t < nindir {
        ExpandEnds(fs, files, before, list.Items(), x, t);
      }
    }

    lemma ExpandableReq(items: seq<Item>, x: Item)
      requires fs.Valid() && Expandable(fs, files, items, x) && Noted(fs, files, reqs, items)
      ensures x.req < |files| == |reqs| && x.kind != DATA && x.blkno != 0
      ensures reqs[x.req].lastblk == LastBlock(fs, files[x.req]) && reqs[x.req].residual == Residual(fs, files[x.req])
    {
    }

    ghost predicate Running(k: int, items: seq<Item>)
      reads this, reader
    {
      At() && Progress(fs, files, k, dumped, reader.curb, reqs, items, out)
    }

    lemma ItemAt(bp: Bdata, i: nat)
      requires list.Valid() && 1 <= i < |list.nodes| && bp == list.nodes[i]
      ensures i - 1 < |list.Items()| && list.Items()[i - 1] == bp.item
    {
    }

    lemma HeadItem()
      requires list.Valid()
      ensures list.nodes[0].item.blkno == 0
    {
    }

    /** What is known of a pending item before its block is looked for. */
    lemma PendingItem(items: seq<Item>, i: nat, k: int)
      requires Running(k, items) && i < |items|
      ensures At() && Progress(fs, files, k, dumped, reader.curb, reqs, items, out) && nindir == fs.nindir && fs.Valid()
      ensures Noted(fs, files, reqs, items) && 4 * nindir == fs.Bsize()
      ensures items[i].req < |files| == |out| && items[i].blkno != 0 && reader.curb < |dumped|
      ensures reader.curb >= 0 ==> dumped[reader.curb] != items[i].blkno
      ensures items[i].kind != DATA ==> Expandable(fs, files, items, items[i])
    {
      hide AllApart, Ordered, Plain, OnceEach, Sound, Settled, Reader.Taken, Flat, Fs.Valid;
    }

    lemma AtCurb()
      requires At()
      ensures reader.curb < |dumped| && fs.Valid() && nindir == fs.nindir && 4 * nindir == fs.Bsize()
    {
    }

    lemma StillRunning(k: int, items: seq<Item>)
      requires At() && Progress(fs, files, k, dumped, reader.curb, reqs, items, out)
      ensures Running(k, items)
    {
    }

    /** Recovers the block of node i, if it is on the tape: data is written, pointers are followed
        up; the node itself can then go. */
    method Frecover(bp: Bdata, ghost i0: nat, ghost k: int) returns (found: bool, ghost i: nat)
      requires list.Valid() && Running(k, list.Items()) && i0 < |list.nodes| && bp == list.nodes[i0]
      modifies reader, this`blklist, this`out, list, list.nodes
      ensures list.Valid() && i < |list.nodes| && bp == list.nodes[i]
      ensures forall m | 0 <= m < |list.nodes| :: list.nodes[m] in old(list.nodes) || fresh(list.nodes[m])
      ensures i0 == 0 ==> i == 0 && !found && list.nodes == old(list.nodes) && list.Items() == old(list.Items())
      ensures i0 == 0 ==> Running(k, list.Items())
      ensures i0 > 0 ==> i > 0 && i - 1 < |list.Items()| && Running(k, Without(list.Items(), i - 1))
      ensures i0 > 0 ==> Weights(fs.nindir, Without(list.Items(), i - 1)) < Weights(fs.nindir, old(list.Items()))
      ensures i0 > 0 ==> found == (bp.item.blkno in dumped)
    {
      hide *;
      ghost var items, curb := list.Items(), reader.curb;
      i := i0;
      if i0 > 0 {
        ItemAt(bp, i0);
        PendingItem(items, i0 - 1, k);
      } else {
        HeadItem();
      }
      if bp.item.blkno == 0 {
        return false, i;
      }
      var b;
      found, b := Find(bp.item.blkno);
      AtCurb();
      if !found {
        ProgressDropped(fs, files, k, dumped, curb, reader.curb, reqs, items, out, i0 - 1);
      } else if bp.item.kind == DATA {
        ProgressWritten(fs, files, k, dumped, curb, reader.curb, reqs, items, out, i0 - 1);
        ghost var was := out;
        Datablk(bp.item, b);
        Overwritten(was, bp.item.req, bp.item.bindex * fs.Bsize(), Bytes(fs.block(bp.item.blkno))[..bp.item.count]);
      } else {
        i := Ptrblk(bp, b, i0);
        ItemAt(bp, i);
        ProgressExpanded(fs, files, k, dumped, curb, reader.curb, reqs, items, list.Items(), out, i - 1);
      }
      StillRunning(k, Without(list.Items(), i - 1));
    }

    /** Goes around the list until it is empty. */
    method Recover(ghost k: int)
      requires list.Valid() && Running(k, list.Items())
      modifies reader, this`blklist, this`out, list, list.nodes
      ensures list.Valid() && list.Items() == [] && Running(k, [])
    {
      hide *;
      list.Ends();
      var bp := list.head.rlink;
      ghost var i := if |list.nodes| > 1 then 1 else 0;
      while list.head.rlink != list.head
        invariant list.Valid() && Running(k, list.Items()) && 0 <= i < |list.nodes| && bp == list.nodes[i]
        invariant forall m | 0 <= m < |list.nodes| :: list.nodes[m] in old(list.nodes) || fresh(list.nodes[m])
        decreases Weights(fs.nindir, list.Items()), if i == 0 then 1 else 0
      {
        list.Ends();
        var found;
        found, i := Frecover(bp, i, k);
        list.Ends();
        NodeHead(i);
        if !found && bp == list.head {
          bp := bp.rlink;
          i := 1;
        } else {
          WithoutItem(list.Items(), i);
          bp := list.Delnode(bp, i);
          AroundWrap(list.nodes, i);
          i := Wrap(i, |list.nodes|);
        }
      }
      list.Ends();
    }

    lemma WithoutItem(items: seq<Item>, i: nat)
      requires 1 <= i <= |items|
      ensures Without(items, i - 1) == items[..i - 1] + items[i..]
    {
    }

    lemma AroundWrap(nodes: seq<Bdata>, i: nat)
      requires 0 < |nodes| && i <= |nodes|
      ensures var w := Wrap(i, |nodes|); 0 <= w < |nodes| && Around(nodes, i) == nodes[w]
    {
    }

    lemma NodeHead(i: nat)
      requires list.Valid() && i < |list.nodes|
      ensures list.nodes[i] == list.head <==> i == 0
    {
    }

    /** Everything that does not change. */
    ghost predicate Set() {
      && fs.Valid() && nindir == fs.nindir && fs.Inopb() > 0 && forall r | 0 <= r < |files| :: files[r].Valid()
    }

    /** The inode of request r: adds an item for each block it names. */
    method Saveblks(f: Inode, r: nat)
      requires Set() && list.Valid() && r < |files| == |reqs| && f == files[r] && (Wanted(f) ==> f.size >= 0)
      requires Rooted(fs, files, r, list.Items()) && Noted(fs, files, reqs, list.Items())
      modifies this`reqs, list, list.nodes
      ensures list.Valid()
      ensures forall m | 0 <= m < |list.nodes| :: list.nodes[m] in old(list.nodes) || fresh(list.nodes[m])
      ensures Rooted(fs, files, r + 1, list.Items()) && Noted(fs, files, reqs, list.Items())
      ensures |reqs| == |old(reqs)| && forall i | 0 <= i < |reqs| :: reqs[i].inum == old(reqs)[i].inum
    {
      hide Rooted, Partial, Noted, NotedAt, Pending.Valid, Pending.Items, Remaining, SavedCount, Taking, Wanted;
      Rootless(r);
      if f.mode == 0 || f.IsDir() || f.addr[NADDR - 1] != 0 {
        return;
      }
      var bsize := 4 * nindir;
      var size := f.size;
      NoteFile(r, (size + bsize - 1) / bsize - 1, if size % bsize == 0 then bsize else size % bsize);
      ghost var noted := reqs;
      RemainingPositive(fs, f, 0);
      var i := 0;
      while i < NADDR - 3 && size > 0
        invariant reqs == noted && 0 <= i <= DIRECT && list.Valid() && size == Remaining(fs, f, i)
        invariant forall m | 0 <= m < |list.nodes| :: list.nodes[m] in old(list.nodes) || fresh(list.nodes[m])
        invariant Partial(fs, files, r, i, list.Items()) && Noted(fs, files, reqs, list.Items())
      {
        SavedStep(f, r, i);
        RemainingPositive(fs, f, i);
        if f.addr[i] == 0 {
          PartialSkipped(fs, files, r, i, list.Items());
        } else {
          var count := size;
          if size > bsize {
            size := size - bsize;
            count := bsize;
          }
          AddRoot(r, i, Item(DATA, r, f.addr[i], count, i));
        }
        i := i + 1;
      }
      RemainingPositive(fs, f, i);
      if i < DIRECT {
        PartialEmpty(fs, files, r, i, list.Items());
      }
      AddIndirect(f, r);
    }

    lemma Rootless(r: nat)
      requires Set() && r < |files| && list.Valid() && Rooted(fs, files, r, list.Items())
      ensures Partial(fs, files, r, 0, list.Items())
      ensures !Wanted(files[r]) ==> Rooted(fs, files, r + 1, list.Items())
      ensures Wanted(files[r]) <==> files[r].mode != 0 && !files[r].IsDir() && files[r].addr[NADDR - 1] == 0
    {
      hide Partial, Pending.Valid, Pending.Items;
      if !Wanted(files[r]) {
        RootedNext(fs, files, r, 0, list.Items());
      }
    }

    /** The item for direct block i, and what is left after it. */
    lemma SavedStep(f: Inode, r: nat, i: nat)
      requires fs.Valid() && f.Valid() && i < DIRECT
      ensures var size, b := Remaining(fs, f, i), fs.Bsize();
        if f.addr[i] == 0 then Remaining(fs, f, i + 1) == size && !Taking(f, i)
        else
          && Remaining(fs, f, i + 1) == (if size > b then size - b else size)
          && RootAt(fs, f, r, i) == Item(DATA, r, f.addr[i], if size > b then b else size, i)
          && (f.size > 0 ==> Taking(f, i))
    {
    }

    method NoteFile(r: nat, lastblk: int, residual: int)
      requires Set() && list.Valid() && r < |files| == |reqs|
      requires Rooted(fs, files, r, list.Items()) && Noted(fs, files, reqs, list.Items())
      requires lastblk == LastBlock(fs, files[r]) && residual == Residual(fs, files[r])
      modifies this`reqs
      ensures Noted(fs, files, reqs, list.Items()) && NotedAt(fs, files, reqs, r)
      ensures |reqs| == |old(reqs)| && forall i | 0 <= i < |reqs| :: reqs[i].inum == old(reqs)[i].inum
    {
      hide Rooted, Pending.Valid, Pending.Items, Partial;
      reqs := reqs[r := Ireq(reqs[r].inum, lastblk, residual)];
      forall x | x in list.Items() ensures x.req < r {
        RootedItem(fs, files, r, list.Items(), x);
      }
    }

    /** Links in the root at stage i of request r. */
    method AddRoot(r: nat, i: nat, x: Item)
      requires Set() && list.Valid() && r < |files| && i < NADDR - 1 && Wanted(files[r]) && Taking(files[r], i)
      requires x == RootAt(fs, files[r], r, i) && Partial(fs, files, r, i, list.Items())
      requires Noted(fs, files, reqs, list.Items()) && NotedAt(fs, files, reqs, r)
      modifies list, list.nodes
      ensures list.Valid()
      ensures forall m | 0 <= m < |list.nodes| :: list.nodes[m] in old(list.nodes) || fresh(list.nodes[m])
      ensures Partial(fs, files, r, i + 1, list.Items()) && Noted(fs, files, reqs, list.Items())
    {
      hide Partial, Pending.Valid, Pending.Items, Inserted, Taking, RootAt, Wanted, NotedAt, Place;
      RootAtStage(fs, files[r], r, i);
      PartialTaken(fs, files, r, i, list.Items());
      InsertedHas(list.Items(), x);
      var n := list.Addnod(x);
    }

    /** The indirect blocks. */
    method AddIndirect(f: Inode, r: nat)
      requires Set() && list.Valid() && r < |files| && f == files[r] && Wanted(f)
      requires Partial(fs, files, r, DIRECT, list.Items())
      requires Noted(fs, files, reqs, list.Items()) && NotedAt(fs, files, reqs, r)
      modifies list, list.nodes
      ensures list.Valid()
      ensures forall m | 0 <= m < |list.nodes| :: list.nodes[m] in old(list.nodes) || fresh(list.nodes[m])
      ensures Rooted(fs, files, r + 1, list.Items()) && Noted(fs, files, reqs, list.Items())
    {
      hide Partial, Pending.Valid, Pending.Items, Noted, NotedAt, Rooted, Wanted;
      if f.addr[NADDR - 3] != 0 {
        AddRoot(r, NADDR - 3, Item(SINGLE, r, f.addr[NADDR - 3], 4 * nindir, DIRECT));
      } else {
        PartialSkipped(fs, files, r, DIRECT, list.Items());
      }
      if f.addr[NADDR - 2] != 0 {
        AddRoot(r, NADDR - 2, Item(DOUBLE, r, f.addr[NADDR - 2], 4 * nindir, DIRECT + nindir));
      } else {
        PartialSkipped(fs, files, r, DIRECT + 1, list.Items());
      }
      RootedNext(fs, files, r, NADDR - 1, list.Items());
    }

    /** Skips the boot block and reads the super block. */
    method Super()
      requires At() && reader.curb == -1 && reader.Taken() == [] && reader.pos == reader.start && |dumped| > 2
      modifies reader
      ensures At() && reader.curb == 1
    {
      hide Reader.Taken, OnTape, Reader.Valid;
      reader.Clrbuf();
      var boot := Next();
      var superblock := Next();
    }

    /** The requests are as the command line gave them, with notes. */
    ghost predicate Asked()
      reads this`reqs
    {
      Set() && files == FilesOf(fs, inums) && |reqs| == |files| &&
        forall r | 0 <= r < |reqs| :: reqs[r].inum == inums[r]
    }

    /** The inodes of a block of the inode list: takes up the requests for them. */
    method ScanBlock(b: Block, block: int, pi0: nat, ghost seen: seq<int>) returns (pi: nat)
      requires Asked() && Requests(fs, inums) && Recoverable(fs, files) && list.Valid()
      requires pi0 <= |reqs| && Waiting(fs.Inopb(), inums, seen, pi0) && b == fs.block(block + 2)
      requires AtMost(seen, block + 2)
      requires Rooted(fs, files, pi0, list.Items()) && Noted(fs, files, reqs, list.Items())
      modifies this`reqs, list, list.nodes
      ensures list.Valid()
      ensures forall m | 0 <= m < |list.nodes| :: list.nodes[m] in old(list.nodes) || fresh(list.nodes[m])
      ensures Asked() && pi0 <= pi <= |reqs| && Waiting(fs.Inopb(), inums, seen + [block + 2], pi)
      ensures Rooted(fs, files, pi, list.Items()) && Noted(fs, files, reqs, list.Items())
      ensures forall r | pi0 <= r < pi :: InoBlock(fs.Inopb(), inums[r]) == block + 2
    {
      hide Rooted, Noted, Pending.Valid, Pending.Items, Recoverable, Requests, InoBlock, FilesOf;
      var inopb := nindir / DINODE;
      var base := block * inopb;
      ghost var blk := block + 2;
      var curi := base;
      pi := pi0;
      var ipb := 0;
      WaitingStart(inopb, inums, seen, pi, blk, base);
      BlockSize(fs, blk);
      while ipb < inopb && pi < |reqs|
        invariant 0 <= ipb <= inopb && curi == base + ipb && pi0 <= pi <= |reqs| && Asked() && list.Valid()
        invariant forall m | 0 <= m < |list.nodes| :: list.nodes[m] in old(list.nodes) || fresh(list.nodes[m])
        invariant Rooted(fs, files, pi, list.Items()) && Noted(fs, files, reqs, list.Items())
        invariant Scanning(inopb, inums, seen, pi, blk, curi)
        invariant forall r | pi0 <= r < pi :: InoBlock(inopb, inums[r]) == blk
      {
        curi := curi + 1;
        if curi == reqs[pi].inum {
          RequestHere(fs, inums, files, pi, blk, base, ipb);
          Saveblks(InodeAt(b, ipb), pi);
          ScanTaken(fs, inums, seen, pi, blk, curi);
          pi := pi + 1;
        }
        ipb := ipb + 1;
      }
      ScanDone(inopb, inums, seen, pi, blk, base, curi);
    }

    /** The state between the blocks of the inode list. */
    ghost predicate Listing(pi: nat)
      reads this`reqs, this`blklist, reader, list, list.nodes
    {
      && Asked() && Requests(fs, inums) && Recoverable(fs, files) && list.Valid() && pi <= |reqs|
      && At() && Front(dumped, fstblk) && 1 <= reader.curb < |dumped| - 1 && dumped[reader.curb] < fstblk
      && Rooted(fs, files, pi, list.Items()) && Noted(fs, files, reqs, list.Items())
      && Waiting(fs.Inopb(), inums, dumped[2..reader.curb + 1], pi)
      && forall r | 0 <= r < pi :: InoBlock(fs.Inopb(), inums[r]) in dumped
    }

    /** The next block of the inode list. */
    method IlistBlock(pi0: nat) returns (block: int, pi: nat)
      requires Listing(pi0) && pi0 < |reqs| && dumped[reader.curb + 1] < fstblk
      modifies reader, this`reqs, list, list.nodes
      ensures forall m | 0 <= m < |list.nodes| :: list.nodes[m] in old(list.nodes) || fresh(list.nodes[m])
      ensures Listing(pi) && reader.curb == old(reader.curb) + 1 && block == dumped[reader.curb] - 2
    {
      hide Rooted, Noted, Pending.Valid, Pending.Items, Recoverable, Requests, InoBlock, At, FilesOf, Waiting, Set;
      ghost var seen := dumped[2..reader.curb + 1];
      SeenBelow(reader.curb, seen);
      var b := Next();
      AtList();
      block := blklist[reader.curb] - 2;
      pi := ScanBlock(b, block, pi0, seen);
      assert dumped[2..reader.curb + 1] == seen + [dumped[reader.curb]];
    }

    /** Reads the inode list from the tape and takes up the requests in order, up to the first whose
        block is not there. */
    method Ilist() returns (pi: nat)
      requires Listing(0) && reader.curb == 1
      modifies reader, this`reqs, list, list.nodes
      ensures Listing(pi) && Asked() && Waiting(fs.Inopb(), inums, dumped, pi)
      ensures forall m | 0 <= m < |list.nodes| :: list.nodes[m] in old(list.nodes) || fresh(list.nodes[m])
    {
      hide Listing, Waiting, Requests;
      var ilb := fstblk - 2;
      pi := 0;
      var block := 0;
      ListingFacts(0);
      while block < ilb && pi < |reqs|
        invariant Listing(pi) && 1 <= reader.curb < |dumped| - 1
        invariant forall m | 0 <= m < |list.nodes| :: list.nodes[m] in old(list.nodes) || fresh(list.nodes[m])
        invariant block == (if reader.curb == 1 then 0 else dumped[reader.curb] - 1) && dumped[reader.curb + 1] < fstblk
        decreases |dumped| - reader.curb
      {
        block, pi := IlistBlock(pi);
        ListingFacts(pi);
        if blklist[reader.curb + 1] >= fstblk {
          break;
        }
        block := block + 1;
      }
      ListingFacts(pi);
      if pi < |reqs| {
        AllSeen(fs, inums, dumped, reader.curb, pi);
      } else {
        NoneWaiting(fs.Inopb(), inums, dumped, pi);
      }
    }

    lemma ListingFacts(pi: nat)
      requires Listing(pi)
      ensures fs.Valid() && fs.Inopb() > 0 && Requests(fs, inums) && Front(dumped, fstblk) && fstblk == fs.fstblk
      ensures 1 <= reader.curb < |dumped| - 1 && dumped[reader.curb] < fstblk && |inums| == |reqs| && blklist == dumped
      ensures Asked() && Waiting(fs.Inopb(), inums, dumped[2..reader.curb + 1], pi)
      ensures forall i, j | 0 <= i < j < |dumped| :: dumped[i] <= dumped[j]
      ensures dumped[2] < fstblk
    {
    }

    lemma ListingNone()
      requires Asked() && Requests(fs, inums) && Recoverable(fs, files) && list.Valid() && list.Items() == []
      requires At() && Front(dumped, fstblk) && reader.curb == 1
      ensures Listing(0)
    {
      RootedNone(fs, files);
    }

    lemma AtList()
      requires At()
      ensures blklist == dumped && fstblk == fs.fstblk && nBlks == |dumped| && reader.curb < |dumped|
    {
    }

    lemma SeenBelow(curb: int, seen: seq<int>)
      requires At() && 1 <= curb < |dumped| - 1 && Front(dumped, fstblk) && seen == dumped[2..curb + 1]
      ensures AtMost(seen, dumped[curb + 1])
      ensures dumped[curb + 1] < fstblk ==> curb + 2 < |dumped|
    {
    }

    /** What the run may rely on: a tape as finc writes it, and a sound file system. */
    ghost predicate Given()
      reads this`reqs
    {
      OnTape() && Asked() && Requests(fs, inums) && Recoverable(fs, files) && OnceEach(fs, files) &&
        Front(dumped, fstblk)
    }

    /** frec: reads the index, the super block and the inode list, then recovers the blocks. Every
        requested file up to the first that is not on the tape is recovered, unless a block of it
        is missing; nothing is recovered from there on, and nothing but the files' own bytes is
        ever written. */
    method Run() returns (pi: nat)
      requires Given() && reader.Valid() && list.Valid() && list.Items() == []
      requires out == seq(|inums|, _ => map[])
      modifies this, reader, list, list.nodes
      ensures Asked() && pi <= |files| == |out| && Sound(fs, files, out) && Waiting(fs.Inopb(), inums, dumped, pi)
      ensures forall r | 0 <= r < pi :: InoBlock(fs.Inopb(), inums[r]) in dumped
      ensures forall r | 0 <= r < pi && Wanted(files[r]) && (forall j :: !Missing(fs, files, dumped, r, j)) ::
        out[r] == Contents(fs, files[r])
      ensures forall r | pi <= r < |out| :: out[r] == map[]
    {
      hide *;
      GivenFacts();
      Newtp();
      Super();
      ListingNone();
      pi := Ilist();
      SettledAtFirst(pi);
      Recover(pi);
      Recovered(pi);
    }

    lemma AskedFacts()
      requires Asked()
      ensures |files| == |inums| && forall r | 0 <= r < |files| :: files[r].Valid()
    {
    }

    lemma GivenFacts()
      requires Given()
      ensures OnTape() && Asked() && Requests(fs, inums) && Recoverable(fs, files) && Front(dumped, fstblk)
      ensures OnceEach(fs, files) && |dumped| > 2
    {
    }

    /** What Ilist leaves is how recovery begins. */
    lemma SettledAtFirst(pi: nat)
      requires Listing(pi) && OnceEach(fs, files) && out == seq(|inums|, _ => map[])
      ensures list.Valid() && Running(pi, list.Items())
      ensures forall r | 0 <= r < pi :: InoBlock(fs.Inopb(), inums[r]) in dumped
    {
      hide Rooted, Noted, Pending.Valid, Pending.Items, Recoverable, Requests, InoBlock, FilesOf, Waiting;
      hide OnceEach, Settled, Plan, Untouched, Clear;
      RootedIsPlan(fs, files, pi, list.Items());
      RootedSettles(fs, files, pi, dumped, list.Items(), out);
      NothingWritten();
      ListBeforeData(list.Items());
      RootsUntouched(pi, list.Items());
    }

    lemma RootsUntouched(pi: nat, items: seq<Item>)
      requires Set() && pi <= |files| && Rooted(fs, files, pi, items) && out == seq(|inums|, _ => map[])
      ensures Untouched(items, out, pi)
    {
      hide Rooted;
      forall x | x in items
        ensures x.req < pi
      {
        RootedItem(fs, files, pi, items, x);
      }
    }

    lemma NothingWritten()
      requires Asked() && out == seq(|inums|, _ => map[])
      ensures Sound(fs, files, out)
    {
    }

    lemma ListBeforeData(items: seq<Item>)
      requires fs.Valid() && OnceEach(fs, files) && Plan(fs, files, items) && fstblk == fs.fstblk
      requires 0 <= reader.curb < |dumped| && dumped[reader.curb] < fstblk
      ensures Clear(items, dumped, reader.curb)
    {
    }

    /** What recovery leaves is what was to be recovered. */
    lemma Recovered(pi: nat)
      requires Asked() && Running(pi, []) && Recoverable(fs, files)
      ensures pi <= |files| == |out| && Sound(fs, files, out)
      ensures forall r | 0 <= r < pi && Wanted(files[r]) && (forall j :: !Missing(fs, files, dumped, r, j)) ::
        out[r] == Contents(fs, files[r])
      ensures forall r | pi <= r < |out| :: out[r] == map[]
    {
      hide Wanted, Missing, Contents, Settled, Sound, Plain, DirectOk, OnceEach;
      forall r: nat | r < pi && Wanted(files[r]) && (forall j :: !Missing(fs, files, dumped, r, j))
        ensures out[r] == Contents(fs, files[r])
      {
        SettledIsRecovered(fs, files, pi, dumped, out, r);
      }
    }
  }
}
