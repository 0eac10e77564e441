/** finc's choice of blocks: all blocks owned by the selected files, sorted, after the boot block,
    the super block and the inode list blocks they are described in. */
module DumpCollect {
  import opened Arith
  import opened DumpDisk

  function NonZero(s: seq<int>): (r: seq<int>)
    ensures 0 !in r
  {
    if s == [] then []
    else NonZero(s[..|s| - 1]) + if s[|s| - 1] == 0 then [] else [s[|s| - 1]]
  }

  lemma NonZeroSnoc(s: seq<int>, x: int)
    ensures NonZero(s + [x]) == NonZero(s) + if x == 0 then [] else [x]
  {
    assert (s + [x])[..|s|] == s;
  }

  /** The blocks named in a pointer block, each followed by those below it. */
  function Pointed(fs: Fs, buf: Block, level: nat): (r: seq<int>)
    requires fs.Valid() && level >= 1
    ensures 0 !in r
    decreases level, |buf|
  {
    if buf == [] then []
    else
      var e := buf[|buf| - 1];
      Pointed(fs, buf[..|buf| - 1], level) + if e == 0 then [] else [e] + Below(fs, e, level - 1)
  }

  /** The blocks below block e, which has level levels of pointers. */
  function Below(fs: Fs, e: int, level: nat): (r: seq<int>)
    requires fs.Valid()
    ensures 0 !in r
    decreases level + 1, 0
  {
    if level == 0 then [] else Pointed(fs, fs.block(e), level)
  }

  datatype Iblk = Iblk(single: int, dubble: int, triple: int)

  function IblkOf(f: Inode): Iblk
    requires f.Valid()
  {
    Iblk(f.addr[NADDR - 3], f.addr[NADDR - 2], f.addr[NADDR - 1])
  }

  function BelowIf(fs: Fs, e: int, level: nat): seq<int>
    requires fs.Valid()
  {
    if e == 0 then [] else Below(fs, e, level)
  }

  function Indirect(fs: Fs, ib: Iblk): seq<int>
    requires fs.Valid()
  {
    BelowIf(fs, ib.single, 1) + BelowIf(fs, ib.dubble, 2) + BelowIf(fs, ib.triple, 3)
  }

  function Indirects(fs: Fs, ibs: seq<Iblk>): (r: seq<int>)
    requires fs.Valid()
    ensures 0 !in r
  {
    if ibs == [] then [] else Indirects(fs, ibs[..|ibs| - 1]) + Indirect(fs, ibs[|ibs| - 1])
  }

  /** What the inodes of a block add: numbers from the inodes, indirect sets, and whether any
      was selected. */
  datatype Found = Found(blocks: seq<int>, iblks: seq<Iblk>, any: bool)

  /** Inode k of inode list block b is looked at if it is allocated and not the first of all, and
      select wants it. */
  predicate Selected(fs: Fs, select: Inode -> bool, b: int, k: nat)
    requires fs.Valid() && k < fs.Inopb()
  {
    var f := InodeAt(fs.block(b), k);
    f.mode != 0 && !(b == 2 && k == 0) && select(f)
  }

  function Saved(f: Inode): Found
    requires f.Valid()
  {
    if f.mode == 0 || f.size == 0 then Found([], [], true)
    else Found(NonZero(f.addr), if IblkOf(f) == Iblk(0, 0, 0) then [] else [IblkOf(f)], true)
  }

  function Scanned(fs: Fs, select: Inode -> bool, b: int, k: nat): Found
    requires fs.Valid() && k <= fs.Inopb()
  {
    if k == 0 then Found([], [], false)
    else
      var before := Scanned(fs, select, b, k - 1);
      if !Selected(fs, select, b, k - 1) then before
      else
        var s := Saved(InodeAt(fs.block(b), k - 1));
        Found(before.blocks + s.blocks, before.iblks + s.iblks, true)
  }

  /** The same over the inode list blocks from 2 up to b, each named itself if it has any. */
  function Listed(fs: Fs, select: Inode -> bool, b: int): Found
    requires fs.Valid()
    decreases b
  {
    if b <= 2 then Found([], [], false)
    else
      var before := Listed(fs, select, b - 1);
      var s := Scanned(fs, select, b - 1, fs.Inopb());
      Found(before.blocks + s.blocks + if s.any then [b - 1] else [], before.iblks + s.iblks, true)
  }

  /** All block numbers finc collects, in the order it does. */
  function Collected(fs: Fs, select: Inode -> bool): seq<int>
    requires fs.Valid()
  {
    var l := Listed(fs, select, fs.fstblk);
    [0, 1] + l.blocks + Indirects(fs, l.iblks)
  }

  // What is collected, in terms of the disk alone.

  /** Block e is a pointer block that names v. */
  ghost predicate Names(fs: Fs, e: int, v: int) {
    e != 0 && v != 0 && v in fs.block(e)
  }

  /** The same over two levels of pointer blocks, or the first of them. */
  ghost predicate NamesTwo(fs: Fs, e: int, v: int) {
    Names(fs, e, v) || exists m :: Names(fs, e, m) && Names(fs, m, v)
  }

  ghost predicate NamesThree(fs: Fs, e: int, v: int) {
    Names(fs, e, v) || exists m :: Names(fs, e, m) && NamesTwo(fs, m, v)
  }

  /** v is one of the file's blocks: its thirteen addresses, and what is reached from the last three. */
  ghost predicate Owns(fs: Fs, f: Inode, v: int)
    requires f.Valid()
  {
    v != 0 && f.size != 0 &&
    (v in f.addr || Names(fs, f.addr[10], v) || NamesTwo(fs, f.addr[11], v) || NamesThree(fs, f.addr[12], v))
  }

  /** Inode k of block b of the inode list is in use, wanted, and not the first of all. */
  ghost predicate Holds(fs: Fs, select: Inode -> bool, b: int, k: nat)
    requires fs.Valid()
  {
    && 2 <= b < fs.fstblk && k < fs.nindir / 16 && (b - 2) * (fs.nindir / 16) + k + 1 != 1
    && InodeAt(fs.block(b), k).mode != 0 && select(InodeAt(fs.block(b), k))
  }

  /** v is to be dumped: one of the first two blocks, a block of the inode list with an inode that
      is wanted, or a block that such an inode owns. */
  ghost predicate Due(fs: Fs, select: Inode -> bool, v: int)
    requires fs.Valid()
  {
    v == 0 || v == 1 ||
    exists b, k :: Holds(fs, select, b, k) && (v == b || Owns(fs, InodeAt(fs.block(b), k), v))
  }

  lemma {:induction false} PointedAre(fs: Fs, buf: Block, level: nat, v: int)
    requires fs.Valid() && level >= 1
    ensures v in Pointed(fs, buf, level) <==>
      exists e :: e in buf && e != 0 && (v == e || v in Below(fs, e, level - 1))
    decreases |buf|
  {
    hide Below;
    if buf != [] {
      var n := |buf| - 1;
      PointedAre(fs, buf[..n], level, v);
      PointedSnoc(fs, buf, level);
      hide Pointed;
      assert forall e :: e in buf <==> e in buf[..n] || e == buf[n];
      if buf[n] != 0 && (v == buf[n] || v in Below(fs, buf[n], level - 1)) {
        assert buf[n] in buf;
      }
    }
  }

  lemma PointedSnoc(fs: Fs, buf: Block, level: nat)
    requires fs.Valid() && level >= 1 && buf != []
    ensures var n := |buf| - 1;
      Pointed(fs, buf, level) ==
        Pointed(fs, buf[..n], level) + if buf[n] == 0 then [] else [buf[n]] + Below(fs, buf[n], level - 1)
  {
  }

  lemma OneLevel(fs: Fs, e: int, v: int)
    requires fs.Valid()
    ensures v in BelowIf(fs, e, 1) <==> Names(fs, e, v)
  {
    hide Pointed;
    PointedAre(fs, fs.block(e), 1, v);
    assert forall m :: v !in Below(fs, m, 0);
  }

  lemma TwoLevels(fs: Fs, e: int, v: int)
    requires fs.Valid()
    ensures v in BelowIf(fs, e, 2) <==> NamesTwo(fs, e, v)
  {
    hide Pointed;
    PointedAre(fs, fs.block(e), 2, v);
    forall m | m != 0
      ensures v in Below(fs, m, 1) <==> Names(fs, m, v)
    {
      OneLevel(fs, m, v);
    }
    NamesNonZero(fs, e, v);
  }

  lemma ThreeLevels(fs: Fs, e: int, v: int)
    requires fs.Valid()
    ensures v in BelowIf(fs, e, 3) <==> NamesThree(fs, e, v)
  {
    hide Pointed;
    PointedAre(fs, fs.block(e), 3, v);
    forall m | m != 0
      ensures v in Below(fs, m, 2) <==> NamesTwo(fs, m, v)
    {
      TwoLevels(fs, m, v);
    }
    NamesNonZero(fs, e, v);
  }

  lemma NamesNonZero(fs: Fs, e: int, v: int)
    requires fs.Valid()
    ensures e != 0 ==> (Names(fs, e, v) <==> v != 0 && v in fs.block(e))
  {
  }

  lemma {:induction false} NonZeroAre(s: seq<int>, v: int)
    ensures v in NonZero(s) <==> v != 0 && v in s
  {
    if s != [] {
      NonZeroAre(s[..|s| - 1], v);
      assert v in s <==> v in s[..|s| - 1] || v == s[|s| - 1];
    }
  }

  lemma {:induction false} IndirectsAre(fs: Fs, ibs: seq<Iblk>, v: int)
    requires fs.Valid()
    ensures v in Indirects(fs, ibs) <==> exists ib :: ib in ibs && v in Indirect(fs, ib)
  {
    hide Indirect;
    if ibs != [] {
      var n := |ibs| - 1;
      IndirectsAre(fs, ibs[..n], v);
      assert forall ib :: ib in ibs <==> ib in ibs[..n] || ib == ibs[n];
    }
  }

  /** What an inode adds, at once and in the end. */
  lemma SavedAre(fs: Fs, f: Inode, v: int)
    requires fs.Valid() && f.Valid() && f.mode != 0
    ensures v in Saved(f).blocks || (exists ib :: ib in Saved(f).iblks && v in Indirect(fs, ib)) <==> Owns(fs, f, v)
  {
    hide BelowIf, Names, NamesTwo, NamesThree, NonZero;
    NonZeroAre(f.addr, v);
    var ib := IblkOf(f);
    OneLevel(fs, ib.single, v);
    TwoLevels(fs, ib.dubble, v);
    ThreeLevels(fs, ib.triple, v);
    NoneBelow(fs, v);
    OwnedNonZero(fs, ib.single, v);
    OwnedNonZero(fs, ib.dubble, v);
    OwnedNonZero(fs, ib.triple, v);
    assert v in Indirect(fs, ib) <==>
      v in BelowIf(fs, ib.single, 1) || v in BelowIf(fs, ib.dubble, 2) || v in BelowIf(fs, ib.triple, 3);
    assert ib == Iblk(f.addr[10], f.addr[11], f.addr[12]);
    if ib != Iblk(0, 0, 0) && f.size != 0 {
      assert ib in Saved(f).iblks;
    }
  }

  lemma NoneBelow(fs: Fs, v: int)
    requires fs.Valid()
    ensures v !in Indirect(fs, Iblk(0, 0, 0))
  {
  }

  lemma OwnedNonZero(fs: Fs, e: int, v: int)
    ensures Names(fs, e, v) || NamesTwo(fs, e, v) || NamesThree(fs, e, v) ==> v != 0
  {
  }

  /** What a list of found things comes to. */
  ghost predicate Gives(fs: Fs, l: Found, v: int)
    requires fs.Valid()
  {
    v in l.blocks || exists ib :: ib in l.iblks && v in Indirect(fs, ib)
  }

  lemma {:induction false} ScannedAre(fs: Fs, select: Inode -> bool, b: int, k: nat, v: int)
    requires fs.Valid() && k <= fs.Inopb()
    ensures Gives(fs, Scanned(fs, select, b, k), v) <==>
      exists j: nat :: j < k && Chooses(fs, select, b, j) && Owns(fs, InodeAt(fs.block(b), j), v)
    ensures Scanned(fs, select, b, k).any <==> exists j: nat :: j < k && Chooses(fs, select, b, j)
    decreases k
  {
    hide Owns, Saved, InodeAt, Indirect;
    BlockSize(fs, b);
    if k > 0 {
      ScannedAre(fs, select, b, k - 1, v);
      var before := Scanned(fs, select, b, k - 1);
      if Selected(fs, select, b, k - 1) {
        assert Chooses(fs, select, b, k - 1);
        var f := InodeAt(fs.block(b), k - 1);
        SavedAre(fs, f, v);
        GivesBoth(fs, before, Saved(f), Scanned(fs, select, b, k), v);
      }
    }
  }

  lemma GivesBoth(fs: Fs, a: Found, b: Found, c: Found, v: int)
    requires fs.Valid() && c.blocks == a.blocks + b.blocks && c.iblks == a.iblks + b.iblks
    ensures Gives(fs, c, v) <==> Gives(fs, a, v) || Gives(fs, b, v)
  {
    hide Indirect;
    assert forall ib :: ib in c.iblks <==> ib in a.iblks || ib in b.iblks;
  }

  ghost predicate Chooses(fs: Fs, select: Inode -> bool, b: int, k: nat)
    requires fs.Valid()
  {
    k < fs.Inopb() && Selected(fs, select, b, k)
  }

  lemma {:induction false} ListedAre(fs: Fs, select: Inode -> bool, e: int, v: int)
    requires fs.Valid()
    ensures Gives(fs, Listed(fs, select, e), v) <==>
      exists b, k: nat :: 2 <= b < e && Chooses(fs, select, b, k) && (v == b || Owns(fs, InodeAt(fs.block(b), k), v))
    decreases e
  {
    hide Owns, InodeAt, Indirect, Scanned, Chooses;
    if e > 2 {
      ListedAre(fs, select, e - 1, v);
      var before, s := Listed(fs, select, e - 1), Scanned(fs, select, e - 1, fs.Inopb());
      ScannedAre(fs, select, e - 1, fs.Inopb(), v);
      var own := Found(if s.any then [e - 1] else [], [], true);
      var both := Found(before.blocks + s.blocks, before.iblks + s.iblks, true);
      GivesBoth(fs, before, s, both, v);
      assert both.iblks + own.iblks == both.iblks;
      GivesBoth(fs, both, own, Listed(fs, select, e), v);
      ChoosesWithin(fs, select, e - 1);
    }
  }

  lemma ChoosesWithin(fs: Fs, select: Inode -> bool, b: int)
    requires fs.Valid()
    ensures forall k: nat :: Chooses(fs, select, b, k) ==> k < fs.Inopb()
  {
  }

  lemma HoldsIs(fs: Fs, select: Inode -> bool, b: int, k: nat)
    requires fs.Valid()
    ensures Holds(fs, select, b, k) <==> 2 <= b < fs.fstblk && Chooses(fs, select, b, k)
  {
    hide InodeAt;
    if b > 2 && k < fs.nindir / 16 {
      MulMono(1, b - 2, fs.nindir / 16);
    }
  }

  /** What finc collects is what is due. */
  lemma CollectedAre(fs: Fs, select: Inode -> bool, v: int)
    requires fs.Valid()
    ensures v in Collected(fs, select) <==> Due(fs, select, v)
  {
    hide Owns, InodeAt, Indirect, Indirects, Listed, Holds, Chooses;
    var l := Listed(fs, select, fs.fstblk);
    ListedAre(fs, select, fs.fstblk, v);
    IndirectsAre(fs, l.iblks, v);
    forall b, k: nat
      ensures Holds(fs, select, b, k) <==> 2 <= b < fs.fstblk && Chooses(fs, select, b, k)
    {
      HoldsIs(fs, select, b, k);
    }
  }

  class Finc {
    const fs: Fs
    const select: Inode -> bool
    const maxBlks: nat
    const maxIb: nat
    var blklist: seq<int>
    var iblklist: seq<Iblk>
    var exceeded: bool   // a program limit was; nothing is written then

    constructor (fs: Fs, select: Inode -> bool, maxBlks: nat, maxIb: nat)
      ensures this.fs == fs && this.select == select && this.maxBlks == maxBlks && this.maxIb == maxIb
      ensures blklist == [] && iblklist == [] && Limits()
    {
      this.fs, this.select, this.maxBlks, this.maxIb := fs, select, maxBlks, maxIb;
      blklist, iblklist, exceeded := [], [], false;
    }

    /** The limits are those of the lists. */
    predicate Limits()
      reads this
    {
      exceeded == (|blklist| > maxBlks + 1 || |iblklist| > maxIb + 1)
    }

    method Addblk(blk: int)
      requires Limits()
      modifies this`blklist, this`exceeded
      ensures Limits() && blklist == old(blklist) + [blk]
    {
      if |blklist| > maxBlks {
        exceeded := true;
      }
      blklist := blklist + [blk];
    }

    method Addindb(s: int, d: int, t: int)
      requires Limits()
      modifies this
      ensures Limits() && blklist == old(blklist) + NonZero([s, d, t])
      ensures iblklist == old(iblklist) + [Iblk(s, d, t)]
    {
      NonZeroThree(s, d, t);
      hide NonZero;
      if s != 0 { Addblk(s); }
      if d != 0 { Addblk(d); }
      if t != 0 { Addblk(t); }
      if |iblklist| > maxIb {
        exceeded := true;
      }
      iblklist := iblklist + [Iblk(s, d, t)];
    }

    lemma NonZeroThree(s: int, d: int, t: int)
      ensures NonZero([s, d, t]) ==
        (if s == 0 then [] else [s]) + (if d == 0 then [] else [d]) + (if t == 0 then [] else [t])
    {
      hide NonZero;
      NonZeroNone();
      NonZeroSnoc([], s);
      NonZeroSnoc([s], d);
      NonZeroSnoc([s, d], t);
      assert [] + [s] == [s];
      assert [s] + [d] == [s, d];
      assert [s, d] + [t] == [s, d, t];
    }

    lemma NonZeroNone()
      ensures NonZero([]) == []
    {
    }

    /** Direct blocks and indirect pointers of a selected inode. */
    method Saveblks(f: Inode)
      requires Limits() && f.Valid()
      modifies this
      ensures Limits() && blklist == old(blklist) + Saved(f).blocks
      ensures iblklist == old(iblklist) + Saved(f).iblks
    {
      hide NonZero, Limits;
      if f.mode == 0 || f.size == 0 {
        return;
      }
      var l := f.addr;
      NonZeroNone();
      assert l[..0] == [];
      for i := 0 to NADDR - 3
        invariant Limits() && blklist == old(blklist) + NonZero(l[..i]) && iblklist == old(iblklist)
      {
        assert l[..i + 1] == l[..i] + [l[i]];
        NonZeroSnoc(l[..i], l[i]);
        if l[i] != 0 {
          Addblk(l[i]);
        }
      }
      var s, d, t := l[NADDR - 3], l[NADDR - 2], l[NADDR - 1];
      NonZeroSplit(l, s, d, t);
      NonZeroThree(s, d, t);
      if s != 0 || d != 0 || t != 0 {
        Addindb(s, d, t);
      }
    }

    lemma NonZeroSplit(l: seq<int>, s: int, d: int, t: int)
      requires |l| == NADDR && s == l[NADDR - 3] && d == l[NADDR - 2] && t == l[NADDR - 1]
      ensures NonZero(l) == NonZero(l[..NADDR - 3]) + NonZero([s, d, t])
    {
      hide NonZero;
      NonZeroThree(s, d, t);
      var p := l[..NADDR - 3];
      NonZeroSnoc(p, s);
      NonZeroSnoc(p + [s], d);
      NonZeroSnoc(p + [s] + [d], t);
      assert l == p + [s] + [d] + [t];
    }

    /** The inode list. */
    method Ilist()
      requires Limits() && fs.Valid()
      modifies this
      ensures Limits() && blklist == old(blklist) + Listed(fs, select, fs.fstblk).blocks
      ensures iblklist == old(iblklist) + Listed(fs, select, fs.fstblk).iblks
    {
      hide Listed, Scanned, Saved, InodeAt, Fs.Inopb;
      ListedStart(fs.fstblk);
      var curi := 0;
      for block := 2 to fs.fstblk
        invariant Limits() && curi == (block - 2) * fs.Inopb()
        invariant blklist == old(blklist) + Listed(fs, select, block).blocks
        invariant iblklist == old(iblklist) + Listed(fs, select, block).iblks
      {
        ListedNext(block, old(blklist), old(iblklist));
        curi := ScanBlock(block, curi);
      }
    }

    lemma ListedStart(e: int)
      requires fs.Valid()
      ensures Listed(fs, select, 2) == Found([], [], false) && (e < 2 ==> Listed(fs, select, e) == Found([], [], false))
    {
    }

    lemma ListedNext(block: int, was: seq<int>, ibs: seq<Iblk>)
      requires fs.Valid() && block >= 2
      ensures var before, after := Listed(fs, select, block), Listed(fs, select, block + 1);
        var s := Scanned(fs, select, block, fs.Inopb());
        && was + before.blocks + s.blocks + (if s.any then [block] else []) == was + after.blocks
        && ibs + before.iblks + s.iblks == ibs + after.iblks
      ensures (block - 2) * fs.Inopb() + fs.Inopb() == (block + 1 - 2) * fs.Inopb()
    {
    }

    method ScanBlock(block: int, curi0: int) returns (curi: int)
      requires Limits() && fs.Valid() && 2 <= block && curi0 == (block - 2) * fs.Inopb()
      modifies this
      ensures Limits() && curi == curi0 + fs.Inopb()
      ensures var s := Scanned(fs, select, block, fs.Inopb());
        && blklist == old(blklist) + s.blocks + (if s.any then [block] else [])
        && iblklist == old(iblklist) + s.iblks
    {
      hide Saved;
      curi := curi0;
      var found := 0;
      BlockSize(fs, block);
      FirstInode(block, fs.Inopb());
      for ipb := 0 to fs.Inopb()
        invariant curi == curi0 + ipb && found >= 0
        invariant (found > 0) == Scanned(fs, select, block, ipb).any
        invariant Limits() && blklist == old(blklist) + Scanned(fs, select, block, ipb).blocks
        invariant iblklist == old(iblklist) + Scanned(fs, select, block, ipb).iblks
      {
        var dip := InodeAt(fs.block(block), ipb);
        curi := curi + 1;
        if !(dip.mode == 0 || curi == 1) && select(dip) {
          Saveblks(dip);
          found := found + 1;
        }
      }
      if found > 0 {
        Addblk(block);
      }
    }

    lemma FirstInode(block: int, inopb: nat)
      requires block >= 2
      ensures block == 2 ==> (block - 2) * inopb == 0
      ensures block > 2 ==> (block - 2) * inopb >= inopb
    {
    }

    /** The blocks named in pointer blocks. */
    method Ptrblk(buf: Block, level: nat)
      requires fs.Valid() && level >= 1 && Limits()
      modifies this`blklist, this`exceeded
      ensures Limits() && blklist == old(blklist) + Pointed(fs, buf, level)
      decreases level, 1
    {
      hide *;
      PointedNone(buf[..0], level);
      for i := 0 to |buf|
        invariant Limits() && blklist == old(blklist) + Pointed(fs, buf[..i], level)
      {
        PointedNext(buf, level, i);
        ghost var more := if buf[i] == 0 then [] else [buf[i]] + Below(fs, buf[i], level - 1);
        Assoc(old(blklist), Pointed(fs, buf[..i], level), more);
        PtrEntry(buf[i], level);
      }
      assert buf[..|buf|] == buf;
    }

    /** One entry of a pointer block. */
    method PtrEntry(e: int, level: nat)
      requires fs.Valid() && level >= 1 && Limits()
      modifies this`blklist, this`exceeded
      ensures Limits() && blklist == old(blklist) + if e == 0 then [] else [e] + Below(fs, e, level - 1)
      decreases level, 0
    {
      hide Pointed;
      if e != 0 {
        Addblk(e);
        if level > 1 {
          Ptrblk(fs.block(e), level - 1);
        }
      }
    }

    lemma Assoc(a: seq<int>, b: seq<int>, c: seq<int>)
      ensures (a + b) + c == a + (b + c)
    {
    }

    lemma PointedNone(buf: Block, level: nat)
      requires fs.Valid() && level >= 1 && buf == []
      ensures Pointed(fs, buf, level) == []
    {
    }

    lemma PointedNext(buf: Block, level: nat, i: nat)
      requires fs.Valid() && level >= 1 && i < |buf|
      ensures Pointed(fs, buf[..i + 1], level) == Pointed(fs, buf[..i], level) +
        if buf[i] == 0 then [] else [buf[i]] + Below(fs, buf[i], level - 1)
    {
      assert buf[..i + 1][..i] == buf[..i];
    }

    method Indir()
      requires Limits() && fs.Valid()
      modifies this`blklist, this`exceeded
      ensures Limits() && blklist == old(blklist) + Indirects(fs, iblklist)
    {
      hide Indirects, Indirect;
      IndirectsNone(iblklist);
      for i := 0 to |iblklist|
        invariant Limits() && blklist == old(blklist) + Indirects(fs, iblklist[..i])
      {
        IndirectsNext(iblklist, i);
        IndirSet(iblklist[i]);
      }
      assert iblklist[..|iblklist|] == iblklist;
    }

    lemma IndirectsNone(ibs: seq<Iblk>)
      requires fs.Valid()
      ensures Indirects(fs, ibs[..0]) == []
    {
    }

    lemma IndirectsNext(ibs: seq<Iblk>, i: nat)
      requires fs.Valid() && i < |ibs|
      ensures Indirects(fs, ibs[..i + 1]) == Indirects(fs, ibs[..i]) + Indirect(fs, ibs[i])
    {
      assert ibs[..i + 1][..i] == ibs[..i];
    }

    method IndirSet(ib: Iblk)
      requires Limits() && fs.Valid()
      modifies this`blklist, this`exceeded
      ensures Limits() && blklist == old(blklist) + Indirect(fs, ib)
    {
      hide Pointed;
      if ib.single != 0 {
        Ptrblk(fs.block(ib.single), 1);
      }
      if ib.dubble != 0 {
        Ptrblk(fs.block(ib.dubble), 2);
      }
      if ib.triple != 0 {
        Ptrblk(fs.block(ib.triple), 3);
      }
    }

    /** Selects the files and sorts the numbers of their blocks. */
    method Choose()
      requires fs.Valid() && blklist == [] && iblklist == [] && Limits()
      modifies this
      ensures Limits() && blklist == Sort(Collected(fs, select)) && iblklist == Listed(fs, select, fs.fstblk).iblks
      ensures Ascending(blklist) && forall v :: v in blklist <==> Due(fs, select, v)
    {
      hide Sort, Listed, Indirects, Due;
      Addblk(0);
      Addblk(1);
      assert blklist == [0, 1];
      Ilist();
      assert iblklist == Listed(fs, select, fs.fstblk).iblks;
      Indir();
      assert blklist == Collected(fs, select);
      SortMembers(blklist);
      forall v
        ensures v in Collected(fs, select) <==> Due(fs, select, v)
      {
        CollectedAre(fs, select, v);
      }
      blklist := Sort(blklist);
    }
  }

  // Sorting, which finc leaves to qsort.

  predicate Ascending(s: seq<int>) {
    forall i, j | 0 <= i < j < |s| :: s[i] <= s[j]
  }

  function Insert(s: seq<int>, x: int): (r: seq<int>)
    requires Ascending(s)
    ensures Ascending(r) && multiset(r) == multiset(s) + multiset{x}
  {
    if s == [] || s[|s| - 1] <= x then s + [x]
    else
      var r := Insert(s[..|s| - 1], x);
      InsertLast(s, x, r);
      r + [s[|s| - 1]]
  }

  lemma InsertLast(s: seq<int>, x: int, r: seq<int>)
    requires s != [] && Ascending(s) && x < s[|s| - 1]
    requires Ascending(r) && multiset(r) == multiset(s[..|s| - 1]) + multiset{x}
    ensures Ascending(r + [s[|s| - 1]]) && multiset(r + [s[|s| - 1]]) == multiset(s) + multiset{x}
  {
    InsertBelow(s, x, r);
    assert s == s[..|s| - 1] + [s[|s| - 1]];
  }

  lemma InsertBelow(s: seq<int>, x: int, r: seq<int>)
    requires s != [] && Ascending(s) && x < s[|s| - 1] && multiset(r) == multiset(s[..|s| - 1]) + multiset{x}
    ensures forall i | 0 <= i < |r| :: r[i] <= s[|s| - 1]
  {
    forall i | 0 <= i < |r|
      ensures r[i] <= s[|s| - 1]
    {
      assert r[i] in multiset(r);
      if r[i] != x {
        assert r[i] in multiset(s[..|s| - 1]);
        assert r[i] in s[..|s| - 1];
      }
    }
  }

  function Sort(s: seq<int>): (r: seq<int>)
    ensures Ascending(r) && multiset(r) == multiset(s)
  {
    if s == [] then []
    else
      assert s == s[..|s| - 1] + [s[|s| - 1]];
      Insert(Sort(s[..|s| - 1]), s[|s| - 1])
  }

  lemma SameElements(s: seq<int>, t: seq<int>)
    requires multiset(s) == multiset(t)
    ensures |s| == |t| && forall v :: v in t <==> v in s
  {
    assert |multiset(s)| == |s| && |multiset(t)| == |t|;
    forall v
      ensures v in t <==> v in s
    {
      assert v in multiset(s) <==> v in s;
      assert v in multiset(t) <==> v in t;
    }
  }

  lemma SortMembers(s: seq<int>)
    ensures forall v :: v in Sort(s) <==> v in s
    ensures |Sort(s)| == |s|
  {
    hide Sort;
    SameElements(s, Sort(s));
  }
}
