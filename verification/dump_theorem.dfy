/** finc and frec together: what was dumped is recovered. */
module DumpTheorem {
  import opened Arith
  import opened DumpDisk
  import opened DumpTape
  import opened DumpIndex
  import opened DumpCollect
  import opened DumpList
  import opened DumpPlan
  import opened DumpRequests
  import opened DumpRoots
  import opened DumpRecover

  // Every block of a selected file is collected.

  /** A pointer block's entries are collected, with what is below them. */
  lemma {:induction false} PointedHas(fs: Fs, buf: Block, level: nat, t: nat)
    requires fs.Valid() && level >= 1 && t < |buf| && buf[t] != 0
    ensures buf[t] in Pointed(fs, buf, level)
    ensures forall v | v in Below(fs, buf[t], level - 1) :: v in Pointed(fs, buf, level)
    decreases |buf|
  {
    if t < |buf| - 1 {
      PointedHas(fs, buf[..|buf| - 1], level, t);
    }
  }

  lemma {:induction false} IndirectsHas(fs: Fs, ibs: seq<Iblk>, i: nat)
    requires fs.Valid() && i < |ibs|
    ensures forall v | v in Indirect(fs, ibs[i]) :: v in Indirects(fs, ibs)
  {
    if i < |ibs| - 1 {
      IndirectsHas(fs, ibs[..|ibs| - 1], i);
    }
  }

  lemma {:induction false} NonZeroHas(s: seq<int>, i: nat)
    requires i < |s| && s[i] != 0
    ensures s[i] in NonZero(s)
  {
    if i < |s| - 1 {
      NonZeroHas(s[..|s| - 1], i);
    }
  }

  ghost predicate Includes(big: Found, small: Found) {
    && (forall v | v in small.blocks :: v in big.blocks)
    && (forall ib | ib in small.iblks :: ib in big.iblks)
  }

  lemma {:induction false} ScannedHas(fs: Fs, select: Inode -> bool, b: int, k: nat, n: nat)
    requires fs.Valid() && k < n <= fs.Inopb() && Selected(fs, select, b, k)
    ensures Includes(Scanned(fs, select, b, n), Saved(InodeAt(fs.block(b), k))) && Scanned(fs, select, b, n).any
    decreases n
  {
    BlockSize(fs, b);
    hide Saved, InodeAt;
    if k < n - 1 {
      ScannedHas(fs, select, b, k, n - 1);
    }
  }

  lemma {:induction false} ListedHas(fs: Fs, select: Inode -> bool, b: int, k: nat, e: int)
    requires fs.Valid() && 2 <= b < e && k < fs.Inopb() && Selected(fs, select, b, k)
    ensures Includes(Listed(fs, select, e), Saved(InodeAt(fs.block(b), k))) && b in Listed(fs, select, e).blocks
    decreases e
  {
    BlockSize(fs, b);
    hide Saved, InodeAt, Scanned;
    if b < e - 1 {
      ListedHas(fs, select, b, k, e - 1);
    } else {
      ScannedHas(fs, select, b, k, fs.Inopb());
    }
  }

  /** inode i is within the inode list and select wants it. */
  ghost predicate Chosen(fs: Fs, select: Inode -> bool, i: int)
    requires fs.Valid() && fs.Inopb() > 0
  {
    1 < i <= (fs.fstblk - 2) * fs.Inopb() && select(FileOf(fs, i))
  }

  /** A chosen file's addresses, what is below them, and its block of the inode list are all
      collected. */
  lemma ChosenCollected(fs: Fs, select: Inode -> bool, i: int)
    requires fs.Valid() && fs.Inopb() > 0 && Chosen(fs, select, i)
    requires var f := FileOf(fs, i); f.mode != 0
    ensures InoBlock(fs.Inopb(), i) in Collected(fs, select)
    ensures FileOf(fs, i).size != 0 ==> FileCollected(fs, FileOf(fs, i), Collected(fs, select))
  {
    var f, b, k := FileOf(fs, i), InoBlock(fs.Inopb(), i), (i - 1) % fs.Inopb();
    InoBlockWithin(fs.Inopb(), fs.fstblk, i);
    InoBlockIs(fs.Inopb(), i);
    assert b == 2 && k == 0 ==> i == 1 by {
      DivMod(i - 1, fs.Inopb());
    }
    ListedHas(fs, select, b, k, fs.fstblk);
    if f.size != 0 {
      SavedCollected(fs, f, Listed(fs, select, fs.fstblk), Collected(fs, select));
    }
  }

  ghost predicate FileCollected(fs: Fs, f: Inode, list: seq<int>)
    requires fs.Valid() && f.Valid()
  {
    && (forall i | 0 <= i < NADDR && f.addr[i] != 0 :: f.addr[i] in list)
    && (forall v | v in Indirect(fs, IblkOf(f)) :: v in list)
  }

  lemma SavedCollected(fs: Fs, f: Inode, l: Found, list: seq<int>)
    requires fs.Valid() && f.Valid() && f.mode != 0 && f.size != 0 && Includes(l, Saved(f))
    requires list == [0, 1] + l.blocks + Indirects(fs, l.iblks)
    ensures FileCollected(fs, f, list)
  {
    forall i | 0 <= i < NADDR && f.addr[i] != 0
      ensures f.addr[i] in list
    {
      NonZeroHas(f.addr, i);
    }
    forall v | v in Indirect(fs, IblkOf(f))
      ensures v in list
    {
      var ib := IblkOf(f);
      assert ib in Saved(f).iblks;
      var q :| 0 <= q < |l.iblks| && l.iblks[q] == ib;
      IndirectsHas(fs, l.iblks, q);
    }
  }

  /** The block of any part of such a file is collected. */
  lemma LegitCollected(fs: Fs, files: seq<Inode>, x: Item, list: seq<int>)
    requires fs.Valid() && Legit(fs, files, x) && FileCollected(fs, files[x.req], list)
    ensures x.blkno in list
  {
    hide Indirect, Below;
    var n, f := fs.nindir, files[x.req];
    if x.kind == SINGLE {
      if !(x.bindex == DIRECT && x.blkno == f.addr[DIRECT]) {
        var t :| 0 <= t < n && x.bindex == DIRECT + n + t * n && x.blkno == Entry(fs, f.addr[DIRECT + 1], t);
        EntryCollected(fs, f, list, t);
      }
    } else if x.kind == DATA && x.bindex >= DIRECT {
      DataCollected(fs, f, list, x.bindex);
    }
  }

  lemma EntryCollected(fs: Fs, f: Inode, list: seq<int>, t: nat)
    requires fs.Valid() && f.Valid() && FileCollected(fs, f, list)
    requires t < fs.nindir && Entry(fs, f.addr[DIRECT + 1], t) != 0
    ensures Entry(fs, f.addr[DIRECT + 1], t) in list
    ensures forall v | v in Below(fs, Entry(fs, f.addr[DIRECT + 1], t), 1) :: v in list
  {
    hide Pointed;
    BlockSize(fs, f.addr[DIRECT + 1]);
    PointedHas(fs, fs.block(f.addr[DIRECT + 1]), 2, t);
  }

  lemma DataCollected(fs: Fs, f: Inode, list: seq<int>, j: int)
    requires fs.Valid() && f.Valid() && FileCollected(fs, f, list) && j >= DIRECT && Phys(fs, f, j) != 0
    ensures Phys(fs, f, j) in list
  {
    hide Pointed;
    var n := fs.nindir;
    if j < DIRECT + n {
      BlockSize(fs, f.addr[DIRECT]);
      PointedHas(fs, fs.block(f.addr[DIRECT]), 1, j - DIRECT);
    } else {
      var e := Entry(fs, f.addr[DIRECT + 1], Outer(n, j - DIRECT - n));
      EntryCollected(fs, f, list, Outer(n, j - DIRECT - n));
      BlockSize(fs, e);
      PointedHas(fs, fs.block(e), 1, Inner(n, j - DIRECT - n));
    }
  }

  // How the sorted list begins.

  lemma {:induction false} ScannedEmpty(fs: Fs, select: Inode -> bool, b: int, k: nat)
    requires fs.Valid() && k <= fs.Inopb() && !Scanned(fs, select, b, k).any
    ensures Scanned(fs, select, b, k).blocks == [] && Scanned(fs, select, b, k).iblks == []
  {
    BlockSize(fs, b);
    hide Saved, InodeAt;
    if k > 0 {
      ScannedEmpty(fs, select, b, k - 1);
    }
  }

  /** Nothing is collected without a block of the inode list. */
  lemma {:induction false} ListedFrom(fs: Fs, select: Inode -> bool, e: int) returns (v: int)
    requires fs.Valid() && (Listed(fs, select, e).blocks != [] || Listed(fs, select, e).iblks != [])
    ensures v in Listed(fs, select, e).blocks && 2 <= v < e
    decreases e
  {
    hide Saved, InodeAt, Scanned;
    var s := Scanned(fs, select, e - 1, fs.Inopb());
    if s.any {
      v := e - 1;
    } else {
      ScannedEmpty(fs, select, e - 1, fs.Inopb());
      v := ListedFrom(fs, select, e - 1);
    }
  }

  /** The list that is dumped, when it has any data. */
  lemma SortedFront(fs: Fs, select: Inode -> bool, dumped: seq<int>, d: int)
    requires fs.Valid() && (forall v | v in Collected(fs, select) :: v >= 0)
    requires d in Collected(fs, select) && d >= fs.fstblk && dumped == Sort(Collected(fs, select))
    ensures Front(dumped, fs.fstblk)
  {
    hide *;
    var c, l := Collected(fs, select), Listed(fs, select, fs.fstblk);
    SortMembers(c);
    var rest := l.blocks + Indirects(fs, l.iblks);
    CollectedIs(fs, select);
    DataBounds(fs);
    assert l.blocks != [] || l.iblks != [] by {
      if l.blocks == [] && l.iblks == [] {
        IndirectsEmpty(fs, l.iblks);
      }
    }
    var b := ListedFrom(fs, select, fs.fstblk);
    ListedNonZero(fs, select, fs.fstblk);
    SortedStart(rest, dumped);
    InBoth(c, dumped);
    assert b in c && d in c;
    FrontIs(dumped, fs.fstblk, b, d);
  }

  lemma CollectedIs(fs: Fs, select: Inode -> bool)
    requires fs.Valid()
    ensures var l := Listed(fs, select, fs.fstblk);
      Collected(fs, select) == [0, 1] + (l.blocks + Indirects(fs, l.iblks))
  {
    hide Listed, Indirects;
  }

  lemma DataBounds(fs: Fs)
    requires fs.Valid()
    ensures fs.fstblk >= 2
  {
  }

  lemma InBoth(c: seq<int>, s: seq<int>)
    requires multiset(s) == multiset(c)
    ensures forall v :: v in s <==> v in c
  {
    assert forall v :: v in c <==> v in multiset(c);
    assert forall v :: v in s <==> v in multiset(s);
  }

  lemma FrontIs(s: seq<int>, fstblk: int, b: int, d: int)
    requires |s| > 2 && s[0] == 0 && s[1] == 1 && b in s && 2 <= b < fstblk <= d && d in s
    requires forall v | v in s && v >= 2 :: s[|s| - 1] >= v && |s| > 2 && s[2] <= v
    ensures Front(s, fstblk)
  {
    assert s[2] <= b && s[|s| - 1] >= d;
  }

  lemma IndirectsEmpty(fs: Fs, ibs: seq<Iblk>)
    requires fs.Valid() && ibs == []
    ensures Indirects(fs, ibs) == []
  {
  }

  lemma {:induction false} ListedNonZero(fs: Fs, select: Inode -> bool, e: int)
    requires fs.Valid()
    ensures 0 !in Listed(fs, select, e).blocks
    decreases e
  {
    hide Scanned;
    if e > 2 {
      ListedNonZero(fs, select, e - 1);
      ScannedNonZero(fs, select, e - 1, fs.Inopb());
    }
  }

  lemma {:induction false} ScannedNonZero(fs: Fs, select: Inode -> bool, b: int, k: nat)
    requires fs.Valid() && k <= fs.Inopb()
    ensures 0 !in Scanned(fs, select, b, k).blocks
  {
    BlockSize(fs, b);
    hide InodeAt;
    if k > 0 {
      ScannedNonZero(fs, select, b, k - 1);
    }
  }

  lemma SortedStart(rest: seq<int>, s: seq<int>)
    requires Ascending(s) && multiset(s) == multiset([0, 1] + rest) && (forall v | v in s :: v >= 0) && 0 !in rest
    ensures |s| == |rest| + 2 && s[0] == 0 && s[1] == 1
    ensures forall v | v in s && v >= 2 :: s[|s| - 1] >= v && |s| > 2 && s[2] <= v
  {
    SameElements([0, 1] + rest, s);
    assert ([0, 1] + rest)[0] == 0 && ([0, 1] + rest)[1] == 1;
    assert 0 in s && 1 in s && s[0] in s;
    if s[1] == 0 {
      TwoZeros(s);
      OneZero(rest);
      assert false;
    }
  }

  lemma TwoZeros(s: seq<int>)
    requires |s| >= 2 && s[0] == 0 && s[1] == 0
    ensures multiset(s)[0] >= 2
  {
    assert s == [s[0], s[1]] + s[2..];
  }

  lemma OneZero(rest: seq<int>)
    requires 0 !in rest
    ensures multiset([0, 1] + rest)[0] == 1
  {
    assert multiset(rest)[0] == 0;
  }

  // The two programs.

  /** finc's datacopy: the index, then the blocks. */
  method Datacopy(w: Writer, fs: Fs, list: seq<int>)
    requires w.Buffer() && w.records == [] && fs.Valid() && fs.nindir == w.words
    requires forall i | 0 <= i < |list| :: list[i] >= 0
    modifies w, w.obuf
    ensures Sized(w.records, w.factor) && IndexAt(w.records, w.words, list)
    ensures DataAt(fs, w.records, FincRecords(|list|, w.words, w.factor), list)
  {
    hide Flat, Sized, FincRecords, Blocks;
    WriteIndex(w, list);
    ghost var index := w.records;
    assert index[0..] == index;
    CopyBlocks(w, fs, list);
    Tape(w, fs, list, index);
  }

  lemma Tape(w: Writer, fs: Fs, list: seq<int>, index: seq<Record>)
    requires w.Buffer() && w.words > 0 && index <= w.records
    requires Sized(index, w.factor) && Sized(w.records[|index|..], w.factor)
    requires list <= Flat(Flat(index)) && |index| == FincRecords(|list|, w.words, w.factor)
    requires Blocks(fs, list) <= Flat(w.records[|index|..])
    ensures Sized(w.records, w.factor) && IndexAt(w.records, w.words, list)
    ensures DataAt(fs, w.records, FincRecords(|list|, w.words, w.factor), list)
  {
    hide Flat, FincRecords, Blocks;
    assert w.records == index + w.records[|index|..];
    FlatPrefix(index, w.records);
    FlatPrefix(Flat(index), Flat(w.records));
    FlatSized(w.records, w.words);
  }

  /** What the theorem asks of the file system, the selection and the requests. */
  ghost predicate Dumpable(fs: Fs, select: Inode -> bool, inums: seq<int>, factor: nat) {
    && fs.Valid() && fs.Inopb() > 0 && factor > 0 && Requests(fs, inums)
    && (forall r | 0 <= r < |inums| :: FilesOf(fs, inums)[r].Valid())
    && Recoverable(fs, FilesOf(fs, inums)) && OnceEach(fs, FilesOf(fs, inums))
    && (forall v | v in Collected(fs, select) :: v >= 0)
    && (exists d :: d in Collected(fs, select) && d >= fs.fstblk)
    && Aligned(|Collected(fs, select)|, fs.nindir, factor)
  }

  /** The inode list blocks of the requests up to r are all dumped, on whatever file's account. */
  ghost predicate Reached(fs: Fs, select: Inode -> bool, inums: seq<int>, r: int)
    requires fs.Valid() && fs.Inopb() > 0
  {
    forall i | 0 <= i <= r && i < |inums| :: InoBlock(fs.Inopb(), inums[i]) in Collected(fs, select)
  }

  /** The list to be dumped. */
  lemma ListReady(fs: Fs, select: Inode -> bool, inums: seq<int>, factor: nat, list: seq<int>)
    requires Dumpable(fs, select, inums, factor) && list == Sort(Collected(fs, select))
    ensures Front(list, fs.fstblk) && Ascending(list) && |list| > 0 && forall i | 0 <= i < |list| :: list[i] >= 0
    ensures factor > 0 && fs.nindir > 0
    ensures FincRecords(|list|, fs.nindir, factor) == FrecRecords(|list|, fs.nindir, factor)
  {
    hide Sort, Collected, OnceEach, Recoverable, FincRecords, FrecRecords, Aligned;
    var d :| d in Collected(fs, select) && d >= fs.fstblk;
    SortMembers(Collected(fs, select));
    SortedFront(fs, select, list, d);
    AlignedIsAgreement(|list|, fs.nindir, factor);
    forall i | 0 <= i < |list| ensures list[i] >= 0 {
      assert list[i] in list;
    }
  }

  /** frec has before it what finc wrote. */
  lemma TapeGiven(frec: Frec, fs: Fs, select: Inode -> bool, inums: seq<int>, factor: nat, list: seq<int>)
    requires Dumpable(fs, select, inums, factor) && list == Sort(Collected(fs, select))
    requires frec.fs == fs && frec.nindir == fs.nindir && frec.fstblk == fs.fstblk
    requires frec.dumped == list && frec.nBlks == |list|
    requires frec.reader.factor == factor && IndexAt(frec.reader.records, fs.nindir, list)
    requires frec.inums == inums && frec.files == FilesOf(fs, inums) && |frec.reqs| == |inums|
    requires forall r | 0 <= r < |inums| :: frec.reqs[r].inum == inums[r]
    requires fs.nindir > 0 && DataAt(fs, frec.reader.records, FincRecords(|list|, fs.nindir, factor), list)
    ensures frec.Given()
  {
    ListReady(fs, select, inums, factor, list);
    hide Sort, Collected, OnceEach, Recoverable, FincRecords, FrecRecords, Aligned, IndexAt, DataAt, FilesOf, Requests;
  }

  /** frec comes to just the requests that are reached. */
  lemma ReachedIsMet(fs: Fs, select: Inode -> bool, inums: seq<int>, list: seq<int>, pi: nat, r: nat)
    requires fs.Valid() && fs.Inopb() > 0 && list == Sort(Collected(fs, select)) && r < |inums|
    requires Waiting(fs.Inopb(), inums, list, pi)
    requires pi <= |inums| && forall i | 0 <= i < pi :: InoBlock(fs.Inopb(), inums[i]) in list
    ensures r < pi <==> Reached(fs, select, inums, r)
  {
    hide Sort, Collected, InoBlock;
    SortMembers(Collected(fs, select));
  }

  /** Nothing of a chosen file is missing. */
  lemma ChosenWhole(fs: Fs, select: Inode -> bool, inums: seq<int>, files: seq<Inode>, list: seq<int>, r: nat)
    requires fs.Valid() && fs.Inopb() > 0 && files == FilesOf(fs, inums) && list == Sort(Collected(fs, select))
    requires r < |inums| && Chosen(fs, select, inums[r])
    requires (forall i | 0 <= i < |files| :: files[i].Valid()) && Recoverable(fs, files) && Wanted(files[r])
    ensures forall j :: !Missing(fs, files, list, r, j)
  {
    hide Sort, Collected, Legit, Phys, LastBlock, FileCollected, Chosen;
    SortMembers(Collected(fs, select));
    ChosenCollected(fs, select, inums[r]);
    forall j
      ensures !Missing(fs, files, list, r, j)
    {
      if Phys(fs, files[r], j) != 0 {
        HasSize(fs, files[r], j);
        NothingMissing(fs, files, Collected(fs, select), list, r, j);
      }
    }
  }

  lemma HasSize(fs: Fs, f: Inode, j: int)
    requires fs.Valid() && Plain(fs, f) && Phys(fs, f, j) != 0
    ensures f.size != 0
  {
    LastBlockBounds(fs, f);
    SizePositive(fs, f);
  }

  lemma NothingMissing(fs: Fs, files: seq<Inode>, c: seq<int>, list: seq<int>, r: nat, j: int)
    requires fs.Valid() && r < |files| && files[r].Valid()
    requires FileCollected(fs, files[r], c) && forall v :: v in list <==> v in c
    ensures !Missing(fs, files, list, r, j)
  {
    hide Legit, Phys, FileCollected;
    forall x | Legit(fs, files, x) && Covers(fs.nindir, x, r, j)
      ensures x.blkno in list
    {
      LegitCollected(fs, files, x, c);
    }
  }

  lemma DumpableFacts(fs: Fs, select: Inode -> bool, inums: seq<int>, factor: nat)
    requires Dumpable(fs, select, inums, factor)
    ensures fs.Valid() && fs.nindir > 0 && fs.Inopb() > 0 && factor > 0 && Requests(fs, inums)
    ensures forall r | 0 <= r < |inums| :: FilesOf(fs, inums)[r] == FileOf(fs, inums[r])
  {
  }

  lemma LimitFacts(finc: Finc)
    requires finc.Limits()
    ensures finc.exceeded <==> |finc.blklist| > finc.maxBlks + 1 || |finc.iblklist| > finc.maxIb + 1
  {
  }

  /** File r has come back, so far as frec came to it. */
  ghost predicate Answered(fs: Fs, select: Inode -> bool, inums: seq<int>, out: seq<map<int, int>>, r: nat)
    requires fs.Valid() && fs.Inopb() > 0 && r < |inums| == |out|
  {
    && (!Reached(fs, select, inums, r) ==> out[r] == map[])
    && (Chosen(fs, select, inums[r]) && Wanted(FileOf(fs, inums[r])) ==>
        if Reached(fs, select, inums, r) then out[r] == Contents(fs, FileOf(fs, inums[r])) else out[r] == map[])
  }

  /** All that was asked for of the files that were dumped is there, up to where frec stopped. */
  lemma Complete(fs: Fs, select: Inode -> bool, inums: seq<int>, factor: nat, list: seq<int>, pi: nat,
                 out: seq<map<int, int>>)
    requires Dumpable(fs, select, inums, factor) && list == Sort(Collected(fs, select))
    requires Waiting(fs.Inopb(), inums, list, pi) && pi <= |inums| == |out| && |FilesOf(fs, inums)| == |inums|
    requires forall i | 0 <= i < pi :: InoBlock(fs.Inopb(), inums[i]) in list
    requires forall r | 0 <= r < |inums| :: FilesOf(fs, inums)[r].Valid()
    requires forall r | 0 <= r < pi && Wanted(FilesOf(fs, inums)[r]) &&
      (forall j :: !Missing(fs, FilesOf(fs, inums), list, r, j)) ::
      out[r] == Contents(fs, FilesOf(fs, inums)[r])
    requires forall r | pi <= r < |out| :: out[r] == map[]
    ensures forall r: nat | r < |inums| :: Answered(fs, select, inums, out, r)
  {
    var files := FilesOf(fs, inums);
    hide Sort, Collected, Missing, Wanted, Contents, Waiting, Recoverable, OnceEach, Reached, Chosen, InoBlock;
    forall r: nat | r < |inums|
      ensures Answered(fs, select, inums, out, r)
    {
      ReachedIsMet(fs, select, inums, list, pi, r);
      if Chosen(fs, select, inums[r]) && Wanted(files[r]) {
        ChosenWhole(fs, select, inums, files, list, r);
      }
    }
  }

  /** A file that is not empty has come back if and only if frec came to it. */
  lemma AnsweredIff(fs: Fs, select: Inode -> bool, inums: seq<int>, out: seq<map<int, int>>)
    requires fs.Valid() && fs.Inopb() > 0 && |inums| == |out|
    requires forall r: nat | r < |inums| :: Answered(fs, select, inums, out, r)
    ensures forall r | 0 <= r < |inums| && !Reached(fs, select, inums, r) :: out[r] == map[]
    ensures forall r | 0 <= r < |inums| && Reached(fs, select, inums, r) && Chosen(fs, select, inums[r]) &&
      Wanted(FileOf(fs, inums[r])) ::
      out[r] == Contents(fs, FileOf(fs, inums[r]))
    ensures forall r | 0 <= r < |inums| && Chosen(fs, select, inums[r]) && Wanted(FileOf(fs, inums[r])) &&
      Contents(fs, FileOf(fs, inums[r])) != map[] ::
      out[r] == Contents(fs, FileOf(fs, inums[r])) <==> Reached(fs, select, inums, r)
  {
    hide Reached, Chosen, Wanted, Contents, FileOf;
    forall r | 0 <= r < |inums|
      ensures Answered(fs, select, inums, out, r)
      ensures !Reached(fs, select, inums, r) ==> out[r] == map[]
      ensures Reached(fs, select, inums, r) && Chosen(fs, select, inums[r]) && Wanted(FileOf(fs, inums[r])) ==>
        out[r] == Contents(fs, FileOf(fs, inums[r]))
    {
    }
  }

  /** finc dumps the files that select chooses; frec is then asked for some inodes. Nothing is
      written but what the files contain. A request for a chosen file is met in full if and only if
      its own block of the inode list and those of all the requests before it were dumped; from the
      first request on for which that is not so, nothing is recovered. */
  method RoundTrip(fs: Fs, select: Inode -> bool, maxBlks: nat, maxIb: nat, factor: nat, inums: seq<int>)
    returns (dumped: bool, out: seq<map<int, int>>)
    requires Dumpable(fs, select, inums, factor)
    ensures dumped <==> |Collected(fs, select)| <= maxBlks + 1 && |Listed(fs, select, fs.fstblk).iblks| <= maxIb + 1
    ensures dumped ==> |out| == |inums| && Sound(fs, FilesOf(fs, inums), out)
    ensures dumped ==> forall r | 0 <= r < |inums| && !Reached(fs, select, inums, r) :: out[r] == map[]
    ensures dumped ==> forall r | 0 <= r < |inums| && Reached(fs, select, inums, r) && Chosen(fs, select, inums[r]) &&
      Wanted(FileOf(fs, inums[r])) ::
      out[r] == Contents(fs, FileOf(fs, inums[r]))
    ensures dumped ==> forall r | 0 <= r < |inums| && Chosen(fs, select, inums[r]) && Wanted(FileOf(fs, inums[r])) &&
      Contents(fs, FileOf(fs, inums[r])) != map[] ::
      out[r] == Contents(fs, FileOf(fs, inums[r])) <==> Reached(fs, select, inums, r)
  {
    hide *;
    DumpableFacts(fs, select, inums, factor);
    out := [];
    var finc := new Finc(fs, select, maxBlks, maxIb);
    finc.Choose();
    LimitFacts(finc);
    SortMembers(Collected(fs, select));
    dumped := !finc.exceeded;
    if dumped {
      var list := finc.blklist;
      ListReady(fs, select, inums, factor, list);
      var w := new Writer(factor, fs.nindir);
      Datacopy(w, fs, list);
      var r := new Reader(factor, w.records);
      var frec := new Frec(r, |list|, fs.nindir, fs.fstblk, inums, fs, list);
      TapeGiven(frec, fs, select, inums, factor, list);
      var pi := frec.Run();
      frec.AskedFacts();
      Complete(fs, select, inums, factor, list, pi, frec.out);
      out := frec.out;
      AnsweredIff(fs, select, inums, out);
    }
  }
}
