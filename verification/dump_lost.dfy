/** Two devices on which frec does less than was asked of it. */
module DumpLost {
  import opened DumpDisk
  import opened DumpCollect
  import opened DumpList
  import opened DumpPlan
  import opened DumpRequests
  import opened DumpRoots
  import opened DumpTheorem

  const REGULAR := 33188

  function Zeros(n: nat): (b: Block)
    ensures |b| == n
  {
    seq(n, _ => 0)
  }

  // Sixteen longs to a block, so that each of the blocks 2 to 4 of the inode list has one inode: the
  // first is not allocated, the second is an empty file, and the third has one byte in block 5.
  const EMPTY: Block := Zeros(16)[0 := REGULAR * 65536]
  const ONE_BYTE: Block := Zeros(16)[0 := REGULAR * 65536][2 := 1][3 := 5 * 256]
  const DATA_BLOCK: Block := Zeros(16)[0 := 7 * 16777216]

  function BlockOf(b: int): (r: Block)
    ensures |r| == 16
  {
    if b == 3 then EMPTY else if b == 4 then ONE_BYTE else if b == 5 then DATA_BLOCK else Zeros(16)
  }

  const DEVICE := Fs(BlockOf, 16, 5)

  const ADDRESSES := [5, 0, 0, 0, 0, 0, 0, 0, 0, 0, 0, 0, 0]

  /** Only the third inode is to be dumped. */
  const SELECT: Inode -> bool := (f: Inode) => f.size == 1

  lemma Words()
    ensures |EMPTY| == |ONE_BYTE| == 16
    ensures EMPTY[0] == ONE_BYTE[0] == REGULAR * 65536 && EMPTY[2] == 0 && ONE_BYTE[2] == 1
    ensures ONE_BYTE[3] == 1280 && forall i | 3 <= i < 16 :: EMPTY[i] == 0 && (i > 3 ==> ONE_BYTE[i] == 0)
  {
  }

  lemma ByteAt(i: nat)
    requires 12 <= i < 64
    ensures Byte(EMPTY, i) == 0 && Byte(ONE_BYTE, i) == if i == 14 then 5 else 0
  {
    Words();
    hide EMPTY, ONE_BYTE;
  }

  lemma AddressAt(j: nat)
    requires j < NADDR
    ensures Address(EMPTY, 12 + 3 * j) == 0 && Address(ONE_BYTE, 12 + 3 * j) == ADDRESSES[j]
  {
    hide Byte;
    ByteAt(12 + 3 * j);
    ByteAt(13 + 3 * j);
    ByteAt(14 + 3 * j);
  }

  lemma Inodes()
    ensures DEVICE.Valid() && DEVICE.Inopb() == 1
    ensures InodeAt(BlockOf(2), 0).mode == 0
    ensures InodeAt(BlockOf(3), 0).mode == REGULAR && InodeAt(BlockOf(3), 0).size == 0
    ensures InodeAt(BlockOf(4), 0).mode == REGULAR && InodeAt(BlockOf(4), 0).size == 1
    ensures InodeAt(BlockOf(4), 0).addr == ADDRESSES
    ensures forall j | 0 <= j < NADDR :: InodeAt(BlockOf(3), 0).addr[j] == 0
  {
    hide Address, EMPTY, ONE_BYTE, ADDRESSES;
    Words();
    AddressCount();
    forall j: nat | j < NADDR
      ensures Address(EMPTY, 12 + 3 * j) == 0 && Address(ONE_BYTE, 12 + 3 * j) == ADDRESSES[j]
    {
      AddressAt(j);
    }
  }

  lemma AddressCount()
    ensures |ADDRESSES| == NADDR
  {
  }

  /** What finc dumps: the boot block, the super block, the third inode and its data; not the second. */
  lemma WhatIsDumped()
    ensures DEVICE.Valid() && multiset(Collected(DEVICE, SELECT)) == multiset{0, 1, 4, 5}
    ensures |Collected(DEVICE, SELECT)| == 4
  {
    hide *;
    WhatIsSaved();
    WhatIsScanned();
    ListedNone();
    ListedNext(2);
    ListedNext(3);
    ListedNext(4);
    WhatIsCollected();
  }

  lemma WhatIsScanned()
    ensures DEVICE.Valid() && DEVICE.Inopb() == 1
    ensures Scanned(DEVICE, SELECT, 2, 1) == Scanned(DEVICE, SELECT, 3, 1) == Found([], [], false)
    ensures Scanned(DEVICE, SELECT, 4, 1) == Found([5], [], true)
  {
    WhatIsSaved();
    hide InodeAt, BlockOf, Saved;
    assert Scanned(DEVICE, SELECT, 4, 0) == Found([], [], false);
  }

  lemma ListedNone()
    ensures DEVICE.Valid() && Listed(DEVICE, SELECT, 2) == Found([], [], false)
  {
  }

  lemma ListedNext(b: int)
    requires b >= 2 && DEVICE.Valid() && DEVICE.Inopb() == 1
    ensures Listed(DEVICE, SELECT, b + 1) ==
      var before, s := Listed(DEVICE, SELECT, b), Scanned(DEVICE, SELECT, b, 1);
      Found(before.blocks + s.blocks + if s.any then [b] else [], before.iblks + s.iblks, true)
  {
    hide Scanned;
  }

  lemma WhatIsCollected()
    requires DEVICE.Valid() && Listed(DEVICE, SELECT, 5) == Found([5, 4], [], true)
    ensures multiset(Collected(DEVICE, SELECT)) == multiset{0, 1, 4, 5} && |Collected(DEVICE, SELECT)| == 4
  {
    hide Listed;
    assert Collected(DEVICE, SELECT) == [0, 1, 5, 4];
  }

  lemma WhatIsSaved()
    ensures DEVICE.Valid() && DEVICE.Inopb() == 1
    ensures Saved(InodeAt(DEVICE.block(4), 0)) == Found([5], [], true)
    ensures InodeAt(DEVICE.block(2), 0).mode == 0 && InodeAt(DEVICE.block(3), 0).size == 0
    ensures InodeAt(DEVICE.block(4), 0).mode != 0 && InodeAt(DEVICE.block(4), 0).size == 1
  {
    Inodes();
    NonZeroAddresses();
    hide InodeAt, BlockOf, NonZero;
    assert IblkOf(InodeAt(DEVICE.block(4), 0)) == Iblk(0, 0, 0);
  }

  lemma NonZeroAddresses()
    ensures NonZero(ADDRESSES) == [5]
  {
    for i := 1 to 13
      invariant NonZero(ADDRESSES[..i]) == [5]
    {
      assert ADDRESSES[..i + 1] == ADDRESSES[..i] + [0];
      NonZeroSnoc(ADDRESSES[..i], 0);
    }
    assert ADDRESSES[..13] == ADDRESSES;
  }

  lemma Files()
    ensures DEVICE.Valid() && DEVICE.Inopb() == 1
    ensures FilesOf(DEVICE, [2, 3]) == [InodeAt(BlockOf(3), 0), InodeAt(BlockOf(4), 0)]
    ensures FileOf(DEVICE, 3) == InodeAt(BlockOf(4), 0)
    ensures InoBlock(1, 2) == 3 && InoBlock(1, 3) == 4
  {
    assert FileOf(DEVICE, 2) == InodeAt(BlockOf(3), 0);
    assert FileOf(DEVICE, 3) == InodeAt(BlockOf(4), 0);
  }

  lemma OnlyBlock(j: int)
    ensures DEVICE.Valid()
    ensures Phys(DEVICE, InodeAt(BlockOf(3), 0), j) == 0
    ensures Phys(DEVICE, InodeAt(BlockOf(4), 0), j) == if j == 0 then 5 else 0
  {
    Inodes();
    hide InodeAt, BlockOf, Byte;
  }

  lemma BothRecoverable()
    ensures DEVICE.Valid() && (forall r | 0 <= r < 2 :: FilesOf(DEVICE, [2, 3])[r].Valid())
    ensures Recoverable(DEVICE, FilesOf(DEVICE, [2, 3])) && OnceEach(DEVICE, FilesOf(DEVICE, [2, 3]))
    ensures Wanted(FileOf(DEVICE, 3)) && 0 in Contents(DEVICE, FileOf(DEVICE, 3))
  {
    Inodes();
    Files();
    hide InodeAt, BlockOf, Byte, Phys, Bytes;
    var files := FilesOf(DEVICE, [2, 3]);
    forall j
      ensures Phys(DEVICE, files[0], j) == 0 && Phys(DEVICE, files[1], j) == if j == 0 then 5 else 0
    {
      OnlyBlock(j);
    }
    OnlyItem(files);
  }

  lemma OnlyItem(files: seq<Inode>)
    requires files == [InodeAt(BlockOf(3), 0), InodeAt(BlockOf(4), 0)] && DEVICE.Valid()
    requires files[1].mode == REGULAR && files[1].size == 1
    requires files[1].addr == ADDRESSES && forall j | 0 <= j < NADDR :: files[0].addr[j] == 0
    requires forall j :: Phys(DEVICE, files[0], j) == 0 && Phys(DEVICE, files[1], j) == if j == 0 then 5 else 0
    ensures forall x | Legit(DEVICE, files, x) :: x == Item(DATA, 1, 5, Count(DEVICE, files[1], 0), 0)
  {
    hide InodeAt, BlockOf, Byte, Phys, Bytes, Count;
  }

  /** The third inode is dumped, and cannot be got back together with the second: that one's block is
      not on the tape, and frec stops there. By itself it can. */
  lemma LostFile()
    ensures Dumpable(DEVICE, SELECT, [2, 3], 2)
    ensures Chosen(DEVICE, SELECT, 3) && Wanted(FileOf(DEVICE, 3)) && Contents(DEVICE, FileOf(DEVICE, 3)) != map[]
    ensures !Reached(DEVICE, SELECT, [2, 3], 1) && Reached(DEVICE, SELECT, [3], 0)
  {
    Inodes();
    Files();
    WhatIsDumped();
    BothRecoverable();
    hide InodeAt, BlockOf, Byte, Phys, Bytes, Collected, Recoverable, OnceEach, Contents, FileOf, FilesOf, InoBlock;
    var c := Collected(DEVICE, SELECT);
    assert forall v :: v in c <==> v in multiset(c);
    assert InoBlock(1, [2, 3][0]) == 3;
  }

  lemma NothingBehind(f: Inode)
    requires f == Inode(REGULAR, 65, ADDRESSES[0 := 0][1 := 5], 0, 0, 0)
    ensures DEVICE.Valid() && f.Valid() && forall j :: Phys(DEVICE, f, j) != 0 ==> j <= 1
  {
    forall j | j > 1
      ensures Phys(DEVICE, f, j) == 0
    {
      if j < DIRECT {
        assert f.addr[j] == 0;
      }
    }
  }

  /** A hole, and then a block of which one byte is in the file: frec takes all of it. */
  lemma HoleBeforeLast()
    ensures DEVICE.Valid()
    ensures var f := Inode(REGULAR, 65, ADDRESSES[0 := 0][1 := 5], 0, 0, 0);
      && Plain(DEVICE, f) && !DirectOk(DEVICE, f)
      && Count(DEVICE, f, 1) == 1 && SavedCount(DEVICE, f, 1) == 64
  {
    var f := Inode(REGULAR, 65, ADDRESSES[0 := 0][1 := 5], 0, 0, 0);
    assert f.addr[0] == 0 && f.addr[1] == 5 && DEVICE.Bsize() == 64;
    hide BlockOf, Phys;
    assert LastBlock(DEVICE, f) == 1 && Residual(DEVICE, f) == 1;
    assert Holes(f, 0) == 0 && Remaining(DEVICE, f, 0) == 65;
    assert Holes(f, 1) == 1;
    assert Remaining(DEVICE, f, 1) == 65;
    NothingBehind(f);
  }
}
