/** How inodes and the blocks of a file stand on disk, by byte and by level. */
module DumpLayout {
  import opened Arith
  import opened DumpDisk

  /** The number that n bytes from i on make up, the highest first. */
  function Word(s: seq<int>, i: nat, n: nat): int
    requires i + n <= |s|
  {
    if n == 0 then 0 else 256 * Word(s, i, n - 1) + s[i + n - 1]
  }

  ghost predicate Longs(b: Block) {
    forall k | 0 <= k < |b| :: 0 <= b[k] < 0x1_0000_0000
  }

  lemma Half(w: int, h: int, l: int)
    requires 0 <= w < 0x1_0000_0000 && h == w / 65536 && l == w % 65536
    ensures h == 256 * (w / 16777216 % 256) + w / 65536 % 256 && l == 256 * (w / 256 % 256) + w % 256
    ensures h == w / 65536 % 65536 && 0 <= h < 65536 && w == 65536 * h + l
  {
    HighHalf(w, h);
    LowHalf(w, h, l);
  }

  lemma HighHalf(w: int, h: int)
    requires 0 <= w < 0x1_0000_0000 && h == w / 65536
    ensures 0 <= h < 65536 && w / 16777216 == h / 256 && h == 256 * (w / 16777216 % 256) + h % 256
  {
  }

  lemma LowHalf(w: int, h: int, l: int)
    requires 0 <= l < 65536 && w == 65536 * h + l
    ensures w % 256 == l % 256 && l == 256 * (w / 256 % 256) + l % 256
  {
    var q := l / 256;
    DivisionUnique(256, 256 * h + q, l % 256);
    assert w / 256 == 256 * h + q;
    assert (256 * h + q) % 256 == q;
  }

  /** A long has its highest byte first. */
  lemma LongIs(b: Block, k: nat)
    requires k < |b| && Longs(b)
    ensures b[k] == Word(Bytes(b), 4 * k, 4) && b[k] / 65536 % 65536 == Word(Bytes(b), 4 * k, 2)
    ensures forall i | 4 * k <= i < 4 * k + 4 :: 0 <= Bytes(b)[i] < 256
  {
    var s, w := Bytes(b), b[k];
    Half(w, w / 65536, w % 65536);
    FourBytes(b, k);
    WordIs(s, 4 * k);
  }

  lemma FourBytes(b: Block, k: nat)
    requires k < |b|
    ensures var s := Bytes(b);
      && s[4 * k] == b[k] / 16777216 % 256 && s[4 * k + 1] == b[k] / 65536 % 256
      && s[4 * k + 2] == b[k] / 256 % 256 && s[4 * k + 3] == b[k] % 256
  {
  }

  lemma WordIs(s: seq<int>, i: nat)
    ensures i + 2 <= |s| ==> Word(s, i, 2) == 256 * s[i] + s[i + 1]
    ensures i + 3 <= |s| ==> Word(s, i, 3) == 65536 * s[i] + 256 * s[i + 1] + s[i + 2]
    ensures i + 4 <= |s| ==> Word(s, i, 4) == 16777216 * s[i] + 65536 * s[i + 1] + 256 * s[i + 2] + s[i + 3]
  {
    if i + 2 <= |s| {
      assert Word(s, i, 0) == 0 && Word(s, i, 1) == s[i];
    }
  }

  /** Inode k takes 64 bytes: the mode in the first two, the size in the third four, thirteen addresses
      of three bytes behind that, and the times in the last twelve. */
  lemma InodeBytes(b: Block, k: nat, j: nat)
    requires DINODE * (k + 1) <= |b| && Longs(b) && j < NADDR
    ensures var s, f, at := Bytes(b), InodeAt(b, k), 64 * k;
      && f.mode == Word(s, at, 2) && f.size == Word(s, at + 8, 4) && f.addr[j] == Word(s, at + 12 + 3 * j, 3)
      && f.atime == Word(s, at + 52, 4) && f.mtime == Word(s, at + 56, 4) && f.ctime == Word(s, at + 60, 4)
  {
    hide Word;
    var n := 16 * k;
    LongIs(b, n);
    LongIs(b, n + 2);
    LongIs(b, n + 13);
    LongIs(b, n + 14);
    LongIs(b, n + 15);
    WordIs(Bytes(b), 64 * k + 12 + 3 * j);
  }

  /** The first ten blocks of a file are named by its inode. */
  lemma DirectBlock(fs: Fs, f: Inode, j: nat)
    requires fs.Valid() && f.Valid() && j < 10
    ensures Phys(fs, f, j) == f.addr[j]
  {
  }

  /** The next by the entries of the block that the eleventh address names. */
  lemma SingleBlock(fs: Fs, f: Inode, r: nat)
    requires fs.Valid() && f.Valid() && r < fs.nindir
    ensures Phys(fs, f, 10 + r) == if f.addr[10] == 0 then 0 else fs.block(f.addr[10])[r]
  {
  }

  /** And the next by the entries of the blocks that the entries of the twelfth name. */
  lemma DoubleBlock(fs: Fs, f: Inode, q: nat, r: nat)
    requires fs.Valid() && f.Valid() && q < fs.nindir && r < fs.nindir
    ensures var j := 10 + fs.nindir + q * fs.nindir + r;
      var p := if f.addr[11] == 0 then 0 else fs.block(f.addr[11])[q];
      j < 10 + fs.nindir + fs.nindir * fs.nindir && Phys(fs, f, j) == if p == 0 then 0 else fs.block(p)[r]
  {
    hide Outer, Inner;
    OuterInner(fs.nindir, q, r);
    var t := q * fs.nindir + r;
    assert 10 + fs.nindir + t - DIRECT - fs.nindir == t;
  }

  /** There are no others. */
  lemma NoMoreBlocks(fs: Fs, f: Inode, j: int)
    requires fs.Valid() && f.Valid() && (j < 0 || j >= 10 + fs.nindir + fs.nindir * fs.nindir)
    ensures Phys(fs, f, j) == 0
  {
  }

  /** Byte o of a file is byte o modulo the size of a block, in the block of that quotient. */
  lemma ByteOfFile(fs: Fs, f: Inode, j: int, t: int)
    requires fs.Valid() && f.Valid() && 0 <= t < 4 * fs.nindir && j >= 0
    ensures var o, p := j * (4 * fs.nindir) + t, Phys(fs, f, j);
      && (o in Contents(fs, f) <==> o < f.size && p != 0)
      && (o in Contents(fs, f) ==> Contents(fs, f)[o] == Bytes(fs.block(p))[t])
  {
    hide Phys, Bytes;
    DivisionUnique(4 * fs.nindir, j, t);
  }
}
