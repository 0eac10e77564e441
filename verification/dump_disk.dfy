/** The file system that finc dumps and frec recovers from: blocks, inodes, and the blocks that a
    file owns. */
module DumpDisk {
  import opened Arith

  // The contents of a block, as longs.
  type Block = seq<int>

  const DIRECT := 10
  const NADDR := 13
  const DINODE := 16   // longs in an inode on disk

  /** Byte i of a block; the first byte of a long is its highest. */
  function Byte(b: Block, i: nat): int
    requires i < 4 * |b|
  {
    var w := b[i / 4];
    if i % 4 == 0 then (w / 16777216) % 256
    else if i % 4 == 1 then (w / 65536) % 256
    else if i % 4 == 2 then (w / 256) % 256
    else w % 256
  }

  function Bytes(b: Block): (s: seq<int>)
    ensures |s| == 4 * |b|
  {
    seq(4 * |b|, i requires 0 <= i < 4 * |b| => Byte(b, i))
  }

  datatype Inode = Inode(mode: int, size: int, addr: seq<int>, atime: int, mtime: int, ctime: int) {
    ghost predicate Valid() {
      |addr| == NADDR
    }

    predicate IsDir() {
      (mode / 4096) % 16 == 4
    }
  }

  /** Inode k of an inode list block: two bytes of mode, the size in the third long, thirteen
      three-byte addresses after it, and the three times at the end. */
  function InodeAt(b: Block, k: nat): (i: Inode)
    requires DINODE * (k + 1) <= |b|
    ensures i.Valid()
  {
    Inode(b[DINODE * k] / 65536 % 65536, b[DINODE * k + 2],
          seq(NADDR, j requires 0 <= j < NADDR => Address(b, 4 * DINODE * k + 12 + 3 * j)),
          b[DINODE * k + 13], b[DINODE * k + 14], b[DINODE * k + 15])
  }

  function Address(b: Block, i: nat): int
    requires i + 2 < 4 * |b|
  {
    Byte(b, i) * 65536 + Byte(b, i + 1) * 256 + Byte(b, i + 2)
  }

  /** A mounted device: its blocks, the size of a block in longs, and the first block that does
      not belong to the inode list. */
  datatype Fs = Fs(block: int -> Block, nindir: nat, fstblk: int) {
    ghost predicate Valid() {
      nindir > 0 && fstblk > 2 && forall b :: |block(b)| == nindir
    }

    function Bsize(): int {
      4 * nindir
    }

    function Inopb(): int {
      nindir / DINODE
    }
  }

  lemma BlockSize(fs: Fs, b: int)
    requires fs.Valid()
    ensures |fs.block(b)| == fs.nindir
  {
  }

  /** The device block that holds logical block j of a file, or 0 for a hole. */
  function Phys(fs: Fs, f: Inode, j: int): int
    requires fs.Valid() && f.Valid()
  {
    var n := fs.nindir;
    if j < 0 then 0
    else if j < DIRECT then f.addr[j]
    else if j < DIRECT + n then Entry(fs, f.addr[DIRECT], j - DIRECT)
    else if j < DIRECT + n + n * n then
      Entry(fs, Entry(fs, f.addr[DIRECT + 1], Outer(n, j - DIRECT - n)), Inner(n, j - DIRECT - n))
    else 0
  }

  /** Entry t of the pointer block b; a missing block has none. */
  function Entry(fs: Fs, b: int, t: int): int
    requires fs.Valid() && 0 <= t < fs.nindir
  {
    if b == 0 then 0 else fs.block(b)[t]
  }

  function Outer(n: nat, t: nat): (q: nat)
    requires n > 0 && t < n * n
    ensures q < n
  {
    DivMod(t, n);
    SquareQuotient(n, t / n, t % n);
    t / n
  }

  function Inner(n: nat, t: nat): (r: nat)
    requires n > 0
    ensures r < n
  {
    t % n
  }

  lemma OuterInner(n: nat, q: nat, r: nat)
    requires n > 0 && q < n && r < n
    ensures q * n + r < n * n
    ensures Outer(n, q * n + r) == q && Inner(n, q * n + r) == r
  {
    SquareQuotient(n, q, r);
    DivisionUnique(n, q, r);
  }

  // What a file should contain.

  function LastBlock(fs: Fs, f: Inode): int
    requires fs.Valid()
  {
    (f.size + fs.Bsize() - 1) / fs.Bsize() - 1
  }

  function Residual(fs: Fs, f: Inode): int
    requires fs.Valid()
  {
    if f.size % fs.Bsize() == 0 then fs.Bsize() else f.size % fs.Bsize()
  }

  /** The number of bytes of the file in logical block j. */
  function Count(fs: Fs, f: Inode, j: int): int
    requires fs.Valid()
  {
    if j == LastBlock(fs, f) then Residual(fs, f) else fs.Bsize()
  }

  /** An ordinary file without a triple indirect block, and with no blocks past its end. */
  ghost predicate Plain(fs: Fs, f: Inode)
    requires fs.Valid()
  {
    && f.Valid() && f.mode != 0 && !f.IsDir() && f.size >= 0 && f.addr[NADDR - 1] == 0
    && (forall j :: Phys(fs, f, j) != 0 ==> j <= LastBlock(fs, f))
  }

  /** A file's bytes, by offset; holes have none. */
  ghost function Contents(fs: Fs, f: Inode): map<int, int>
    requires fs.Valid() && f.Valid()
  {
    map o | 0 <= o < f.size && Phys(fs, f, o / fs.Bsize()) != 0 ::
      Bytes(fs.block(Phys(fs, f, o / fs.Bsize())))[o % fs.Bsize()]
  }

  lemma LastBlockBounds(fs: Fs, f: Inode)
    requires fs.Valid() && f.size >= 0
    ensures LastBlock(fs, f) * fs.Bsize() + Residual(fs, f) == f.size
    ensures 0 < Residual(fs, f) <= fs.Bsize() && LastBlock(fs, f) >= -1
  {
    LastBlockArith(f.size, fs.Bsize());
  }

  lemma LastBlockArith(size: nat, b: nat)
    requires b > 0
    ensures ((size + b - 1) / b - 1) * b + (if size % b == 0 then b else size % b) == size
    ensures (size + b - 1) / b >= 0
  {
    var q, r := size / b, size % b;
    DivMod(size, b);
    if r == 0 {
      DivisionUnique(b, q, b - 1);
      MulStep(q - 1, b);
    } else {
      MulStep(q, b);
      DivisionUnique(b, q + 1, r - 1);
    }
  }

  lemma CountArith(last: int, residual: int, b: nat, j: int, t: int)
    requires 0 < residual <= b && 0 <= t < b
    ensures j * b + t < last * b + residual <==> j < last || (j == last && t < residual)
  {
    if j < last {
      MulMono(j + 1, last, b);
      MulStep(j, b);
    } else if j > last {
      MulMono(last + 1, j, b);
      MulStep(last, b);
    }
  }

  /** Byte t of logical block j is within the file exactly when it is among those counted. */
  lemma CountIsSize(fs: Fs, f: Inode, j: int, t: int)
    requires fs.Valid() && f.size >= 0 && 0 <= t < fs.Bsize()
    ensures j * fs.Bsize() + t < f.size <==> j <= LastBlock(fs, f) && t < Count(fs, f, j)
    ensures (j * fs.Bsize() + t) / fs.Bsize() == j && (j * fs.Bsize() + t) % fs.Bsize() == t
  {
    LastBlockBounds(fs, f);
    CountArith(LastBlock(fs, f), Residual(fs, f), fs.Bsize(), j, t);
    DivisionUnique(fs.Bsize(), j, t);
  }
}
