/** The inodes frec is asked for, and where they are in the inode list. */
module DumpRequests {
  import opened Arith
  import opened DumpDisk
  import opened DumpPlan
  import opened DumpRoots

  /** The inode list block of inode number i. */
  function InoBlock(inopb: nat, i: int): int
    requires inopb > 0
  {
    2 + (i - 1) / inopb
  }

  function FileOf(fs: Fs, i: int): (f: Inode)
    requires fs.Valid() && fs.Inopb() > 0
    ensures f.Valid()
  {
    InodeAt(fs.block(InoBlock(fs.Inopb(), i)), (i - 1) % fs.Inopb())
  }

  function FilesOf(fs: Fs, inums: seq<int>): (files: seq<Inode>)
    requires fs.Valid() && fs.Inopb() > 0
    ensures |files| == |inums|
  {
    seq(|inums|, r requires 0 <= r < |inums| => FileOf(fs, inums[r]))
  }

  /** The numbers are in order, without repetition, and within the inode list. */
  ghost predicate Requests(fs: Fs, inums: seq<int>)
    requires fs.Valid() && fs.Inopb() > 0
  {
    && (forall i, j | 0 <= i < j < |inums| :: inums[i] < inums[j])
    && forall i | 0 <= i < |inums| :: 1 <= inums[i] <= (fs.fstblk - 2) * fs.Inopb()
  }

  /** The next request's block is not among those seen. */
  ghost predicate Waiting(inopb: nat, inums: seq<int>, seen: seq<int>, pi: nat)
    requires inopb > 0
  {
    pi < |inums| ==> InoBlock(inopb, inums[pi]) !in seen
  }

  lemma NoneWaiting(inopb: nat, inums: seq<int>, seen: seq<int>, pi: nat)
    requires inopb > 0 && pi >= |inums|
    ensures Waiting(inopb, inums, seen, pi)
  {
  }

  predicate AtMost(s: seq<int>, x: int) {
    forall v | v in s :: v <= x
  }

  /** ... or, in the block being scanned, not before inode curi + 1. */
  ghost predicate Scanning(inopb: nat, inums: seq<int>, seen: seq<int>, pi: nat, blk: int, curi: int)
    requires inopb > 0
  {
    Waiting(inopb, inums, seen, pi) && (pi < |inums| && InoBlock(inopb, inums[pi]) == blk ==> inums[pi] > curi)
  }

  lemma InoBlockIs(inopb: nat, i: int)
    requires inopb > 0
    ensures var blk := InoBlock(inopb, i); (blk - 2) * inopb < i <= (blk - 2) * inopb + inopb
  {
    DivMod(i - 1, inopb);
  }

  lemma InoBlockMono(inopb: nat, i: int, j: int)
    requires inopb > 0 && i < j
    ensures InoBlock(inopb, i) <= InoBlock(inopb, j)
  {
    InoBlockIs(inopb, i);
    InoBlockIs(inopb, j);
    var a, b := InoBlock(inopb, i), InoBlock(inopb, j);
    if b < a {
      MulMono(b - 2 + 1, a - 2, inopb);
      MulStep(b - 2, inopb);
    }
  }

  lemma WaitingStart(inopb: nat, inums: seq<int>, seen: seq<int>, pi: nat, blk: int, base: int)
    requires inopb > 0 && Waiting(inopb, inums, seen, pi) && base == (blk - 2) * inopb
    ensures Scanning(inopb, inums, seen, pi, blk, base)
  {
    if pi < |inums| {
      InoBlockIs(inopb, inums[pi]);
    }
  }

  lemma RequestHere(fs: Fs, inums: seq<int>, files: seq<Inode>, pi: nat, blk: int, base: int, ipb: nat)
    requires fs.Valid() && fs.Inopb() > 0 && files == FilesOf(fs, inums) && pi < |inums| && ipb < fs.Inopb()
    requires forall r | 0 <= r < |files| :: files[r].Valid()
    requires base == (blk - 2) * fs.Inopb() && inums[pi] == base + ipb + 1 && Recoverable(fs, files)
    ensures InoBlock(fs.Inopb(), inums[pi]) == blk && InodeAt(fs.block(blk), ipb) == files[pi]
    ensures Wanted(files[pi]) ==> files[pi].size >= 0
  {
    DivisionUnique(fs.Inopb(), blk - 2, ipb);
  }

  lemma ScanTaken(fs: Fs, inums: seq<int>, seen: seq<int>, pi: nat, blk: int, curi: int)
    requires fs.Valid() && fs.Inopb() > 0 && Requests(fs, inums) && pi < |inums| && AtMost(seen, blk)
    requires Waiting(fs.Inopb(), inums, seen, pi) && InoBlock(fs.Inopb(), inums[pi]) == blk && inums[pi] == curi
    ensures Scanning(fs.Inopb(), inums, seen, pi + 1, blk, curi)
  {
    if pi + 1 < |inums| {
      InoBlockMono(fs.Inopb(), inums[pi], inums[pi + 1]);
    }
  }

  lemma ScanDone(inopb: nat, inums: seq<int>, seen: seq<int>, pi: nat, blk: int, base: int, curi: int)
    requires inopb > 0 && Scanning(inopb, inums, seen, pi, blk, curi) && base == (blk - 2) * inopb
    requires pi < |inums| ==> curi == base + inopb
    ensures Waiting(inopb, inums, seen + [blk], pi)
  {
    if pi < |inums| {
      InoBlockIs(inopb, inums[pi]);
    }
  }

  /** The dump begins with the boot block, the super block and a block of the inode list, and ends
      with a block that is not of the inode list. */
  predicate Front(dumped: seq<int>, fstblk: int) {
    |dumped| > 3 && dumped[0] == 0 && dumped[1] == 1 && dumped[2] < fstblk <= dumped[|dumped| - 1]
  }

  /** The inode list has been read as far as it goes: to its last block, or to where the data
      begins. */
  lemma AllSeen(fs: Fs, inums: seq<int>, dumped: seq<int>, curb: int, pi: nat)
    requires fs.Valid() && fs.Inopb() > 0 && Requests(fs, inums) && Front(dumped, fs.fstblk)
    requires forall i, j | 0 <= i < j < |dumped| :: dumped[i] <= dumped[j]
    requires 2 <= curb < |dumped| - 1 && (dumped[curb] >= fs.fstblk - 1 || dumped[curb + 1] >= fs.fstblk)
    requires Waiting(fs.Inopb(), inums, dumped[2..curb + 1], pi)
    ensures Waiting(fs.Inopb(), inums, dumped, pi)
  {
    if pi < |inums| {
      var inopb, v := fs.Inopb(), InoBlock(fs.Inopb(), inums[pi]);
      InoBlockWithin(inopb, fs.fstblk, inums[pi]);
    }
  }

  lemma InoBlockWithin(inopb: nat, fstblk: int, i: int)
    requires inopb > 0 && 1 <= i <= (fstblk - 2) * inopb
    ensures 2 <= InoBlock(inopb, i) < fstblk
  {
    InoBlockIs(inopb, i);
    var q := InoBlock(inopb, i) - 2;
    if q < 0 {
      MulMono(q + 1, 0, inopb);
      MulStep(q, inopb);
    } else if q >= fstblk - 2 {
      MulMono(fstblk - 2, q, inopb);
    }
  }
}
