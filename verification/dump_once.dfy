/** finc lists a block once for each place that names it, and no oftener. */
module DumpOnce {
  import opened DumpDisk
  import opened DumpCollect

  // A place: a block by itself; or an address of an inode, by its block, its number there and that of
  // the address; or an entry of a pointer block, by the place that names that and the entry's number.
  type Place = seq<int>

  /** The block that is named there, or 0. */
  function Named(fs: Fs, p: Place): int
    requires fs.Valid()
  {
    if |p| == 0 || |p| == 2 then 0
    else if |p| == 1 then p[0]
    else if |p| == 3 then
      if 0 <= p[1] < fs.Inopb() && 0 <= p[2] < NADDR then Address(fs, p[0], p[1], p[2]) else 0
    else
      var e, i := Named(fs, p[..|p| - 1]), p[|p| - 1];
      if e != 0 && 0 <= i < |fs.block(e)| then fs.block(e)[i] else 0
  }

  function Address(fs: Fs, b: int, k: nat, j: nat): int
    requires fs.Valid() && k < fs.Inopb() && j < NADDR
  {
    BlockSize(fs, b);
    InodeAt(fs.block(b), k).addr[j]
  }

  /** A place that counts: one of the first two blocks, a block of the inode list with an inode that is
      wanted, or, of such an inode with a size, an address or what is below one of the last three. */
  ghost predicate Counts(fs: Fs, select: Inode -> bool, p: Place)
    requires fs.Valid()
  {
    if |p| == 1 then p[0] == 0 || p[0] == 1 || exists k :: Holds(fs, select, p[0], k)
    else
      && |p| >= 3 && p[1] >= 0 && Holds(fs, select, p[0], p[1]) && InodeAt(fs.block(p[0]), p[1]).size != 0
      && 0 <= p[2] < NADDR && |p| <= (if p[2] < DIRECT then 3 else p[2] - 6) && Named(fs, p) != 0
  }

  ghost predicate Different(ps: seq<Place>) {
    forall i, j | 0 <= i < j < |ps| :: ps[i] != ps[j]
  }

  /** Each number of the list is named at a place of its own. */
  ghost predicate Traced(fs: Fs, l: seq<int>, ps: seq<Place>)
    requires fs.Valid()
  {
    |ps| == |l| && Different(ps) && forall i | 0 <= i < |l| :: l[i] == Named(fs, ps[i])
  }

  ghost predicate Apart(ps: seq<Place>, qs: seq<Place>) {
    forall p, q | p in ps && q in qs :: p != q
  }

  lemma TracedBoth(fs: Fs, l: seq<int>, ps: seq<Place>, m: seq<int>, qs: seq<Place>)
    requires fs.Valid() && Traced(fs, l, ps) && Traced(fs, m, qs) && Apart(ps, qs)
    ensures Traced(fs, l + m, ps + qs)
    ensures forall p :: p in ps + qs <==> p in ps || p in qs
  {
    var r := ps + qs;
    forall i, j | 0 <= i < j < |r|
      ensures r[i] != r[j]
    {
      if i < |ps| <= j {
        assert ps[i] in ps && qs[j - |ps|] in qs;
      }
    }
  }

  lemma TracedNone(fs: Fs)
    requires fs.Valid()
    ensures Traced(fs, [], [])
  {
  }

  lemma TracedOne(fs: Fs, p: Place)
    requires fs.Valid()
    ensures Traced(fs, [Named(fs, p)], [p])
  {
  }

  /** p is below q, by at most level levels. */
  ghost predicate Beneath(q: Place, p: Place, level: nat) {
    |q| < |p| <= |q| + level && p[..|q|] == q
  }

  ghost predicate AllBeneath(q: Place, ps: seq<Place>, level: nat) {
    forall p | p in ps :: Beneath(q, p, level)
  }

  ghost predicate Before(q: Place, ps: seq<Place>, n: nat) {
    forall p | p in ps :: |p| > |q| && p[|q|] < n
  }

  lemma EntryNamed(fs: Fs, q: Place, i: nat)
    requires fs.Valid() && |q| >= 3 && Named(fs, q) != 0 && i < fs.nindir
    ensures fs.Valid() && i < |fs.block(Named(fs, q))| && Named(fs, q + [i]) == fs.block(Named(fs, q))[i]
  {
    BlockSize(fs, Named(fs, q));
    assert (q + [i])[..|q|] == q;
  }

  lemma OneDeeper(q: Place, i: nat, ps: seq<Place>, level: nat)
    requires level >= 1 && AllBeneath(q + [i], ps, level - 1)
    ensures AllBeneath(q, [q + [i]] + ps, level) && Before(q, [q + [i]] + ps, i + 1)
    ensures Apart([q + [i]], ps) && forall p | p in [q + [i]] + ps :: |p| > |q| && p[|q|] == i
  {
    var r := q + [i];
    assert r[..|q|] == q;
    forall p | p in [r] + ps
      ensures Beneath(q, p, level) && p[|q|] == i
    {
      if p != r {
        assert p[|q|] == p[..|r|][|q|] && p[..|q|] == p[..|r|][..|q|];
      }
    }
  }

  lemma {:induction false} PointedTraced(fs: Fs, q: Place, n: nat, level: nat) returns (ps: seq<Place>)
    requires fs.Valid() && |q| >= 3 && level >= 1 && Named(fs, q) != 0 && n <= |fs.block(Named(fs, q))|
    ensures Traced(fs, Pointed(fs, fs.block(Named(fs, q))[..n], level), ps)
    ensures AllBeneath(q, ps, level) && Before(q, ps, n)
    decreases level, n
  {
    hide Named, Traced, Pointed, Below, Apart, AllBeneath, Before;
    var b := fs.block(Named(fs, q));
    if n == 0 {
      ps := NonePlaced(fs, q, b, level);
    } else {
      var front := PointedTraced(fs, q, n - 1, level);
      PointedLast(fs, b, n, level);
      BeforeMore(q, front, n);
      BlockSize(fs, Named(fs, q));
      var x := b[n - 1];
      if x == 0 {
        ps := front;
        assert Pointed(fs, b[..n - 1], level) + [] == Pointed(fs, b[..n - 1], level);
      } else {
        var r := q + [n - 1];
        EntryNamed(fs, q, n - 1);
        var below := BelowTraced(fs, r, level - 1);
        OneDeeper(q, n - 1, below, level);
        TracedOne(fs, r);
        TracedBoth(fs, [x], [r], Below(fs, x, level - 1), below);
        BeforeApart(q, front, [r] + below, n);
        TracedBoth(fs, Pointed(fs, b[..n - 1], level), front, [x] + Below(fs, x, level - 1), [r] + below);
        ps := front + ([r] + below);
        AllBeneathBoth(q, front, [r] + below, level, n);
      }
    }
  }

  lemma {:induction false} BelowTraced(fs: Fs, q: Place, level: nat) returns (ps: seq<Place>)
    requires fs.Valid() && |q| >= 3 && Named(fs, q) != 0
    ensures Traced(fs, Below(fs, Named(fs, q), level), ps) && AllBeneath(q, ps, level)
    decreases level, fs.nindir + 1
  {
    hide Named, Traced, Pointed;
    if level == 0 {
      TracedNone(fs);
      ps := [];
    } else {
      var b := fs.block(Named(fs, q));
      BlockSize(fs, Named(fs, q));
      ps := PointedTraced(fs, q, |b|, level);
      assert b[..|b|] == b;
    }
  }

  lemma NonePlaced(fs: Fs, q: Place, b: Block, level: nat) returns (ps: seq<Place>)
    requires fs.Valid() && level >= 1
    ensures Traced(fs, Pointed(fs, b[..0], level), ps) && AllBeneath(q, ps, level) && Before(q, ps, 0)
  {
    ps := [];
  }

  lemma PointedLast(fs: Fs, b: Block, n: nat, level: nat)
    requires fs.Valid() && level >= 1 && 0 < n <= |b|
    ensures var x := b[n - 1];
      Pointed(fs, b[..n], level) ==
        Pointed(fs, b[..n - 1], level) + if x == 0 then [] else [x] + Below(fs, x, level - 1)
  {
    hide Pointed, Below;
    PointedSnoc(fs, b[..n], level);
    assert b[..n][..n - 1] == b[..n - 1];
  }

  lemma BeforeMore(q: Place, ps: seq<Place>, n: nat)
    requires n > 0 && Before(q, ps, n - 1)
    ensures Before(q, ps, n)
  {
  }

  lemma BeforeApart(q: Place, ps: seq<Place>, qs: seq<Place>, n: nat)
    requires n > 0 && Before(q, ps, n - 1) && forall p | p in qs :: |p| > |q| && p[|q|] == n - 1
    ensures Apart(ps, qs)
  {
  }

  lemma AllBeneathBoth(q: Place, ps: seq<Place>, qs: seq<Place>, level: nat, n: nat)
    requires AllBeneath(q, ps, level) && AllBeneath(q, qs, level) && Before(q, ps, n) && Before(q, qs, n)
    ensures AllBeneath(q, ps + qs, level) && Before(q, ps + qs, n)
  {
  }

  lemma TracedNonZero(fs: Fs, l: seq<int>, ps: seq<Place>)
    requires fs.Valid() && Traced(fs, l, ps) && 0 !in l
    ensures forall p | p in ps :: Named(fs, p) != 0
  {
    forall p | p in ps
      ensures Named(fs, p) != 0
    {
      var i :| 0 <= i < |ps| && ps[i] == p;
      assert l[i] in l;
    }
  }

  // What an inode names.

  /** The inode is one that counts, with a size. */
  ghost predicate Sized(fs: Fs, select: Inode -> bool, b: int, k: nat)
    requires fs.Valid()
  {
    Holds(fs, select, b, k) && k < fs.Inopb() && InodeAt(fs.block(b), k).size != 0
  }

  /** Places in the inode. */
  ghost predicate InInode(fs: Fs, select: Inode -> bool, b: int, k: nat, ps: seq<Place>)
    requires fs.Valid()
  {
    forall p | p in ps :: |p| >= 3 && p[0] == b && p[1] == k && Counts(fs, select, p)
  }

  lemma {:induction false} AddrTraced(fs: Fs, select: Inode -> bool, b: int, k: nat, n: nat) returns (ps: seq<Place>)
    requires fs.Valid() && Sized(fs, select, b, k) && n <= NADDR
    ensures |InodeAt(fs.block(b), k).addr| == NADDR
    ensures Traced(fs, NonZero(InodeAt(fs.block(b), k).addr[..n]), ps) && InInode(fs, select, b, k, ps)
    ensures forall p | p in ps :: |p| == 3 && p[2] < n
  {
    hide InodeAt, Holds, Traced, Different, NonZero, Named;
    var l := InodeAt(fs.block(b), k).addr;
    if n == 0 {
      ps := [];
      NoAddresses(fs, l);
    } else {
      var front := AddrTraced(fs, select, b, k, n - 1);
      var p := [b, k, n - 1];
      AddressNamed(fs, b, k, n - 1);
      assert l[..n] == l[..n - 1] + [l[n - 1]];
      NonZeroSnoc(l[..n - 1], l[n - 1]);
      if l[n - 1] == 0 {
        ps := front;
        assert NonZero(l[..n - 1]) + [] == NonZero(l[..n - 1]);
      } else {
        TracedOne(fs, p);
        TracedBoth(fs, NonZero(l[..n - 1]), front, [l[n - 1]], [p]);
        ps := front + [p];
      }
    }
  }

  lemma NoAddresses(fs: Fs, l: seq<int>)
    requires fs.Valid()
    ensures Traced(fs, NonZero(l[..0]), [])
  {
  }

  lemma AddressNamed(fs: Fs, b: int, k: nat, j: nat)
    requires fs.Valid() && k < fs.Inopb() && j < NADDR
    ensures 16 * (k + 1) <= |fs.block(b)| && Named(fs, [b, k, j]) == InodeAt(fs.block(b), k).addr[j]
  {
    BlockSize(fs, b);
  }

  /** What is below address j, of the last three. */
  lemma AddressTraced(fs: Fs, select: Inode -> bool, b: int, k: nat, j: nat) returns (ps: seq<Place>)
    requires fs.Valid() && Sized(fs, select, b, k) && DIRECT <= j < NADDR
    ensures 16 * (k + 1) <= |fs.block(b)|
    ensures Traced(fs, BelowIf(fs, InodeAt(fs.block(b), k).addr[j], j - 9), ps) && InInode(fs, select, b, k, ps)
    ensures forall p | p in ps :: |p| > 3 && p[2] == j
  {
    hide InodeAt, Holds, Traced, Named, Below;
    AddressNamed(fs, b, k, j);
    var q := [b, k, j];
    if Named(fs, q) == 0 {
      TracedNone(fs);
      ps := [];
    } else {
      ps := BelowTraced(fs, q, j - 9);
      TracedNonZero(fs, Below(fs, Named(fs, q), j - 9), ps);
      forall p | p in ps
        ensures |p| > 3 && p[0] == b && p[1] == k && p[2] == j && |p| <= j - 6
      {
        assert p[..3] == q && p[0] == p[..3][0] && p[1] == p[..3][1] && p[2] == p[..3][2];
      }
    }
  }

  lemma IndirectTraced(fs: Fs, select: Inode -> bool, b: int, k: nat) returns (ps: seq<Place>)
    requires fs.Valid() && Sized(fs, select, b, k)
    ensures 16 * (k + 1) <= |fs.block(b)|
    ensures Traced(fs, Indirect(fs, IblkOf(InodeAt(fs.block(b), k))), ps) && InInode(fs, select, b, k, ps)
    ensures forall p | p in ps :: |p| > 3
  {
    hide InodeAt, Holds, Sized, Traced, Counts, BelowIf;
    var p1 := AddressTraced(fs, select, b, k, 10);
    var p2 := AddressTraced(fs, select, b, k, 11);
    var p3 := AddressTraced(fs, select, b, k, 12);
    var l := InodeAt(fs.block(b), k).addr;
    TracedBoth(fs, BelowIf(fs, l[10], 1), p1, BelowIf(fs, l[11], 2), p2);
    TracedBoth(fs, BelowIf(fs, l[10], 1) + BelowIf(fs, l[11], 2), p1 + p2, BelowIf(fs, l[12], 3), p3);
    ps := p1 + p2 + p3;
  }

  // What all inodes name.

  /** Each set of indirect addresses is that of an inode of its own, given by its place. */
  ghost predicate Sourced(fs: Fs, select: Inode -> bool, ibs: seq<Iblk>, ks: seq<Place>)
    requires fs.Valid()
  {
    && |ks| == |ibs| && Different(ks)
    && forall i | 0 <= i < |ks| :: |ks[i]| == 2 && ks[i][1] >= 0 && Sourcing(fs, select, ks[i][0], ks[i][1], ibs[i])
  }

  ghost predicate Sourcing(fs: Fs, select: Inode -> bool, b: int, k: nat, ib: Iblk)
    requires fs.Valid()
  {
    Sized(fs, select, b, k) && 16 * (k + 1) <= |fs.block(b)| && ib == IblkOf(InodeAt(fs.block(b), k))
  }

  lemma SourcedBoth(fs: Fs, select: Inode -> bool, a: seq<Iblk>, ks: seq<Place>, b: seq<Iblk>, ms: seq<Place>)
    requires fs.Valid() && Sourced(fs, select, a, ks) && Sourced(fs, select, b, ms) && Apart(ks, ms)
    ensures Sourced(fs, select, a + b, ks + ms)
    ensures forall p :: p in ks + ms <==> p in ks || p in ms
  {
    hide Sourcing;
    var r := ks + ms;
    forall i, j | 0 <= i < j < |r|
      ensures r[i] != r[j]
    {
      if i < |ks| <= j {
        assert ks[i] in ks && ms[j - |ks|] in ms;
      }
    }
  }

  /** Places in the first k inodes of block b. */
  ghost predicate InBlock(fs: Fs, select: Inode -> bool, b: int, k: nat, ps: seq<Place>)
    requires fs.Valid()
  {
    forall p | p in ps :: |p| == 3 && p[0] == b && p[1] < k && Counts(fs, select, p)
  }

  ghost predicate SetsIn(b: int, k: nat, ks: seq<Place>) {
    forall p | p in ks :: |p| == 2 && p[0] == b && p[1] < k
  }

  lemma SavedTraced(fs: Fs, select: Inode -> bool, b: int, k: nat) returns (ps: seq<Place>, ks: seq<Place>)
    requires fs.Valid() && Holds(fs, select, b, k)
    ensures k < fs.Inopb() && 16 * (k + 1) <= |fs.block(b)|
    ensures var s := Saved(InodeAt(fs.block(b), k));
      Traced(fs, s.blocks, ps) && Sourced(fs, select, s.iblks, ks)
    ensures InInode(fs, select, b, k, ps) && (forall p | p in ps :: |p| == 3) && forall p | p in ks :: p == [b, k]
  {
    hide InodeAt, Traced, NonZero, Counts;
    BlockSize(fs, b);
    ps, ks := [], [];
    TracedNone(fs);
    var f := InodeAt(fs.block(b), k);
    if f.size != 0 {
      ps := AddrTraced(fs, select, b, k, NADDR);
      assert f.addr[..NADDR] == f.addr;
      if IblkOf(f) != Iblk(0, 0, 0) {
        ks := [[b, k]];
      }
    }
  }

  lemma {:induction false} ScannedTraced(fs: Fs, select: Inode -> bool, b: int, k: nat)
      returns (ps: seq<Place>, ks: seq<Place>)
    requires fs.Valid() && 2 <= b < fs.fstblk && k <= fs.Inopb()
    ensures var s := Scanned(fs, select, b, k);
      && Traced(fs, s.blocks, ps) && Sourced(fs, select, s.iblks, ks)
      && (s.any ==> exists i :: Holds(fs, select, b, i))
    ensures InBlock(fs, select, b, k, ps) && SetsIn(b, k, ks)
    decreases k
  {
    hide InodeAt, Traced, Sourced, Holds, Saved, Counts;
    if k == 0 {
      ps, ks := [], [];
      TracedNone(fs);
      SourcedNone(fs, select);
    } else {
      var before := Scanned(fs, select, b, k - 1);
      ps, ks := ScannedTraced(fs, select, b, k - 1);
      if Selected(fs, select, b, k - 1) {
        HoldsIs(fs, select, b, k - 1);
        var own, ms := SavedTraced(fs, select, b, k - 1);
        var s := Saved(InodeAt(fs.block(b), k - 1));
        TracedBoth(fs, before.blocks, ps, s.blocks, own);
        SourcedBoth(fs, select, before.iblks, ks, s.iblks, ms);
        ps, ks := ps + own, ks + ms;
      }
    }
  }

  lemma SourcedNone(fs: Fs, select: Inode -> bool)
    requires fs.Valid()
    ensures Sourced(fs, select, [], [])
  {
  }

  /** Places in the blocks of the inode list from 2 up to b. */
  ghost predicate InList(fs: Fs, select: Inode -> bool, b: int, ps: seq<Place>)
    requires fs.Valid()
  {
    forall p | p in ps :: (|p| == 1 || |p| == 3) && 2 <= p[0] < b && Counts(fs, select, p)
  }

  ghost predicate SetsUpTo(b: int, ks: seq<Place>) {
    forall p | p in ks :: |p| == 2 && p[0] < b
  }

  lemma {:induction false} ListedTraced(fs: Fs, select: Inode -> bool, e: int)
      returns (ps: seq<Place>, ks: seq<Place>)
    requires fs.Valid() && e <= fs.fstblk
    ensures var l := Listed(fs, select, e); Traced(fs, l.blocks, ps) && Sourced(fs, select, l.iblks, ks)
    ensures InList(fs, select, e, ps) && SetsUpTo(e, ks)
    decreases e
  {
    hide Traced, Sourced, Holds, Counts, Scanned, Named, InList, SetsUpTo, InBlock, SetsIn, Apart;
    if e <= 2 {
      NoneListed(fs, select, e);
      ps, ks := [], [];
      TracedNone(fs);
      SourcedNone(fs, select);
    } else {
      var before, s := Listed(fs, select, e - 1), Scanned(fs, select, e - 1, fs.Inopb());
      ps, ks := ListedTraced(fs, select, e - 1);
      var own, ms := ScannedTraced(fs, select, e - 1, fs.Inopb());
      BlockListed(fs, select, e - 1, ps, ks, own, ms);
      TracedBoth(fs, before.blocks, ps, s.blocks, own);
      SourcedBoth(fs, select, before.iblks, ks, s.iblks, ms);
      ps, ks := ps + own, ks + ms;
      if s.any {
        BlockCounts(fs, select, e - 1);
        TracedOne(fs, [e - 1]);
        NotYetListed(fs, select, e - 1, ps);
        TracedBoth(fs, before.blocks + s.blocks, ps, [e - 1], [[e - 1]]);
        ps := ps + [[e - 1]];
      } else {
        assert before.blocks + s.blocks + [] == before.blocks + s.blocks;
      }
    }
  }

  lemma NoneListed(fs: Fs, select: Inode -> bool, e: int)
    requires fs.Valid()
    ensures InList(fs, select, e, []) && SetsUpTo(e, [])
  {
  }

  lemma BlockListed(fs: Fs, select: Inode -> bool, b: int, ps: seq<Place>, ks: seq<Place>, own: seq<Place>,
                    ms: seq<Place>)
    requires fs.Valid() && b >= 2 && InList(fs, select, b, ps) && SetsUpTo(b, ks)
    requires InBlock(fs, select, b, fs.Inopb(), own) && SetsIn(b, fs.Inopb(), ms)
    ensures Apart(ps, own) && Apart(ks, ms) && SetsUpTo(b + 1, ks + ms)
    ensures InList(fs, select, b + 1, ps + own) && [b] !in ps + own
  {
    hide Counts;
  }

  lemma NotYetListed(fs: Fs, select: Inode -> bool, b: int, ps: seq<Place>)
    requires fs.Valid() && b >= 2 && InList(fs, select, b + 1, ps) && [b] !in ps && Counts(fs, select, [b])
    ensures Apart(ps, [[b]]) && InList(fs, select, b + 1, ps + [[b]])
  {
    hide Counts;
  }

  lemma BlockCounts(fs: Fs, select: Inode -> bool, b: int)
    requires fs.Valid()
    ensures Counts(fs, select, [b]) <==> b == 0 || b == 1 || exists k :: Holds(fs, select, b, k)
    ensures Named(fs, [b]) == b
  {
  }

  /** Places below inodes. */
  ghost predicate Below3(fs: Fs, select: Inode -> bool, ks: seq<Place>, ps: seq<Place>)
    requires fs.Valid()
  {
    forall p | p in ps :: |p| > 3 && p[..2] in ks && Counts(fs, select, p)
  }

  lemma LastSource(fs: Fs, select: Inode -> bool, ibs: seq<Iblk>, ks: seq<Place>)
    requires fs.Valid() && Sourced(fs, select, ibs, ks) && ibs != []
    ensures var n := |ibs| - 1;
      && |ks| == n + 1 && Sourced(fs, select, ibs[..n], ks[..n]) && ks[n] !in ks[..n]
      && |ks[n]| == 2 && ks[n][1] >= 0 && Sourcing(fs, select, ks[n][0], ks[n][1], ibs[n])
  {
    hide Sourcing;
  }

  lemma LastBelow(fs: Fs, select: Inode -> bool, ks: seq<Place>, ps: seq<Place>, own: seq<Place>)
    requires fs.Valid() && ks != [] && |ks[|ks| - 1]| == 2 && ks[|ks| - 1][1] >= 0
    requires ks[|ks| - 1] !in ks[..|ks| - 1] && Below3(fs, select, ks[..|ks| - 1], ps)
    requires InInode(fs, select, ks[|ks| - 1][0], ks[|ks| - 1][1], own) && forall p | p in own :: |p| > 3
    ensures Apart(ps, own) && Below3(fs, select, ks, ps + own)
  {
    hide Counts;
    var n := |ks| - 1;
    assert forall k | k in ks[..n] :: k in ks;
    forall p | p in own
      ensures p[..2] == ks[n]
    {
      assert p[..2][0] == p[0] && p[..2][1] == p[1];
    }
  }

  lemma {:induction false} IndirectsTraced(fs: Fs, select: Inode -> bool, ibs: seq<Iblk>, ks: seq<Place>)
      returns (ps: seq<Place>)
    requires fs.Valid() && Sourced(fs, select, ibs, ks)
    ensures Traced(fs, Indirects(fs, ibs), ps) && Below3(fs, select, ks, ps)
    decreases |ibs|
  {
    hide Traced, Counts, Indirect, Holds, InodeAt, Sourced, Apart;
    if ibs == [] {
      ps := [];
      TracedNone(fs);
    } else {
      var n := |ibs| - 1;
      LastSource(fs, select, ibs, ks);
      ps := IndirectsTraced(fs, select, ibs[..n], ks[..n]);
      var own := IndirectTraced(fs, select, ks[n][0], ks[n][1]);
      LastBelow(fs, select, ks, ps, own);
      TracedBoth(fs, Indirects(fs, ibs[..n]), ps, Indirect(fs, ibs[n]), own);
      ps := ps + own;
    }
  }

  /** Every block number that finc collects is named at a place of its own, which counts. */
  lemma CollectedOnce(fs: Fs, select: Inode -> bool) returns (ps: seq<Place>)
    requires fs.Valid()
    ensures Traced(fs, Collected(fs, select), ps) && forall p | p in ps :: Counts(fs, select, p)
  {
    hide Traced, Sourced, Counts, Indirects, Listed, Named;
    var l := Listed(fs, select, fs.fstblk);
    var ks;
    ps, ks := ListedTraced(fs, select, fs.fstblk);
    var below := IndirectsTraced(fs, select, l.iblks, ks);
    BlockCounts(fs, select, 0);
    BlockCounts(fs, select, 1);
    TracedOne(fs, [0]);
    TracedOne(fs, [1]);
    TracedBoth(fs, [0], [[0]], [1], [[1]]);
    assert [0] + [1] == [0, 1];
    var two := [[0]] + [[1]];
    TracedBoth(fs, [0, 1], two, l.blocks, ps);
    TracedBoth(fs, [0, 1] + l.blocks, two + ps, Indirects(fs, l.iblks), below);
    ps := two + ps + below;
  }

  /** No two places that count name the same block. */
  ghost predicate NoneShared(fs: Fs, select: Inode -> bool)
    requires fs.Valid()
  {
    forall p, q | Counts(fs, select, p) && Counts(fs, select, q) && Named(fs, p) == Named(fs, q) :: p == q
  }

  /** Where no block is named twice, none is listed twice. */
  lemma ListedOnce(fs: Fs, select: Inode -> bool)
    requires fs.Valid() && NoneShared(fs, select)
    ensures var l := Collected(fs, select); forall i, j | 0 <= i < j < |l| :: l[i] != l[j]
  {
    hide Counts, Named, Collected;
    var l := Collected(fs, select);
    var ps := CollectedOnce(fs, select);
    forall i, j | 0 <= i < j < |l|
      ensures l[i] != l[j]
    {
      assert ps[i] in ps && ps[j] in ps;
    }
  }
}
