/** The block index at the front of a finc tape: finc's index and datacopy, frec's index, and when
    the two agree on the record at which the data begins. */
module DumpIndex {
  import opened Arith
  import opened DumpDisk
  import opened DumpTape

  /** The number of records finc spends on an index of n entries, m to a block, f blocks to a
      record: a block is put whenever it is full and once more at the end, and then the buffer
      is written whatever it holds. */
  function FincRecords(n: nat, m: nat, f: nat): nat
    requires m > 0 && f > 0
  {
    QuotientNat(n, m);
    var blocks := n / m + 1;
    QuotientNat(blocks, f);
    blocks / f + 1
  }

  /** The number of records frec reads to get them back. */
  function FrecRecords(n: nat, m: nat, f: nat): nat
    requires n > 0 && m > 0 && f > 0
  {
    QuotientNat(n - 1, m);
    var blocks := (n - 1) / m;
    QuotientNat(blocks, f);
    blocks / f + 1
  }

  /** What decides whether the two are the same: the blocks put for the index must not fill the
      last record exactly, nor may the full ones if there are no others. */
  predicate Aligned(n: nat, m: nat, f: nat)
    requires m > 0 && f > 0
  {
    (n / m + 1) % f != 0 && (n % m == 0 ==> (n / m) % f != 0)
  }

  lemma NextQuotient(q: nat, f: nat)
    requires f > 0
    ensures (q + 1) / f == if (q + 1) % f == 0 then q / f + 1 else q / f
  {
    DivMod(q, f);
    DivMod(q + 1, f);
    if q % f + 1 < f {
      DivisionUnique(f, q / f, q % f + 1);
    } else {
      MulStep(q / f, f);
      DivisionUnique(f, q / f + 1, 0);
    }
  }

  lemma LastQuotient(n: nat, m: nat)
    requires n > 0 && m > 0
    ensures (n - 1) / m == if n % m == 0 then n / m - 1 else n / m
    ensures n % m == 0 ==> n / m > 0
  {
    NextQuotient(n - 1, m);
  }

  /** frec begins to read the data where finc began to write it if and only if the index is
      aligned; otherwise it begins earlier. */
  lemma AlignedIsAgreement(n: nat, m: nat, f: nat)
    requires n > 0 && m > 0 && f > 0
    ensures Aligned(n, m, f) <==> FincRecords(n, m, f) == FrecRecords(n, m, f)
    ensures !Aligned(n, m, f) ==> FrecRecords(n, m, f) < FincRecords(n, m, f)
  {
    LastQuotient(n, m);
    var q := n / m;
    NextQuotient(q, f);
    if n % m == 0 {
      NextQuotient(q - 1, f);
    }
  }

  /** With ten blocks of 256 longs to a record, a dump of 2400 blocks is not aligned. */
  lemma MisalignedDump()
    ensures !Aligned(2400, 256, 10) && FincRecords(2400, 256, 10) == 2 && FrecRecords(2400, 256, 10) == 1
  {
  }

  /** The blocks that the numbers in list name. */
  ghost function Blocks(fs: Fs, list: seq<int>): seq<Block> {
    seq(|list|, i requires 0 <= i < |list| => fs.block(list[i]))
  }

  /** What has been entered into the index: whole blocks put, and the used part of the slot. */
  ghost predicate Entered(w: Writer, start: nat, slot: int, used: int, list: seq<int>)
    reads w, w.obuf
  {
    && w.Filling(start, slot) && 0 <= used < w.words && Sized(w.Put(start, slot), w.words)
    && list == Flat(w.Put(start, slot)) + w.obuf[slot][..used]
  }

  /** indxput: one entry goes into the slot, which is put when it is full. */
  method Indxput(w: Writer, l: int, ghost start: nat, slot: int, used: int, ghost list: seq<int>)
    returns (slot': int, used': int)
    requires Entered(w, start, slot, used, list)
    modifies w, w.obuf
    ensures Entered(w, start, slot', used', list + [l])
    ensures w.records[..start] == old(w.records[..start])
  {
    hide Flat, Writer.Filling, Writer.Put;
    ghost var put := w.Put(start, slot);
    w.SlotSize(start, slot);
    w.Fill(start, slot, w.obuf[slot][used := l]);
    assert w.obuf[slot][..used + 1] == old(w.obuf[slot][..used]) + [l];
    slot', used' := slot, used + 1;
    if used' == w.words {
      ghost var b := w.obuf[slot];
      assert b == b[..used + 1];
      FlatSnoc(put, b);
      slot' := w.Putblk(start, slot);
      used' := 0;
      w.SlotSize(start, slot');
      assert w.obuf[slot'][..0] == [];
    }
  }

  /** finc's index: every block number in order, then the slot as it is, then the buffer. */
  method WriteIndex(w: Writer, list: seq<int>)
    requires w.Buffer() && w.words > 0 && forall i | 0 <= i < |list| :: list[i] >= 0
    modifies w, w.obuf
    ensures w.Buffer() && |w.records| == |old(w.records)| + FincRecords(|list|, w.words, w.factor)
    ensures w.records[..|old(w.records)|] == old(w.records)
    ensures Sized(w.records[|old(w.records)|..], w.factor)
    ensures list <= Flat(Flat(w.records[|old(w.records)|..]))
  {
    ghost var start := |w.records|;
    var slot := w.Clrbuf();
    var used := 0;
    assert w.records[..start] == old(w.records);
    assert Flat(w.Put(start, slot)) + w.obuf[slot][..0] == list[..0];
    hide Flat, Sized, Writer.Put, Writer.Filling, Writer.Buffer, Entered, FincRecords;
    for i := 0 to |list|
      invariant Entered(w, start, slot, used, list[..i])
      invariant w.records[..start] == old(w.records)
    {
      assert list[..i + 1] == list[..i] + [list[i]];
      slot, used := Indxput(w, list[i], start, slot, used, list[..i]);
    }
    assert list[..|list|] == list;
    FinishIndex(w, start, slot, used, list);
  }

  /** The end of the index: the slot is put as it is, and the buffer written. */
  method FinishIndex(w: Writer, ghost start: nat, slot0: int, ghost used: int, ghost list: seq<int>)
    requires Entered(w, start, slot0, used, list)
    modifies w
    ensures w.Buffer() && start <= |w.records| && |w.records| == start + FincRecords(|list|, w.words, w.factor)
    ensures w.records[..start] == old(w.records[..start]) && Sized(w.records[start..], w.factor)
    ensures list <= Flat(Flat(w.records[start..]))
  {
    hide Flat, Sized;
    ghost var put, b := w.Put(start, slot0), w.obuf[slot0];
    w.SlotSize(start, slot0);
    PutCount(put, list, b[..used], w.words);
    FlatSnoc(put, b);
    assert b[..used] <= b;
    var slot := w.Putblk(start, slot0);
    ghost var all := w.Put(start, slot);
    RecordCount(w.records[start..], w.obuf[..slot], all, w.factor);
    w.Flshbuf(start, slot);
    FlatPrefix(all, Flat(w.records[start..]));
  }

  lemma PutCount(put: seq<Block>, list: seq<int>, tail: seq<int>, m: nat)
    requires m > 0 && Sized(put, m) && list == Flat(put) + tail && |tail| < m
    ensures |put| == |list| / m
  {
    hide Flat, Sized;
    FlatSize(put, m);
    DivisionUnique(m, |put|, |tail|);
  }

  lemma RecordCount(records: seq<Record>, tail: seq<Block>, all: seq<Block>, f: nat)
    requires f > 0 && Sized(records, f) && all == Flat(records) + tail && |tail| < f
    ensures |records| == |all| / f
  {
    hide Flat, Sized;
    FlatSize(records, f);
    DivisionUnique(f, |records|, |tail|);
  }

  /** finc's datacopy after the index: the blocks themselves, in the order of the list. */
  method CopyBlocks(w: Writer, fs: Fs, list: seq<int>)
    requires w.Buffer() && fs.Valid() && fs.nindir == w.words
    modifies w, w.obuf
    ensures |old(w.records)| <= |w.records| && w.records[..|old(w.records)|] == old(w.records)
    ensures Sized(w.records[|old(w.records)|..], w.factor)
    ensures w.Buffer() && Blocks(fs, list) <= Flat(w.records[|old(w.records)|..])
  {
    hide Flat, Sized;
    ghost var start := |w.records|;
    var slot := w.Clrbuf();
    assert w.records[..start] == old(w.records);
    for i := 0 to |list|
      invariant w.Filling(start, slot) && w.Put(start, slot) == Blocks(fs, list)[..i]
      invariant w.records[..start] == old(w.records)
    {
      var b := fs.block(list[i]);
      BlockSize(fs, list[i]);
      w.Fill(start, slot, b);
      slot := w.Putblk(start, slot);
      assert Blocks(fs, list)[..i + 1] == Blocks(fs, list)[..i] + [b];
    }
    assert Blocks(fs, list)[..|list|] == Blocks(fs, list);
    w.Flshbuf(start, slot);
  }

  /** What frec has of the index after reading some of it: all longs of the blocks taken but the
      last quantity ones. */
  ghost predicate Gathered(taken: seq<Block>, m: nat, list: seq<int>, b: Block, quantity: int) {
    && 0 <= quantity <= |b| && Sized(taken, m)
    && Flat(taken) == list + b[|b| - quantity..]
    && (list != [] ==> |b| == m > quantity)
  }

  lemma NextIndexBlock(r: Reader, m: nat, taken: seq<Block>, list: seq<int>, b: Block, b': Block)
    requires r.Valid() && r.Taken() == taken + [b'] && Sized(r.Section(), m)
    requires Gathered(taken, m, list, b, 0)
    ensures Sized(r.Taken(), m) && |b'| == m && Flat(r.Taken()) == list + b'
  {
    hide Flat, Gathered, Sized;
    r.TakenIsPrefix();
    SizedPrefix(taken, b', r.Section(), m);
    FlatSnoc(taken, b');
    GatheredAll(taken, m, list, b);
  }

  lemma SizedPrefix(taken: seq<Block>, b: Block, section: seq<Block>, m: nat)
    requires taken + [b] <= section && Sized(section, m)
    ensures Sized(taken + [b], m) && |b| == m
  {
    hide Flat;
    var all := taken + [b];
    assert all[|taken|] == b;
    assert forall i | 0 <= i < |all| :: all[i] == section[i];
  }

  lemma GatheredAll(taken: seq<Block>, m: nat, list: seq<int>, b: Block)
    requires Gathered(taken, m, list, b, 0)
    ensures Flat(taken) == list
  {
    hide Flat;
    assert b[|b|..] == [];
  }

  /** The blocks and the records that n longs have taken. */
  lemma IndexTaken(r: Reader, n: nat, m: nat, list: seq<int>, b: Block, quantity: int)
    requires r.Valid() && n == |list| > 0 && m > 0 && Gathered(r.Taken(), m, list, b, quantity)
    ensures list <= Flat(r.Section())
    ensures r.pos == r.start + FrecRecords(n, m, r.factor)
  {
    hide Flat, Reader.Valid, Reader.Taken, Reader.Section;
    var taken := r.Taken();
    r.TakenIsPrefix();
    FlatPrefix(taken, r.Section());
    FlatSize(taken, m);
    BlocksTaken(n, m, |taken|, quantity);
    hide Gathered, Sized;
    RecordsTaken(r);
  }

  /** n longs have taken t blocks, but for the last quantity ones. */
  lemma BlocksTaken(n: nat, m: nat, t: nat, quantity: int)
    requires n > 0 && 0 <= quantity < m && t * m == n + quantity
    ensures t > 0 && (n - 1) / m == t - 1
  {
    PositiveFactor(t, m);
    MulStep(t - 1, m);
    DivisionUnique(m, t - 1, m - 1 - quantity);
  }

  lemma TakenSize(k: nat, f: nat, b: int, size: int)
    requires 1 <= b <= f && size == k * f + b
    ensures (size - 1) / f == k
  {
    DivisionUnique(f, k, b - 1);
  }

  lemma RecordsTaken(r: Reader)
    requires r.Valid() && r.Taken() != []
    ensures r.pos == r.start + (|r.Taken()| - 1) / r.factor + 1
  {
    hide Flat;
    var whole := r.records[r.start..r.pos - 1];
    forall c | c in whole ensures |c| == r.factor {
    }
    FlatSize(whole, r.factor);
    TakenSize(r.pos - 1 - r.start, r.factor, r.bufn, |r.Taken()|);
  }

  /** frec's index: n longs from as many blocks as they take; then the next record is the first
      of the data. Fails where the tape ends. */
  method ReadIndex(r: Reader, n: nat, m: nat) returns (ok: bool, list: seq<int>)
    requires r.Valid() && n > 0 && m > 0 && Sized(Flat(r.records[r.pos..]), m)
    modifies r
    ensures r.Valid()
    ensures |Flat(Flat(r.records[old(r.pos)..]))| >= n ==> ok
    ensures ok ==> |list| == n && list <= Flat(Flat(r.records[old(r.pos)..]))
    ensures ok ==> r.start == r.pos == old(r.pos) + FrecRecords(n, m, r.factor) && r.curb == -1 && r.Taken() == []
  {
    hide Flat, Sized, Reader.Taken;
    r.Clrbuf();
    ghost var from := r.pos;
    list := [];
    var b: Block := [];
    var quantity := 0;
    GatheredNone(m);
    while |list| < n
      invariant |list| <= n && r.Valid() && r.start == from && (list == [] ==> quantity == 0)
      invariant Gathered(r.Taken(), m, list, b, quantity)
    {
      if quantity == 0 {
        ghost var taken, was := r.Taken(), b;
        r.TakenIsPrefix();
        ok, b := r.Getblk();
        if !ok {
          IndexShort(r, m, taken, list, was);
          return;
        }
        NextIndexBlock(r, m, taken, list, was, b);
        quantity := m;
        assert b[|b| - quantity..] == b;
      }
      var l := b[|b| - quantity];
      assert b[|b| - quantity..] == [l] + b[|b| - (quantity - 1)..];
      assert list + ([l] + b[|b| - (quantity - 1)..]) == (list + [l]) + b[|b| - (quantity - 1)..];
      list := list + [l];
      quantity := quantity - 1;
    }
    IndexTaken(r, n, m, list, b, quantity);
    r.curb := -1;
    r.Clrbuf();
    ok := true;
  }

  /** Where the tape ends, all its longs have been gathered. */
  lemma IndexShort(r: Reader, m: nat, taken: seq<Block>, list: seq<int>, b: Block)
    requires r.Valid() && taken <= r.Section() && |taken| >= |r.Section()| && Gathered(taken, m, list, b, 0)
    ensures |Flat(r.Section())| == |list|
  {
    assert taken == r.Section();
    assert b[|b|..] == [];
  }

  lemma GatheredNone(m: nat)
    ensures Gathered([], m, [], [], 0)
  {
  }
}
