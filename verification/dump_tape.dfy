/** How finc blocks its output onto tape records, and how frec takes the records apart again. */
module DumpTape {
  import opened Arith
  import opened DumpDisk

  const INITIO := -1
  const FLUSHIO := -2

  type Record = seq<Block>

  /** The elements of the chunks, in order. */
  ghost function Flat<T>(chunks: seq<seq<T>>): seq<T> {
    if chunks == [] then [] else Flat(chunks[..|chunks| - 1]) + chunks[|chunks| - 1]
  }

  lemma FlatSnoc<T>(chunks: seq<seq<T>>, c: seq<T>)
    ensures Flat(chunks + [c]) == Flat(chunks) + c
  {
    assert (chunks + [c])[..|chunks|] == chunks;
  }

  lemma {:induction false} FlatPrefix<T>(a: seq<seq<T>>, b: seq<seq<T>>)
    requires a <= b
    ensures Flat(a) <= Flat(b)
    decreases |b|
  {
    if |a| < |b| {
      FlatPrefix(a, b[..|b| - 1]);
    } else {
      assert a == b;
    }
  }

  ghost predicate Sized<T>(chunks: seq<seq<T>>, n: nat) {
    forall c | c in chunks :: |c| == n
  }

  lemma {:induction false} FlatSize<T>(chunks: seq<seq<T>>, n: nat)
    requires Sized(chunks, n)
    ensures |Flat(chunks)| == |chunks| * n
  {
    if chunks != [] {
      var k := |chunks| - 1;
      FlatSize(chunks[..k], n);
      MulStep(k, n);
    }
  }

  lemma {:induction false} FlatSized<T>(chunks: seq<seq<seq<T>>>, n: nat)
    requires forall c | c in chunks :: Sized(c, n)
    ensures Sized(Flat(chunks), n)
  {
    if chunks != [] {
      FlatSized(chunks[..|chunks| - 1], n);
      assert Sized(chunks[|chunks| - 1], n);
      forall c | c in Flat(chunks) ensures |c| == n {
        assert c in Flat(chunks[..|chunks| - 1]) || c in chunks[|chunks| - 1];
      }
    }
  }

  /** finc's output side: blocks gather in obuf, factor at a time, and go out as a record. */
  class Writer {
    const factor: nat
    const words: nat     // longs in a block
    const obuf: array<Block>
    var bufn: int
    var records: seq<Record>

    constructor (factor: nat, words: nat)
      requires factor > 0
      ensures this.factor == factor && this.words == words && Buffer() && fresh(obuf) && records == []
    {
      this.factor, this.words := factor, words;
      obuf := new Block[factor](_ => seq(words, _ => 0));
      bufn := INITIO;
      records := [];
    }

    ghost predicate Buffer()
      reads this, obuf
    {
      obuf.Length == factor > 0 && Sized(obuf[..], words) && forall r | r in records :: Sized(r, words)
    }

    /** Since the section beginning at record start was begun, blocks have been put up to, but
        not including, the slot. */
    ghost predicate Filling(start: nat, slot: int)
      reads this, obuf
    {
      && Buffer() && 0 <= slot < factor && start <= |records| && Sized(records[start..], factor)
      && (bufn == slot || (bufn == INITIO && slot == 0 && |records| == start))
    }

    ghost function Put(start: nat, slot: int): seq<Block>
      requires Filling(start, slot)
      reads this, obuf
    {
      Flat(records[start..]) + obuf[..slot]
    }

    lemma SlotSize(start: nat, slot: int)
      requires Filling(start, slot)
      ensures 0 <= slot < obuf.Length && |obuf[slot]| == words
    {
      assert obuf[slot] in obuf[..];
    }

    /** Returns the start of the buffer. */
    method Clrbuf() returns (slot: int)
      requires Buffer()
      modifies this`bufn
      ensures slot == 0 && Filling(|records|, 0) && Put(|records|, 0) == []
    {
      bufn := INITIO;
      slot := 0;
    }

    /** Fills the slot. */
    method Fill(ghost start: nat, slot: int, b: Block)
      requires Filling(start, slot) && |b| == words
      modifies obuf
      ensures Filling(start, slot) && Put(start, slot) == old(Put(start, slot)) && obuf[slot] == b
    {
      hide Flat;
      obuf[slot] := b;
      assert obuf[..slot] == old(obuf[..slot]);
      assert obuf[..] == old(obuf[..])[slot := b];
    }

    /** The block in the slot is done: returns the next slot, writing the buffer if it is full. */
    method Putblk(ghost start: nat, ghost slot: int) returns (next: int)
      requires Filling(start, slot)
      modifies this
      ensures Filling(start, next) && |records| >= |old(records)| && records[..start] == old(records[..start])
      ensures Put(start, next) == old(Put(start, slot)) + [obuf[slot]]
    {
      hide Flat, Sized;
      PutOne(Flat(records[start..]), obuf[..], slot);
      if bufn == INITIO {
        bufn := bufn + 1;
      }
      if bufn == factor - 1 {
        WriteOut(start);
        assert obuf[..slot + 1] == obuf[..];
        bufn := INITIO;
      }
      bufn := bufn + 1;
      next := bufn;
    }

    static lemma PutOne<T>(done: seq<T>, buf: seq<T>, slot: nat)
      requires slot < |buf|
      ensures done + buf[..slot + 1] == (done + buf[..slot]) + [buf[slot]]
    {
    }

    method WriteOut(ghost start: nat)
      requires Buffer() && start <= |records| && Sized(records[start..], factor)
      modifies this`records
      ensures Buffer()
      ensures |records| == |old(records)| + 1 && records[..|old(records)|] == old(records)
      ensures Sized(records[start..], factor)
      ensures Flat(records[start..]) == Flat(old(records[start..])) + obuf[..]
    {
      ghost var before := records[start..];
      records := records + [obuf[..]];
      assert records[start..] == before + [obuf[..]];
      FlatSnoc(before, obuf[..]);
    }

    /** Writes the buffer whatever it holds. */
    method Flshbuf(ghost start: nat, ghost slot: int)
      requires Filling(start, slot)
      modifies this
      ensures Buffer() && |records| == |old(records)| + 1 && records[..start] == old(records[..start])
      ensures start <= |records| && Sized(records[start..], factor)
      ensures old(Put(start, slot)) <= Flat(records[start..])
    {
      bufn := FLUSHIO;
      WriteOut(start);
      bufn := INITIO;
      bufn := bufn + 1;
    }
  }

  /** frec's input side: records are read whole and handed out a block at a time. */
  class Reader {
    const factor: nat
    const records: seq<Record>
    var pos: nat         // the next record to be read
    var ibuf: Record
    var bufn: int
    var curb: int
    ghost var start: nat // where the current section begins

    constructor (factor: nat, records: seq<Record>)
      requires factor > 0 && Sized(records, factor)
      ensures this.factor == factor && this.records == records
      ensures pos == start == 0 && Valid() && Taken() == []
    {
      this.factor, this.records := factor, records;
      pos, start, bufn, curb := 0, 0, INITIO, -1;
      ibuf := [];
    }

    /** Mounts the reel again: the next record is the first. */
    method Rewind()
      requires Valid()
      modifies this
      ensures Valid() && start == pos == 0 && Taken() == []
    {
      pos, start, bufn := 0, 0, INITIO;
    }

    ghost predicate Valid()
      reads this
    {
      && factor > 0 && Sized(records, factor) && start <= pos <= |records|
      && if bufn == INITIO then pos == start
         else 1 <= bufn <= factor && pos > start && ibuf == records[pos - 1] && |ibuf| == factor
    }

    /** The blocks handed out since the section began. */
    ghost function Taken(): seq<Block>
      requires Valid()
      reads this
    {
      if bufn == INITIO then [] else Flat(records[start..pos - 1]) + ibuf[..bufn]
    }

    /** All blocks from the beginning of the section. */
    ghost function Section(): seq<Block>
      requires Valid()
      reads this
    {
      Flat(records[start..])
    }

    /** Begins a section at the next record. */
    method Clrbuf()
      requires Valid()
      modifies this
      ensures Valid() && Taken() == [] && start == pos == old(pos) && curb == old(curb)
    {
      bufn := INITIO;
      start := pos;
    }

    /** The next block; fails where the tape ends. */
    method Getblk() returns (ok: bool, b: Block)
      requires Valid()
      modifies this
      ensures Valid() && start == old(start)
      ensures ok == (|old(Taken())| < |Section()|)
      ensures ok ==> Taken() == old(Taken()) + [b] && curb == old(curb) + 1
      ensures Taken() <= Section()
    {
      hide Flat;
      TakenIsPrefix();
      if bufn >= factor || bufn == INITIO {
        if pos == |records| {
          SectionEnds();
          return false, [];
        }
        NextRecord();
        ghost var before := Taken();
        bufn := 0;
        ibuf := records[pos];
        pos := pos + 1;
        assert Flat(records[start..pos - 1]) + ibuf[..bufn] == before;
      }
      curb := curb + 1;
      b := ibuf[bufn];
      assert ibuf[..bufn + 1] == ibuf[..bufn] + [ibuf[bufn]];
      bufn := bufn + 1;
      ok := true;
      TakenIsPrefix();
    }

    lemma NextRecord()
      requires Valid() && (bufn == INITIO || bufn == factor)
      ensures Flat(records[start..pos]) == Taken()
    {
      if bufn != INITIO {
        assert records[start..pos] == records[start..pos - 1] + [ibuf];
        FlatSnoc(records[start..pos - 1], ibuf);
        assert ibuf[..bufn] == ibuf;
      }
    }

    lemma SectionEnds()
      requires Valid() && (bufn == INITIO || bufn == factor) && pos == |records|
      ensures Taken() == Section()
    {
      NextRecord();
      assert records[start..pos] == records[start..];
    }

    lemma TakenIsPrefix()
      requires Valid()
      ensures Taken() <= Section()
    {
      hide Flat;
      if bufn != INITIO {
        assert records[start..pos] == records[start..pos - 1] + [ibuf];
        FlatSnoc(records[start..pos - 1], ibuf);
        assert records[start..pos] <= records[start..];
        FlatPrefix(records[start..pos], records[start..]);
        PartOf(Flat(records[start..pos - 1]), ibuf, bufn, Section());
      }
    }

    static lemma PartOf<T>(a: seq<T>, b: seq<T>, n: nat, all: seq<T>)
      requires n <= |b| && a + b <= all
      ensures a + b[..n] <= all
    {
    }
  }
}
