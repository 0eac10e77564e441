/** cpio out and in: an archive, written through the one buffer and read through the other, gives back
    every file. */
module CpioArchive {
  import opened CpioStream
  import opened CpioHeader

  const CPIOBSZ := 4096

  datatype Entry = Entry(stat: Stat, name: Bytes, data: Bytes)

  // "TRAILER!!!"
  const TRAILER: Bytes := [84, 82, 65, 73, 76, 69, 82, 33, 33, 33]

  predicate Legal(e: Entry) {
    && |e.name| <= 255 && (forall i | 0 <= i < |e.name| :: e.name[i] != 0) && e.name != TRAILER
    && |e.data| < 0x8000_0000
  }

  predicate AllLegal(es: seq<Entry>) {
    forall i | 0 <= i < |es| :: Legal(es[i])
  }

  /** How an archive is written: with characters or in binary, and then in which byte order. */
  datatype Format = Format(cflag: bool, little: bool)

  function HeadSize(f: Format): nat {
    if f.cflag then CHARS else HDRSIZE
  }

  function HdrBytes(h: Hdr, f: Format): (s: Bytes)
    ensures |s| == HeadSize(f)
  {
    CharHeader(h);
    if f.cflag then BinToChar(h) else Image(h, f.little)
  }

  function HdrOf(s: Bytes, f: Format): Hdr
    requires |s| == HeadSize(f)
  {
    if f.cflag then CharToBin(s) else FromImage(s, f.little)
  }

  lemma HdrBack(h: Hdr, f: Format)
    ensures HdrOf(HdrBytes(h, f), f) == h
  {
    CharHeader(h);
    BinaryHeader(h, f.little);
    hide BinToChar, CharToBin, Image, FromImage;
  }

  /** The header and the name, with its NUL. */
  function Head(st: Stat, name: Bytes, size: Ulong, f: Format): (s: Bytes)
    requires |name| <= 255
    ensures |s| == HeadSize(f) + |name| + 1
  {
    HdrBytes(Filled(st, |name| + 1, size), f) + (name + [0])
  }

  /** What a portion of bytes looks like in the archive: itself, and a byte more where that makes it even. */
  predicate Portion(p: Bytes, s: Bytes, f: Format) {
    |p| == Rounded(|s|, f.cflag) && s <= p
  }

  function HeadRoom(name: Bytes, f: Format): nat {
    Rounded(HeadSize(f) + |name| + 1, f.cflag)
  }

  /** The room that an entry takes. */
  function Room(e: Entry, f: Format): nat {
    HeadRoom(e.name, f) + Rounded(|e.data|, f.cflag)
  }

  /** The entry stands at the front. */
  predicate First(s: Bytes, e: Entry, f: Format)
    requires Legal(e)
  {
    var n := HeadRoom(e.name, f);
    && |s| >= Room(e, f) && Portion(s[..n], Head(e.stat, e.name, |e.data|, f), f)
    && Portion(s[n..Room(e, f)], e.data, f)
  }

  /** A stretch of the archive that holds the entries. */
  predicate Part(s: Bytes, es: seq<Entry>, f: Format)
    requires AllLegal(es)
  {
    if es == [] then s == [] else First(s, es[0], f) && Part(s[Room(es[0], f)..], es[1..], f)
  }

  /** An archive: the entries, the trailer, and whatever follows. */
  predicate Archived(s: Bytes, es: seq<Entry>, last: Stat, f: Format)
    requires AllLegal(es)
  {
    if es == [] then
      |s| >= HeadRoom(TRAILER, f) && Portion(s[..HeadRoom(TRAILER, f)], Head(last, TRAILER, 0, f), f)
    else First(s, es[0], f) && Archived(s[Room(es[0], f)..], es[1..], last, f)
  }

  lemma FirstMore(s: Bytes, t: Bytes, e: Entry, f: Format)
    requires Legal(e) && First(s, e, f)
    ensures First(s + t, e, f) && |s| >= Room(e, f) && (s + t)[Room(e, f)..] == s[Room(e, f)..] + t
  {
    hide Head, Legal;
    var n := HeadRoom(e.name, f);
    assert (s + t)[..n] == s[..n] && (s + t)[n..Room(e, f)] == s[n..Room(e, f)];
  }

  lemma FirstIs(h: Bytes, d: Bytes, e: Entry, f: Format)
    requires Legal(e) && Portion(h, Head(e.stat, e.name, |e.data|, f), f) && Portion(d, e.data, f)
    ensures First(h + d, e, f) && |h + d| == Room(e, f)
  {
    hide Head, Legal;
    var s := h + d;
    assert s[..|h|] == h && s[|h|..|h| + |d|] == d;
  }

  lemma {:induction false} PartSnoc(s: Bytes, es: seq<Entry>, e: Entry, p: Bytes, f: Format)
    requires AllLegal(es) && Legal(e) && Part(s, es, f) && First(p, e, f) && |p| == Room(e, f)
    ensures AllLegal(es + [e]) && Part(s + p, es + [e], f)
  {
    hide First, Room, Legal;
    if es == [] {
      assert s + p == p && p[Room(e, f)..] == [] && (es + [e])[1..] == [];
    } else {
      FirstMore(s, p, es[0], f);
      PartSnoc(s[Room(es[0], f)..], es[1..], e, p, f);
      assert (es + [e])[1..] == es[1..] + [e];
    }
  }

  lemma {:induction false} PartArchived(s: Bytes, t: Bytes, es: seq<Entry>, last: Stat, f: Format)
    requires AllLegal(es) && Part(s, es, f)
    requires |t| >= HeadRoom(TRAILER, f) && Portion(t[..HeadRoom(TRAILER, f)], Head(last, TRAILER, 0, f), f)
    ensures Archived(s + t, es, last, f)
  {
    hide First, Room, Legal, Portion, Head, HeadRoom;
    if es == [] {
      assert s + t == t;
    } else {
      FirstMore(s, t, es[0], f);
      PartArchived(s[Room(es[0], f)..], t, es[1..], last, f);
    }
  }

  // Out.

  /** How much of a file goes through the buffer at once. */
  function Count(left: int): int {
    if left > CPIOBSZ then CPIOBSZ else left
  }

  /** The bytes, with whatever stands behind them in memory. */
  method Put(w: Writer, s: Bytes, f: Format) returns (ghost p: Bytes)
    requires w.Valid()
    modifies w, w.cbuf
    ensures w.Valid() && w.Accepted() == old(w.Accepted()) + p && Portion(p, s, f)
  {
    var behind: int := *;
    p := (s + [behind])[..Rounded(|s|, f.cflag)];
    w.Bwrite(s + [behind], |s|, f.cflag);
  }

  /** Some of a file's contents written: left bytes are to come, or fewer than none when the last buffer
      was not full. */
  predicate Sent(p: Bytes, left: int, data: Bytes, f: Format) {
    && left <= |data|
    && if left > 0 then (|data| - left) % CPIOBSZ == 0 && p == data[..|data| - left] else Portion(p, data, f)
  }

  lemma SentMore(p: Bytes, left: int, data: Bytes, q: Bytes, f: Format)
    requires Sent(p, left, data, f) && left > 0
    requires Portion(q, data[|data| - left..|data| - left + Count(left)], f)
    ensures Sent(p + q, left - CPIOBSZ, data, f)
  {
    var at := |data| - left;
    RoundedSum(at, Count(left), f.cflag);
    hide Rounded;
    if left <= CPIOBSZ {
      assert data == p + data[at..];
    } else {
      assert q == data[at..at + CPIOBSZ];
      assert data[..at] + data[at..at + CPIOBSZ] == data[..at + CPIOBSZ];
    }
  }

  lemma RoundedSum(at: nat, n: nat, cflag: bool)
    requires at % CPIOBSZ == 0
    ensures Rounded(at + n, cflag) == at + Rounded(n, cflag) && (at + CPIOBSZ) % CPIOBSZ == 0
    ensures Rounded(CPIOBSZ, cflag) == CPIOBSZ
  {
  }

  /** A file's contents, read and written a buffer at a time. */
  method PutData(w: Writer, data: Bytes, f: Format) returns (ghost p: Bytes)
    requires w.Valid()
    modifies w, w.cbuf
    ensures w.Valid() && w.Accepted() == old(w.Accepted()) + p && Portion(p, data, f)
  {
    p := [];
    var filesz := |data|;
    assert w.Accepted() + [] == w.Accepted();
    while filesz > 0
      invariant w.Valid() && w.Accepted() == old(w.Accepted()) + p && Sent(p, filesz, data, f) && filesz <= |data|
    {
      hide Sent, Portion;
      ghost var q := Put(w, data[|data| - filesz..|data| - filesz + Count(filesz)], f);
      Assoc(old(w.Accepted()), p, q);
      SentMore(p, filesz, data, q, f);
      p := p + q;
      filesz := filesz - CPIOBSZ;
    }
  }

  method PutEntry(w: Writer, e: Entry, f: Format) returns (ghost p: Bytes)
    requires w.Valid() && Legal(e)
    modifies w, w.cbuf
    ensures w.Valid() && w.Accepted() == old(w.Accepted()) + p && First(p, e, f) && |p| == Room(e, f)
  {
    hide Head, Portion;
    ghost var h := Put(w, Head(e.stat, e.name, |e.data|, f), f);
    ghost var d := PutData(w, e.data, f);
    Assoc(old(w.Accepted()), h, d);
    FirstIs(h, d, e, f);
    p := h + d;
  }

  /** cpio -o: the files, the trailer with what was last known of a file, and then the buffer itself,
      whatever is in it, so that everything before is written. */
  method CopyOut(es: seq<Entry>, bufsize: nat, f: Format, none: Stat, cbuf: Bytes) returns (records: seq<Bytes>)
    requires bufsize > 0 && AllLegal(es) && |cbuf| > bufsize
    ensures Archived(Concat(records), es, LastStat(es, none), f)
    ensures forall r | r in records :: |r| == bufsize
  {
    hide Head, Portion, First, Room, Archived, Part, Concat, LastStat;
    var w := new Writer(bufsize);
    var i := 0;
    PartNone(f);
    assert es[..0] == [];
    while i < |es|
      invariant 0 <= i <= |es| && w.Valid() && w.bufsize == bufsize && fresh(w) && fresh(w.cbuf)
      invariant Part(w.Accepted(), es[..i], f)
    {
      ghost var before := w.Accepted();
      ghost var p := PutEntry(w, es[i], f);
      PartSnoc(before, es[..i], es[i], p, f);
      assert es[..i + 1] == es[..i] + [es[i]];
      i := i + 1;
    }
    assert es[..i] == es;
    ghost var written := w.Accepted();
    ghost var t := Put(w, Head(LastStat(es, none), TRAILER, 0, f), f);
    Trailer(t, LastStat(es, none), f);
    w.Bwrite(cbuf, bufsize, f.cflag);
    Flushed(w, written + t, cbuf[..Rounded(bufsize, f.cflag)]);
    records := w.records;
    Whole(written, t, Concat(records), es, LastStat(es, none), f);
    Sizes(w);
  }

  lemma Trailer(t: Bytes, last: Stat, f: Format)
    requires Portion(t, Head(last, TRAILER, 0, f), f)
    ensures |t| == HeadRoom(TRAILER, f)
  {
    hide Head;
  }

  lemma Whole(s: Bytes, t: Bytes, all: Bytes, es: seq<Entry>, last: Stat, f: Format)
    requires AllLegal(es) && Part(s, es, f) && Portion(t, Head(last, TRAILER, 0, f), f) && |t| == HeadRoom(TRAILER, f)
    requires s + t <= all
    ensures Archived(all, es, last, f)
  {
    hide Head, Portion, Part, Archived, HeadRoom;
    var rest := all[|s|..];
    assert all == s + rest;
    assert rest[..|t|] == t by {
      assert all[..|s + t|] == s + t;
    }
    PartArchived(s, rest, es, last, f);
  }

  lemma Sizes(w: Writer)
    requires w.Valid()
    ensures forall r | r in w.records :: |r| == w.bufsize
  {
  }

  function LastStat(es: seq<Entry>, none: Stat): Stat {
    if es == [] then none else es[|es| - 1].stat
  }

  lemma PartNone(f: Format)
    ensures Part([], [], f)
  {
  }

  // In.

  /** The characters before the NUL. */
  function CString(b: Bytes): Bytes {
    if b == [] || b[0] == 0 then [] else [b[0]] + CString(b[1..])
  }

  lemma {:induction false} CStringOf(name: Bytes, b: Bytes)
    requires (forall i | 0 <= i < |name| :: name[i] != 0) && name + [0] <= b
    ensures CString(b) == name
  {
    if name != [] {
      assert b[0] == (name + [0])[0] && b[1..][..|name|] == b[..|name| + 1][1..];
      assert (name + [0])[1..] == name[1..] + [0];
      CStringOf(name[1..], b[1..]);
    } else {
      assert b[0] == (name + [0])[0];
    }
  }

  /** The header's bytes, and then the name's, each taken in a portion of its own. */
  lemma HeadApart(s: Bytes, st: Stat, name: Bytes, size: Ulong, f: Format)
    requires |name| <= 255 && |s| >= HeadRoom(name, f) && Portion(s[..HeadRoom(name, f)], Head(st, name, size, f), f)
    ensures Rounded(HeadSize(f), f.cflag) == HeadSize(f)
    ensures HeadRoom(name, f) == HeadSize(f) + Rounded(|name| + 1, f.cflag)
    ensures s[..HeadSize(f)] == HdrBytes(Filled(st, |name| + 1, size), f)
    ensures name + [0] <= s[HeadSize(f)..][..Rounded(|name| + 1, f.cflag)]
    ensures s[HeadSize(f)..][Rounded(|name| + 1, f.cflag)..] == s[HeadRoom(name, f)..]
  {
    hide HdrBytes, Filled;
    var n, k := HeadSize(f), Rounded(|name| + 1, f.cflag);
    var hd := Head(st, name, size, f);
    var p := s[..HeadRoom(name, f)];
    assert p[..|hd|] == hd;
    assert s[..n] == p[..|hd|][..n] == hd[..n];
    assert s[n..][..k][..|name| + 1] == p[..|hd|][n..] == hd[n..];
  }

  /** gethdr. */
  method GetHdr(r: Reader, f: Format, ghost s: Bytes, ghost st: Stat, ghost name: Bytes, ghost size: Ulong)
    returns (hdr: Hdr, nm: Bytes)
    requires r.Valid() && r.Unread() == s && |name| <= 255 && forall i | 0 <= i < |name| :: name[i] != 0
    requires |s| >= HeadRoom(name, f) && Portion(s[..HeadRoom(name, f)], Head(st, name, size, f), f)
    modifies r, r.cbuf
    ensures r.Valid() && r.Unread() == s[HeadRoom(name, f)..]
    ensures hdr == Filled(st, |name| + 1, size) && nm == name
  {
    hide HdrBytes, HdrOf, Head, Portion, HeadRoom, Rounded, HeadSize;
    HeadApart(s, st, name, size, f);
    HdrBack(Filled(st, |name| + 1, size), f);
    SizeOf(st, |name| + 1, size);
    ghost var k;
    var b;
    b, k := r.Bread(HeadSize(f), f.cflag);
    hdr := HdrOf(b, f);
    hide Filled;
    var c;
    c, k := r.Bread(hdr.namesize, f.cflag);
    CStringOf(name, c);
    nm := CString(c);
  }

  lemma SizeOf(st: Stat, namesize: Ushort, size: Ulong)
    ensures Filled(st, namesize, size).namesize == namesize && Filled(st, namesize, size).magic == MAGIC
  {
  }

  /** Some of a file's contents read, and the rest of the archive: left bytes are to come, or fewer than
      none when the last buffer was not full. */
  predicate Got(b: Bytes, left: int, u: Bytes, s: Bytes, data: Bytes, f: Format) {
    && left <= |data| && |s| >= Rounded(|data|, f.cflag)
    && if left > 0 then (|data| - left) % CPIOBSZ == 0 && b == data[..|data| - left] && u == s[|data| - left..]
       else b == data && u == s[Rounded(|data|, f.cflag)..]
  }

  lemma GotFirst(s: Bytes, data: Bytes, f: Format)
    requires |s| >= Rounded(|data|, f.cflag) && Portion(s[..Rounded(|data|, f.cflag)], data, f)
    ensures Got([], |data|, s, s, data, f) && data <= s
  {
    assert data == s[..Rounded(|data|, f.cflag)][..|data|];
    assert s[Rounded(0, f.cflag)..] == s;
  }

  /** The next ct bytes of the contents, read with n bytes of the archive. */
  lemma Slices(s: Bytes, data: Bytes, at: nat, ct: nat, n: nat)
    requires data <= s && at + ct <= |data| && ct <= n && at + n <= |s|
    ensures data[..at] + s[at..][..n][..ct] == data[..at + ct] && s[at..][n..] == s[at + n..]
  {
    assert s[at..][..n][..ct] == s[at..at + ct];
    assert data == s[..|data|];
    assert data[..at] + s[at..at + ct] == s[..at + ct];
  }

  /** How far the next bytes reach. */
  lemma NextCount(size: nat, left: int, cflag: bool)
    requires 0 < left <= size && (size - left) % CPIOBSZ == 0
    ensures var ct, n, at := Count(left), Rounded(Count(left), cflag), size - left;
      && 0 < ct <= n && at + ct <= size && at + n <= Rounded(size, cflag)
      && if left - CPIOBSZ > 0 then n == ct == CPIOBSZ && (at + ct) % CPIOBSZ == 0
         else ct == left && at + n == Rounded(size, cflag)
  {
    RoundedSum(size - left, Count(left), cflag);
  }

  lemma GotMore(b: Bytes, left: int, u: Bytes, s: Bytes, data: Bytes, f: Format)
    requires Got(b, left, u, s, data, f) && left > 0 && data <= s
    ensures var n := Rounded(Count(left), f.cflag);
      |u| >= n >= Count(left) && Got(b + u[..n][..Count(left)], left - CPIOBSZ, u[n..], s, data, f)
  {
    hide Rounded, Count;
    NextCount(|data|, left, f.cflag);
    var n, at, ct := Rounded(Count(left), f.cflag), |data| - left, Count(left);
    Slices(s, data, at, ct, n);
    assert data[..|data|] == data;
  }

  /** A file's contents, a buffer at a time. */
  method GetData(r: Reader, size: nat, f: Format, ghost s: Bytes, ghost data: Bytes) returns (b: Bytes)
    requires r.Valid() && r.Unread() == s && |data| == size
    requires |s| >= Rounded(size, f.cflag) && Portion(s[..Rounded(size, f.cflag)], data, f)
    modifies r, r.cbuf
    ensures r.Valid() && r.Unread() == s[Rounded(size, f.cflag)..] && b == data
  {
    hide Got, Rounded, Portion, Reader.Valid, Reader.Unread;
    b := [];
    var filesz := size;
    GotFirst(s, data, f);
    while filesz > 0
      invariant r.Valid() && Got(b, filesz, r.Unread(), s, data, f)
    {
      GotMore(b, filesz, r.Unread(), s, data, f);
      var ct := Count(filesz);
      ghost var k;
      var buf;
      buf, k := r.Bread(ct, f.cflag);
      b := b + buf[..ct];
      filesz := filesz - CPIOBSZ;
    }
    GotAll(b, filesz, r.Unread(), s, data, f);
  }

  lemma GotAll(b: Bytes, left: int, u: Bytes, s: Bytes, data: Bytes, f: Format)
    requires Got(b, left, u, s, data, f) && left <= 0
    ensures b == data && u == s[Rounded(|data|, f.cflag)..]
  {
  }

  /** Every archive begins with a header. */
  lemma FrontHead(s: Bytes, es: seq<Entry>, last: Stat, f: Format) returns (hdr: Hdr)
    requires AllLegal(es) && Archived(s, es, last, f)
    ensures hdr.magic == MAGIC && |s| >= HeadSize(f) && s[..HeadSize(f)] == HdrBytes(hdr, f)
  {
    hide HdrBytes, Head, Portion;
    var st, name, size := last, TRAILER, 0;
    if es != [] {
      st, name, size := es[0].stat, es[0].name, |es[0].data|;
      FirstHead(s, es[0], f);
    }
    hdr := Filled(st, |name| + 1, size);
    HeadApart(s, st, name, size, f);
  }

  lemma FirstHead(s: Bytes, e: Entry, f: Format)
    requires Legal(e) && First(s, e, f)
    ensures |s| >= HeadRoom(e.name, f) && Portion(s[..HeadRoom(e.name, f)], Head(e.stat, e.name, |e.data|, f), f)
    ensures var t := s[HeadRoom(e.name, f)..];
      && |t| >= Rounded(|e.data|, f.cflag) && Portion(t[..Rounded(|e.data|, f.cflag)], e.data, f)
      && |s| >= Room(e, f) && t[Rounded(|e.data|, f.cflag)..] == s[Room(e, f)..]
  {
    hide Head, Portion, Rounded;
    var t := s[HeadRoom(e.name, f)..];
    assert t[..Rounded(|e.data|, f.cflag)] == s[HeadRoom(e.name, f)..Room(e, f)];
  }

  /** The first bytes tell the two formats apart. */
  lemma Formats(s: Bytes, hdr: Hdr, f: Format)
    requires hdr.magic == MAGIC && |s| >= CHARS && s[..HeadSize(f)] == HdrBytes(hdr, f)
    ensures CharToBin(s[..CHARS]).magic == MAGIC <==> f.cflag
    ensures !f.cflag ==> Unword(s[..2], f.little) == MAGIC
  {
    CharHeader(hdr);
    hide CharToBin, BinToChar, Image, Unword;
    if !f.cflag {
      assert Image(hdr, f.little) <= s[..CHARS];
      Told(hdr, f.little, s[..CHARS]);
      assert s[..CHARS][..2] == s[..2];
    }
  }

  /** chkhdr: which format it is, found out without losing a byte, if that can be read again. */
  method ChkHdr(r: Reader, little: bool, ghost es: seq<Entry>, ghost last: Stat, ghost f: Format)
    returns (cflag: bool, ok: bool)
    requires r.Valid() && AllLegal(es) && Archived(r.Unread(), es, last, f) && f.little == little
    requires r.nleft == 0 && Rereadable(r.tape, r.cbuf[..], CHARS)
    modifies r, r.cbuf
    ensures r.Valid() && r.Unread() == old(r.Unread()) && ok && cflag == f.cflag
  {
    hide Archived, CharToBin, HdrBytes, Unword, Rereadable;
    ghost var s := r.Unread();
    ghost var hdr := FrontHead(s, es, last, f);
    RecordIn(r);
    Formats(s, hdr, f);
    var b := r.Peek(CHARS, false);
    ok := true;
    cflag := CharToBin(b).magic == MAGIC;
    if !cflag {
      b := r.PeekAgain(2, false);
      ok := Unword(b, little) == MAGIC;
    }
  }

  lemma RecordIn(r: Reader)
    requires r.Valid() && r.nleft == 0 && Rereadable(r.tape, r.cbuf[..], CHARS)
    ensures |r.Unread()| >= CHARS && r.bufsize > CHARS
  {
    assert r.cbuf[r.ip..r.ip + r.nleft] == [];
    var k: nat :| Spans(r.tape, k, CHARS) && Holding(r.tape[..k], r.cbuf[..], CHARS);
    ConcatMono(r.tape, k, |r.tape|);
    assert r.tape[..|r.tape|] == r.tape;
  }

  /** One file, or none at the trailer. */
  method GetEntry(r: Reader, g: Format, ghost es: seq<Entry>, ghost last: Stat)
    returns (ok: bool, more: bool, e: Entry)
    requires r.Valid() && AllLegal(es) && Archived(r.Unread(), es, last, g)
    modifies r, r.cbuf
    ensures r.Valid() && ok && more == (es != [])
    ensures more ==> e == es[0] && Archived(r.Unread(), es[1..], last, g)
  {
    hide Archived, Portion, Head, Rounded, HeadRoom, Filled, First, Room, TRAILER;
    ghost var s := r.Unread();
    ghost var st, name, size := NextHead(s, es, last, g);
    SizeOf(st, |name| + 1, size);
    FilledBack(st, |name| + 1, size);
    var hdr, nm := GetHdr(r, g, s, st, name, size);
    e := Entry(StatOf(hdr), nm, []);
    ok, more := hdr.magic == MAGIC, nm != TRAILER;
    if ok && more {
      NextEntry(s, es, last, g);
      var data := GetData(r, MkLong(hdr.filesize), g, s[HeadRoom(name, g)..], es[0].data);
      e := e.(data := data);
    }
  }

  /** cpio -i: every file comes back, whatever the sizes of the records, if the first bytes can be read
      again, as they can when the first record is full. */
  method CopyIn(tape: seq<Bytes>, bufsize: nat, little: bool, ghost es: seq<Entry>, ghost last: Stat, ghost f: Format)
    returns (got: seq<Entry>, ok: bool)
    requires bufsize > 0 && (forall r | r in tape :: 0 < |r| <= bufsize)
    requires Rereadable(tape, seq(bufsize, _ => 0), CHARS)
    requires AllLegal(es) && Archived(Concat(tape), es, last, f) && f.little == little
    ensures ok && got == es
  {
    hide *;
    EveryEntry(es);
    var r := new Reader(bufsize, tape);
    var cflag: bool;
    cflag, ok := ChkHdr(r, little, es, last, f);
    got := [];
    var more := ok;
    ghost var rest := es;
    while more
      invariant ok && Back(got, rest, es) && AllLegal(rest) && r.Valid() && fresh(r) && fresh(r.cbuf)
      invariant if more then Archived(r.Unread(), rest, last, f) else rest == []
      decreases |rest|, more
    {
      BackMore(got, rest, es);
      var e: Entry;
      ok, more, e := GetEntry(r, Format(cflag, little), rest, last);
      if ok && more {
        got, rest := got + [e], rest[1..];
      }
    }
    BackMore(got, rest, es);
  }

  /** These files are back, and the rest is to come. */
  ghost predicate Back(got: seq<Entry>, rest: seq<Entry>, es: seq<Entry>) {
    got + rest == es && AllLegal(rest)
  }

  lemma EveryEntry(es: seq<Entry>)
    requires AllLegal(es)
    ensures Back([], es, es)
  {
  }

  lemma BackMore(got: seq<Entry>, rest: seq<Entry>, es: seq<Entry>)
    requires Back(got, rest, es)
    ensures if rest == [] then got == es else Back(got + [rest[0]], rest[1..], es) && AllLegal(rest[1..])
  {
    hide Legal;
    if rest != [] {
      assert got + [rest[0]] + rest[1..] == got + rest;
    }
  }

  ghost function Next(es: seq<Entry>, last: Stat): (r: (Stat, Bytes, int)) {
    if es == [] then (last, TRAILER, 0) else (es[0].stat, es[0].name, |es[0].data|)
  }

  /** What gethdr finds. */
  lemma NextHead(s: Bytes, es: seq<Entry>, last: Stat, f: Format) returns (st: Stat, name: Bytes, size: Ulong)
    requires AllLegal(es) && Archived(s, es, last, f)
    ensures (st, name, size) == Next(es, last) && |name| <= 255 && forall i | 0 <= i < |name| :: name[i] != 0
    ensures |s| >= HeadRoom(name, f) && Portion(s[..HeadRoom(name, f)], Head(st, name, size, f), f)
    ensures name == TRAILER <==> es == []
  {
    hide Head, Portion;
    st, name, size := last, TRAILER, 0;
    if es != [] {
      st, name, size := es[0].stat, es[0].name, |es[0].data|;
      FirstHead(s, es[0], f);
    }
  }

  lemma NextEntry(s: Bytes, es: seq<Entry>, last: Stat, f: Format)
    requires AllLegal(es) && Archived(s, es, last, f) && es != []
    ensures var e := es[0];
      && |s| >= HeadRoom(e.name, f)
      && var t := s[HeadRoom(e.name, f)..];
        && |t| >= Rounded(|e.data|, f.cflag) && Portion(t[..Rounded(|e.data|, f.cflag)], e.data, f)
        && Archived(t[Rounded(|e.data|, f.cflag)..], es[1..], last, f)
  {
    hide Head, Portion, First, Room;
    FirstHead(s, es[0], f);
  }

  /** How reads may split up what has been written: each gives some bytes and no more than a record,
      and the first bytes can be read again. */
  ghost predicate SplitOf(rs: seq<Bytes>, parts: seq<Bytes>, bufsize: nat) {
    && Concat(parts) == Concat(rs) && (forall r | r in parts :: 0 < |r| <= bufsize)
    && Rereadable(parts, seq(bufsize, _ => 0), CHARS)
  }

  predicate Records(rs: seq<Bytes>, bufsize: nat) {
    rs != [] && forall r | r in rs :: |r| == bufsize
  }

  ghost predicate Splits(split: seq<Bytes> -> seq<Bytes>, bufsize: nat) {
    forall rs | Records(rs, bufsize) :: SplitOf(rs, split(rs), bufsize)
  }

  /** Records longer than the header that come as they were written are split up in such a way. */
  lemma WholeRecords(rs: seq<Bytes>, bufsize: nat)
    requires bufsize > CHARS && Records(rs, bufsize)
    ensures SplitOf(rs, rs, bufsize)
  {
    assert rs[0] in rs;
    FirstRecord(rs, seq(bufsize, _ => 0), CHARS);
  }

  /** Out and in again, with any lengths of reads if the first bytes can be read again: the files are
      the same. */
  method RoundTrip(es: seq<Entry>, bufsize: nat, f: Format, none: Stat, cbuf: Bytes, split: seq<Bytes> -> seq<Bytes>)
    returns (got: seq<Entry>, ok: bool)
    requires bufsize > 0 && AllLegal(es) && |cbuf| > bufsize && Splits(split, bufsize)
    ensures ok && got == es
  {
    hide Rereadable, Archived;
    var records := CopyOut(es, bufsize, f, none, cbuf);
    NotEmpty(records, es, LastStat(es, none), f);
    got, ok := CopyIn(split(records), bufsize, f.little, es, LastStat(es, none), f);
  }

  lemma NotEmpty(records: seq<Bytes>, es: seq<Entry>, last: Stat, f: Format)
    requires AllLegal(es) && Archived(Concat(records), es, last, f)
    ensures records != []
  {
    var hdr := FrontHead(Concat(records), es, last, f);
  }
}
