/** Where everything stands in a cpio archive, byte by byte. */
module CpioLayout {
  import opened Strings
  import opened CpioStream
  import opened CpioHeader
  import opened CpioArchive

  // Fields.

  function Power(n: nat): nat {
    if n == 0 then 1 else 8 * Power(n - 1)
  }

  /** The number that octal digits write, from the first on. */
  function Octals(s: Bytes): int {
    if s == [] then 0 else (s[0] - 48) * Power(|s| - 1) + Octals(s[1..])
  }

  /** The bytes of s from at on are an octal number of w digits. */
  predicate NumberAt(s: Bytes, at: nat, w: nat, n: int) {
    at + w <= |s| && (forall i | at <= i < at + w :: 48 <= s[i] <= 55) && Octals(s[at..at + w]) == n
  }

  /** The two bytes of s from at on are the word n. */
  predicate WordAt(s: Bytes, at: nat, n: int, little: bool) {
    at + 2 <= |s| && s[if little then at else at + 1] == n % 256 && s[if little then at + 1 else at] == n / 256
  }

  lemma {:induction false} OctalsSnoc(s: Bytes, d: int)
    ensures Octals(s + [d]) == 8 * Octals(s) + d - 48
  {
    if s == [] {
      assert s + [d] == [d] && [d][1..] == [];
    } else {
      OctalsSnoc(s[1..], d);
      assert (s + [d])[1..] == s[1..] + [d];
      Distribute(s[0] - 48, Power(|s| - 1));
    }
  }

  lemma Distribute(a: int, p: int)
    ensures a * (8 * p) == 8 * (a * p)
  {
  }

  lemma {:induction false} OctalIs(n: nat, w: nat)
    requires n < Pow8(w)
    ensures Octals(Octal(n, w)) == n && forall i | 0 <= i < w :: 48 <= Octal(n, w)[i] <= 55
  {
    if w > 0 {
      OctalIs(n / 8, w - 1);
      OctalsSnoc(Octal(n / 8, w - 1), 48 + n % 8);
    }
  }

  // The header with characters.

  function Before(ws: seq<nat>, k: nat): nat
    requires k <= |ws|
  {
    if k == 0 then 0 else ws[0] + Before(ws[1..], k - 1)
  }

  lemma {:induction false} PrintAt(vs: seq<nat>, ws: seq<nat>, k: nat)
    requires |vs| == |ws| && k < |vs| && vs[k] < Pow8(ws[k])
    ensures NumberAt(Print(vs, ws), Before(ws, k), ws[k], vs[k])
  {
    var s, front := Print(vs, ws), Octal(vs[0], ws[0]);
    if k == 0 {
      OctalIs(vs[0], ws[0]);
      assert s[..ws[0]] == front;
      assert forall i | 0 <= i < ws[0] :: s[i] == front[i];
    } else {
      PrintAt(vs[1..], ws[1..], k - 1);
      var rest, at := Print(vs[1..], ws[1..]), Before(ws[1..], k - 1);
      NumberBehind(front, rest, at, ws[k], vs[k]);
    }
  }

  lemma NumberBehind(a: Bytes, b: Bytes, at: nat, w: nat, n: int)
    requires NumberAt(b, at, w, n)
    ensures NumberAt(a + b, |a| + at, w, n)
  {
    hide Octals;
    assert (a + b)[|a| + at..|a| + at + w] == b[at..at + w];
    assert forall i | |a| + at <= i < |a| + at + w :: (a + b)[i] == b[i - |a|];
  }

  lemma Places()
    ensures forall k | 0 <= k <= 8 :: Before(WIDTHS, k) == 6 * k
    ensures Before(WIDTHS, 9) == 59 && Before(WIDTHS, 10) == 65
  {
    forall k | 0 <= k <= 8
      ensures Before(WIDTHS, k) == 6 * k
    {
      SixEach(WIDTHS, k);
    }
    BeforeSum(WIDTHS, 8, 1);
    BeforeSum(WIDTHS, 9, 1);
  }

  lemma {:induction false} SixEach(ws: seq<nat>, k: nat)
    requires k <= |ws| && forall i | 0 <= i < k :: ws[i] == 6
    ensures Before(ws, k) == 6 * k
  {
    if k > 0 {
      SixEach(ws[1..], k - 1);
    }
  }

  lemma {:induction false} BeforeSum(ws: seq<nat>, k: nat, one: nat)
    requires k < |ws| && one == 1
    ensures Before(ws, k + one) == Before(ws, k) + ws[k]
  {
    if k > 0 {
      BeforeSum(ws[1..], k - 1, one);
    }
  }

  /** What is said of a file stands in octal: the magic number, then in this order, with these widths. */
  predicate CharsAt(s: Bytes, at: nat, magic: int, st: Stat, namesize: int, size: int) {
    && NumberAt(s, at, 6, magic) && NumberAt(s, at + 6, 6, st.dev) && NumberAt(s, at + 12, 6, st.ino)
    && NumberAt(s, at + 18, 6, st.mode) && NumberAt(s, at + 24, 6, st.uid) && NumberAt(s, at + 30, 6, st.gid)
    && NumberAt(s, at + 36, 6, st.nlink) && NumberAt(s, at + 42, 6, st.rdev) && NumberAt(s, at + 48, 11, st.mtime)
    && NumberAt(s, at + 59, 6, namesize) && NumberAt(s, at + 65, 11, size)
  }

  lemma NumberPlace(h: Hdr, k: nat)
    requires k < 11
    ensures NumberAt(BinToChar(h), Before(WIDTHS, k), WIDTHS[k], Numbers(h)[k])
  {
    hide Print, Numbers, Before;
    NumbersFit(h);
    PrintAt(Numbers(h), WIDTHS, k);
  }

  /** Every header with characters. */
  lemma CharFields(h: Hdr)
    ensures CharsAt(BinToChar(h), 0, h.magic, StatOf(h), h.namesize, MkLong(h.filesize))
  {
    hide BinToChar, Before, NumberAt, MkLong;
    Places();
    NumberPlace(h, 0);
    NumberPlace(h, 1);
    NumberPlace(h, 2);
    NumberPlace(h, 3);
    NumberPlace(h, 4);
    NumberPlace(h, 5);
    NumberPlace(h, 6);
    NumberPlace(h, 7);
    NumberPlace(h, 8);
    NumberPlace(h, 9);
    NumberPlace(h, 10);
  }

  // The header in binary.

  lemma {:induction false} WordsPlace(vs: seq<Ushort>, little: bool, k: nat)
    requires k < |vs|
    ensures WordAt(Words(vs, little), 2 * k, vs[k], little)
  {
    var s := Words(vs, little);
    if k == 0 {
      assert s[0] == Word(vs[0], little)[0] && s[1] == Word(vs[0], little)[1];
    } else {
      WordsPlace(vs[1..], little, k - 1);
      var rest := Words(vs[1..], little);
      assert s[2 * k] == rest[2 * k - 2] && s[2 * k + 1] == rest[2 * k - 1];
    }
  }

  /** The same in binary, in words; of a long the high word stands first. */
  predicate WordsAt(s: Bytes, at: nat, magic: int, st: Stat, namesize: int, size: int, little: bool) {
    && WordAt(s, at, magic, little) && WordAt(s, at + 2, st.dev, little) && WordAt(s, at + 4, st.ino, little)
    && WordAt(s, at + 6, st.mode, little) && WordAt(s, at + 8, st.uid, little) && WordAt(s, at + 10, st.gid, little)
    && WordAt(s, at + 12, st.nlink, little) && WordAt(s, at + 14, st.rdev, little)
    && WordAt(s, at + 16, st.mtime / 65536, little) && WordAt(s, at + 18, st.mtime % 65536, little)
    && WordAt(s, at + 20, namesize, little)
    && WordAt(s, at + 22, size / 65536, little) && WordAt(s, at + 24, size % 65536, little)
  }

  lemma HalvesOf(v: (Ushort, Ushort))
    ensures MkLong(v) / 65536 == v.0 && MkLong(v) % 65536 == v.1
  {
  }

  /** Every header in binary, in either byte order. */
  lemma WordFields(h: Hdr, little: bool)
    ensures WordsAt(Image(h, little), 0, h.magic, StatOf(h), h.namesize, MkLong(h.filesize), little)
  {
    HalvesOf(h.mtime);
    HalvesOf(h.filesize);
    var vs, s := Shorts(h), Image(h, little);
    hide Words, WordAt, MkLong;
    forall k: nat | k < 13
      ensures WordAt(s, 2 * k, vs[k], little)
    {
      WordsPlace(vs, little, k);
    }
    assert WordAt(s, 2 * 0, vs[0], little) && WordAt(s, 2 * 1, vs[1], little) && WordAt(s, 2 * 2, vs[2], little);
    assert WordAt(s, 2 * 3, vs[3], little) && WordAt(s, 2 * 4, vs[4], little) && WordAt(s, 2 * 5, vs[5], little);
    assert WordAt(s, 2 * 6, vs[6], little) && WordAt(s, 2 * 7, vs[7], little) && WordAt(s, 2 * 8, vs[8], little);
    assert WordAt(s, 2 * 9, vs[9], little) && WordAt(s, 2 * 10, vs[10], little) && WordAt(s, 2 * 11, vs[11], little);
    assert WordAt(s, 2 * 12, vs[12], little);
  }

  // The archive.

  /** From a on there are these bytes. */
  predicate BytesAt(s: Bytes, at: nat, b: Bytes) {
    at + |b| <= |s| && s[at..at + |b|] == b
  }

  /** Where a portion that begins at at and has n bytes ends: in binary at an even distance. */
  function EndOf(at: nat, n: nat, f: Format): nat {
    if !f.cflag && n % 2 == 1 then at + n + 1 else at + n
  }

  /** A header, the name behind it, and the contents behind that. */
  predicate FileAt(s: Bytes, at: nat, st: Stat, name: Bytes, data: Bytes, f: Format) {
    var n := if f.cflag then 76 else 26;
    var behind := EndOf(at, n + |name| + 1, f);
    && (if f.cflag then CharsAt(s, at, Octals(Codes("070707")), st, |name| + 1, |data|)
        else WordsAt(s, at, Octals(Codes("070707")), st, |name| + 1, |data|, f.little))
    && BytesAt(s, at + n, name + [0]) && BytesAt(s, behind, data) && EndOf(behind, |data|, f) <= |s|
  }

  function NextAt(at: nat, name: Bytes, data: Bytes, f: Format): nat {
    EndOf(EndOf(at, (if f.cflag then 76 else 26) + |name| + 1, f), |data|, f)
  }

  /** The files one after the other, and at the end an empty one with the name of the trailer. */
  ghost predicate FilesAt(s: Bytes, at: nat, es: seq<Entry>, last: Stat, f: Format)
    decreases |es|
  {
    if es == [] then FileAt(s, at, last, Codes("TRAILER!!!"), [], f)
    else
      FileAt(s, at, es[0].stat, es[0].name, es[0].data, f) &&
      FilesAt(s, NextAt(at, es[0].name, es[0].data, f), es[1..], last, f)
  }

  lemma MagicIs()
    ensures Octals(Codes("070707")) == MAGIC
  {
    var s := Codes("070707");
    assert s == [48] + [55] + [48] + [55] + [48] + [55];
    assert Octals([]) == 0;
    OctalsSnoc([], 48);
    OctalsSnoc([48], 55);
    OctalsSnoc([48] + [55], 48);
    OctalsSnoc([48] + [55] + [48], 55);
    OctalsSnoc([48] + [55] + [48] + [55], 48);
    OctalsSnoc([48] + [55] + [48] + [55] + [48], 55);
    assert [] + [48] == [48];
  }

  lemma TrailerIs()
    ensures Codes("TRAILER!!!") == TRAILER
  {
  }

  lemma NumberMoved(s: Bytes, t: Bytes, at: nat, i: nat, w: nat, n: int)
    requires NumberAt(t, i, w, n) && at + |t| <= |s| && s[at..at + |t|] == t
    ensures NumberAt(s, at + i, w, n)
  {
    hide Octals;
    forall k | at + i <= k < at + i + w
      ensures s[k] == t[k - at]
    {
      assert s[k] == s[at..at + |t|][k - at];
    }
    assert s[at + i..at + i + w] == t[i..i + w];
  }

  lemma WordMoved(s: Bytes, t: Bytes, at: nat, i: nat, n: int, little: bool)
    requires WordAt(t, i, n, little) && at + |t| <= |s| && s[at..at + |t|] == t
    ensures WordAt(s, at + i, n, little)
  {
    assert s[at + i] == s[at..at + |t|][i] && s[at + i + 1] == s[at..at + |t|][i + 1];
  }

  lemma CharsMoved(s: Bytes, t: Bytes, at: nat, magic: int, st: Stat, namesize: int, size: int)
    requires CharsAt(t, 0, magic, st, namesize, size) && at + |t| <= |s| && s[at..at + |t|] == t
    ensures CharsAt(s, at, magic, st, namesize, size)
  {
    hide NumberAt;
    forall i, w, n | NumberAt(t, i, w, n)
      ensures NumberAt(s, at + i, w, n)
    {
      NumberMoved(s, t, at, i, w, n);
    }
  }

  lemma WordsMoved(s: Bytes, t: Bytes, at: nat, magic: int, st: Stat, namesize: int, size: int, little: bool)
    requires WordsAt(t, 0, magic, st, namesize, size, little) && at + |t| <= |s| && s[at..at + |t|] == t
    ensures WordsAt(s, at, magic, st, namesize, size, little)
  {
    hide WordAt;
    forall i, n | WordAt(t, i, n, little)
      ensures WordAt(s, at + i, n, little)
    {
      WordMoved(s, t, at, i, n, little);
    }
  }

  /** A header and a name, as they stand in an archive. */
  lemma HeadAt(s: Bytes, at: nat, st: Stat, name: Bytes, size: Ulong, f: Format)
    requires |name| <= 255 && BytesAt(s, at, Head(st, name, size, f))
    ensures if f.cflag then CharsAt(s, at, MAGIC, st, |name| + 1, size) && BytesAt(s, at + 76, name + [0])
            else WordsAt(s, at, MAGIC, st, |name| + 1, size, f.little) && BytesAt(s, at + 26, name + [0])
  {
    hide CharsAt, WordsAt, HdrBytes, BinToChar, Image;
    var h, n := Filled(st, |name| + 1, size), HeadSize(f);
    var b := HdrBytes(h, f);
    var t := Head(st, name, size, f);
    assert |t| == n + |name| + 1 && t[..n] == b && t[n..] == name + [0];
    assert s[at..at + n] == s[at..at + |t|][..n] && s[at + n..at + |t|] == s[at..at + |t|][n..];
    HeadFields(h, st, |name| + 1, size, f);
    if f.cflag {
      CharsMoved(s, b, at, MAGIC, st, |name| + 1, size);
    } else {
      WordsMoved(s, b, at, MAGIC, st, |name| + 1, size, f.little);
    }
  }

  lemma HeadFields(h: Hdr, st: Stat, namesize: Ushort, size: Ulong, f: Format)
    requires h == Filled(st, namesize, size)
    ensures |HdrBytes(h, f)| == if f.cflag then 76 else 26
    ensures if f.cflag then CharsAt(HdrBytes(h, f), 0, MAGIC, st, namesize, size)
            else WordsAt(HdrBytes(h, f), 0, MAGIC, st, namesize, size, f.little)
  {
    hide CharsAt, WordsAt, BinToChar, Image;
    FilledBack(st, namesize, size);
    CharFields(h);
    WordFields(h, f.little);
  }

  lemma PortionAt(s: Bytes, at: nat, p: Bytes, b: Bytes, f: Format)
    requires BytesAt(s, at, p) && Portion(p, b, f)
    ensures BytesAt(s, at, b) && EndOf(at, |b|, f) == at + |p| <= |s|
  {
    assert s[at..at + |b|] == s[at..at + |p|][..|b|];
  }

  lemma FirstAt(s: Bytes, at: nat, e: Entry, f: Format)
    requires at <= |s| && Legal(e) && First(s[at..], e, f)
    ensures FileAt(s, at, e.stat, e.name, e.data, f)
    ensures NextAt(at, e.name, e.data, f) == at + Room(e, f) <= |s|
  {
    hide CharsAt, WordsAt, Head, Portion, Rounded, Octals, Codes;
    var n := HeadRoom(e.name, f);
    var u := s[at..];
    FirstHead(u, e, f);
    MagicIs();
    assert u[..n] == s[at..at + n] && u[n..Room(e, f)] == s[at + n..at + Room(e, f)];
    PortionAt(s, at, u[..n], Head(e.stat, e.name, |e.data|, f), f);
    HeadAt(s, at, e.stat, e.name, |e.data|, f);
    PortionAt(s, at + n, u[n..Room(e, f)], e.data, f);
  }

  /** An archive has everything where it belongs. */
  lemma {:induction false} ArchiveLayout(s: Bytes, at: nat, es: seq<Entry>, last: Stat, f: Format)
    requires at <= |s| && AllLegal(es) && Archived(s[at..], es, last, f)
    ensures FilesAt(s, at, es, last, f)
    decreases |es|
  {
    hide FileAt, First, Legal, Portion, Head;
    if es == [] {
      TrailerAt(s, at, last, f);
    } else {
      FirstAt(s, at, es[0], f);
      assert s[at..][Room(es[0], f)..] == s[at + Room(es[0], f)..];
      ArchiveLayout(s, at + Room(es[0], f), es[1..], last, f);
    }
  }

  lemma TrailerAt(s: Bytes, at: nat, last: Stat, f: Format)
    requires at <= |s| && Archived(s[at..], [], last, f)
    ensures FileAt(s, at, last, Codes("TRAILER!!!"), [], f)
  {
    hide CharsAt, WordsAt, Head, Portion, Rounded, Octals, Codes;
    var n := HeadRoom(TRAILER, f);
    var u := s[at..];
    MagicIs();
    TrailerIs();
    assert u[..n] == s[at..at + n];
    PortionAt(s, at, u[..n], Head(last, TRAILER, 0, f), f);
    HeadAt(s, at, last, TRAILER, 0, f);
  }
}
