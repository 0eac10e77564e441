/** cpio's headers: eleven octal numbers of fixed width, or thirteen short words. */
module CpioHeader {
  import opened CpioStream

  type Ushort = n: int | 0 <= n < 0x1_0000
  type Ulong = n: int | 0 <= n < 0x1_0000_0000

  // 070707
  const MAGIC: Ushort := 29127
  const CHARS := 76
  const HDRSIZE := 26

  /** What is known of a file, besides its name and its size. */
  datatype Stat = Stat(dev: Ushort, ino: Ushort, mode: Ushort, uid: Ushort, gid: Ushort, nlink: Ushort, rdev: Ushort,
                       mtime: Ulong)

  /** The header in memory; longs are kept as two words, the high one first. */
  datatype Hdr = Hdr(magic: Ushort, dev: Ushort, ino: Ushort, mode: Ushort, uid: Ushort, gid: Ushort, nlink: Ushort,
                     rdev: Ushort, mtime: (Ushort, Ushort), namesize: Ushort, filesize: (Ushort, Ushort))

  // MKSHORT and mklong.

  function MkShort(l: Ulong): (Ushort, Ushort) {
    (l / 0x1_0000, l % 0x1_0000)
  }

  function MkLong(v: (Ushort, Ushort)): Ulong {
    v.0 * 0x1_0000 + v.1
  }

  function Filled(st: Stat, namesize: Ushort, filesize: Ulong): Hdr {
    Hdr(MAGIC, st.dev, st.ino, st.mode, st.uid, st.gid, st.nlink, st.rdev, MkShort(st.mtime), namesize,
        MkShort(filesize))
  }

  function StatOf(h: Hdr): Stat {
    Stat(h.dev, h.ino, h.mode, h.uid, h.gid, h.nlink, h.rdev, MkLong(h.mtime))
  }

  lemma FilledBack(st: Stat, namesize: Ushort, filesize: Ulong)
    ensures StatOf(Filled(st, namesize, filesize)) == st
    ensures MkLong(Filled(st, namesize, filesize).filesize) == filesize
  {
  }

  // Numbers as digits.

  function Pow8(w: nat): (p: nat)
    ensures p > 0
  {
    if w == 0 then 1 else 8 * Pow8(w - 1)
  }

  /** %.wo, for a number that has no more than w digits. */
  function Octal(n: nat, w: nat): (s: Bytes)
    ensures |s| == w
  {
    if w == 0 then [] else Octal(n / 8, w - 1) + [48 + n % 8]
  }

  predicate Digits(s: Bytes) {
    forall i | 0 <= i < |s| :: 48 <= s[i] < 56
  }

  /** %wo. */
  function Value(s: Bytes): (n: nat)
    requires Digits(s)
  {
    if s == [] then 0 else 8 * Value(s[..|s| - 1]) + s[|s| - 1] - 48
  }

  lemma {:induction false} OctalBack(n: nat, w: nat)
    requires n < Pow8(w)
    ensures Digits(Octal(n, w)) && Value(Octal(n, w)) == n
  {
    if w > 0 {
      OctalBack(n / 8, w - 1);
      assert Octal(n, w)[..w - 1] == Octal(n / 8, w - 1);
    }
  }

  /** Several numbers, each with its width. */
  function Print(vs: seq<nat>, ws: seq<nat>): Bytes
    requires |vs| == |ws|
  {
    if vs == [] then [] else Octal(vs[0], ws[0]) + Print(vs[1..], ws[1..])
  }

  function Sum(ws: seq<nat>): nat {
    if ws == [] then 0 else ws[0] + Sum(ws[1..])
  }

  function Scan(s: Bytes, ws: seq<nat>): (vs: seq<nat>)
    requires Digits(s) && |s| == Sum(ws)
    ensures |vs| == |ws|
  {
    if ws == [] then [] else [Value(s[..ws[0]])] + Scan(s[ws[0]..], ws[1..])
  }

  lemma {:induction false} PrintScan(vs: seq<nat>, ws: seq<nat>)
    requires |vs| == |ws| && forall i | 0 <= i < |vs| :: vs[i] < Pow8(ws[i])
    ensures |Print(vs, ws)| == Sum(ws) && Digits(Print(vs, ws)) && Scan(Print(vs, ws), ws) == vs
  {
    if vs != [] {
      PrintScan(vs[1..], ws[1..]);
      OctalBack(vs[0], ws[0]);
      var s := Print(vs, ws);
      assert s[..ws[0]] == Octal(vs[0], ws[0]) && s[ws[0]..] == Print(vs[1..], ws[1..]);
    }
  }

  // The header with characters.

  const WIDTHS: seq<nat> := [6, 6, 6, 6, 6, 6, 6, 6, 11, 6, 11]

  lemma SumCons(w: nat, ws: seq<nat>)
    ensures Sum([w] + ws) == w + Sum(ws)
  {
  }

  lemma WidthsSum()
    ensures Sum(WIDTHS) == CHARS
  {
    assert Sum([11]) == 11 && Sum([6, 11]) == 17;
    SumCons(11, [6, 11]);
    assert [11] + [6, 11] == WIDTHS[8..];
    for i := 8 downto 0
      invariant Sum(WIDTHS[i..]) == 28 + 6 * (8 - i)
    {
      SumCons(6, WIDTHS[i + 1..]);
      assert [6] + WIDTHS[i + 1..] == WIDTHS[i..];
    }
    assert WIDTHS[0..] == WIDTHS;
  }

  /** The numbers that bintochar prints. */
  function Numbers(h: Hdr): (vs: seq<nat>)
    ensures |vs| == |WIDTHS|
  {
    [h.magic, h.dev, h.ino, h.mode, h.uid, h.gid, h.nlink, h.rdev, MkLong(h.mtime), h.namesize, MkLong(h.filesize)]
  }

  /** bintochar. */
  function BinToChar(h: Hdr): Bytes {
    Print(Numbers(h), WIDTHS)
  }

  function Short(n: nat): Ushort {
    n % 0x1_0000
  }

  function Long(n: nat): Ulong {
    n % 0x1_0000_0000
  }

  function FromNumbers(v: seq<nat>): Hdr
    requires |v| == |WIDTHS|
  {
    Hdr(Short(v[0]), Short(v[1]), Short(v[2]), Short(v[3]), Short(v[4]), Short(v[5]), Short(v[6]), Short(v[7]),
        MkShort(Long(v[8])), Short(v[9]), MkShort(Long(v[10])))
  }

  /** chartobin; what is no number leaves the magic number unset. */
  function CharToBin(s: Bytes): Hdr
    requires |s| == CHARS
  {
    WidthsSum();
    if !Digits(s) then Hdr(0, 0, 0, 0, 0, 0, 0, 0, (0, 0), 0, (0, 0)) else FromNumbers(Scan(s, WIDTHS))
  }

  lemma Powers()
    ensures Pow8(6) == 262144 && Pow8(11) == 8589934592
  {
    assert Pow8(2) == 64 && Pow8(4) == 4096 && Pow8(6) == 262144;
    assert Pow8(8) == 16777216 && Pow8(10) == 1073741824;
  }

  /** A short fits six octal digits, a long eleven. */
  lemma NumbersFit(h: Hdr)
    ensures forall i | 0 <= i < |WIDTHS| :: Numbers(h)[i] < Pow8(WIDTHS[i])
  {
    Powers();
    hide Pow8, MkLong;
  }

  lemma LongBack(v: (Ushort, Ushort))
    ensures MkShort(Long(MkLong(v))) == v
  {
  }

  lemma NumbersBack(h: Hdr)
    ensures FromNumbers(Numbers(h)) == h
  {
    LongBack(h.mtime);
    LongBack(h.filesize);
    hide MkLong, Long, MkShort;
  }

  lemma CharHeader(h: Hdr)
    ensures |BinToChar(h)| == CHARS && CharToBin(BinToChar(h)) == h
  {
    hide Numbers, FromNumbers, Digits, Scan, Print, WIDTHS;
    NumbersFit(h);
    WidthsSum();
    PrintScan(Numbers(h), WIDTHS);
    NumbersBack(h);
  }

  // The header in binary, in the byte order of the machine.

  function Word(n: Ushort, little: bool): (s: Bytes)
    ensures |s| == 2
  {
    if little then [n % 256, n / 256] else [n / 256, n % 256]
  }

  function Unword(s: Bytes, little: bool): Ushort
    requires |s| == 2
  {
    Short((if little then s[0] + 256 * s[1] else s[1] + 256 * s[0]) % 0x1_0000)
  }

  function Words(vs: seq<Ushort>, little: bool): (s: Bytes)
    ensures |s| == 2 * |vs|
  {
    if vs == [] then [] else Word(vs[0], little) + Words(vs[1..], little)
  }

  function Unwords(s: Bytes, little: bool): (vs: seq<Ushort>)
    requires |s| % 2 == 0
    ensures |vs| == |s| / 2
  {
    if s == [] then [] else [Unword(s[..2], little)] + Unwords(s[2..], little)
  }

  lemma {:induction false} WordsBack(vs: seq<Ushort>, little: bool)
    ensures Unwords(Words(vs, little), little) == vs
  {
    if vs != [] {
      WordsBack(vs[1..], little);
      var s := Words(vs, little);
      assert s[..2] == Word(vs[0], little) && s[2..] == Words(vs[1..], little);
    }
  }

  function Shorts(h: Hdr): (vs: seq<Ushort>)
    ensures |vs| == 13
  {
    [h.magic, h.dev, h.ino, h.mode, h.uid, h.gid, h.nlink, h.rdev, h.mtime.0, h.mtime.1, h.namesize,
     h.filesize.0, h.filesize.1]
  }

  function Image(h: Hdr, little: bool): (s: Bytes)
    ensures |s| == HDRSIZE
  {
    Words(Shorts(h), little)
  }

  function FromImage(s: Bytes, little: bool): Hdr
    requires |s| == HDRSIZE
  {
    var v := Unwords(s, little);
    Hdr(v[0], v[1], v[2], v[3], v[4], v[5], v[6], v[7], (v[8], v[9]), v[10], (v[11], v[12]))
  }

  lemma BinaryHeader(h: Hdr, little: bool)
    ensures FromImage(Image(h, little), little) == h
  {
    WordsBack(Shorts(h), little);
    hide Words, Unwords;
  }

  /** The magic number in binary is no digit to begin with. */
  lemma Told(h: Hdr, little: bool, s: Bytes)
    requires h.magic == MAGIC && |s| == CHARS && Image(h, little) <= s
    ensures CharToBin(s).magic != MAGIC && Unword(s[..2], little) == MAGIC
  {
    assert Words(Shorts(h), little)[..2] == Word(MAGIC, little);
    assert s[..2] == Image(h, little)[..2];
    assert !Digits(s) by {
      assert s[0] == s[..2][0];
    }
  }
}
