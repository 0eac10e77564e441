/** bfs's big files: an index of line lengths with landmarks, and lines read through a cached
    block. */
module BfsLines {
  import opened Arith

  const NEWLINE := 10
  const SEG := 64      // lines between landmarks
  const NEAR := 32     // lines it may count from the last position

  type File = seq<int>

  // Lines, counted from 1.

  /** The position after the first newline at or after i. */
  function After(f: File, i: nat): (j: nat)
    requires i <= |f|
    ensures i <= j <= |f| && (forall k | i <= k < j - 1 :: f[k] != NEWLINE)
    ensures i < |f| ==> i < j && (j < |f| ==> f[j - 1] == NEWLINE)
    decreases |f| - i
  {
    if i == |f| then i else if f[i] == NEWLINE then i + 1 else After(f, i + 1)
  }

  /** Where line l begins; past the last line, the end of the file. */
  function Start(f: File, l: nat): (i: nat)
    ensures i <= |f|
  {
    if l <= 1 then 0 else After(f, Start(f, l - 1))
  }

  /** There is a line l. */
  predicate IsLine(f: File, l: int) {
    l >= 1 && Start(f, l) < |f|
  }

  /** The text of line l, which ends in a newline. */
  function Text(f: File, l: nat): seq<int>
    requires IsLine(f, l)
  {
    f[Start(f, l)..Start(f, l + 1) - 1]
  }

  /** A length as the index keeps it. */
  function Short(n: int): int {
    (n + 32768) % 65536 - 32768
  }

  /** All lines are short enough for the index. */
  ghost predicate Fitting(f: File) {
    forall l | IsLine(f, l) :: Start(f, l + 1) - Start(f, l) < 32768
  }

  /** Line l ends in a newline, as all lines but the last must. */
  predicate Terminated(f: File, l: nat) {
    Start(f, l + 1) > 0 && f[Start(f, l + 1) - 1] == NEWLINE
  }

  lemma AfterIs(f: File, i: nat, j: nat)
    requires i < j <= |f| && f[j - 1] == NEWLINE && forall k | i <= k < j - 1 :: f[k] != NEWLINE
    ensures After(f, i) == j
  {
    var a := After(f, i);
  }

  lemma AfterEnd(f: File, i: nat)
    requires i < |f| && forall k | i <= k < |f| - 1 :: f[k] != NEWLINE
    ensures After(f, i) == |f|
  {
    var a := After(f, i);
  }

  lemma {:induction false} StartsAscend(f: File, l: nat, m: nat)
    requires 1 <= l <= m
    ensures Start(f, l) <= Start(f, m)
  {
    if l < m {
      StartsAscend(f, l, m - 1);
    }
  }

  /** A line with another one behind it ends in a newline. */
  lemma InnerTerminated(f: File, l: nat)
    requires l >= 1 && IsLine(f, l + 1)
    ensures IsLine(f, l) && Terminated(f, l)
  {
    StartsAscend(f, l, l + 1);
  }

  // A file made of lines.

  function Joined(ls: seq<seq<int>>): File {
    if ls == [] then [] else Joined(ls[..|ls| - 1]) + ls[|ls| - 1] + ['\n' as int]
  }

  lemma {:induction false} JoinedPrefix(ls: seq<seq<int>>, l: nat)
    requires l <= |ls|
    ensures Joined(ls[..l]) <= Joined(ls)
  {
    if l < |ls| {
      JoinedPrefix(ls[..|ls| - 1], l);
      assert ls[..|ls| - 1][..l] == ls[..l];
    } else {
      assert ls[..l] == ls;
    }
  }

  /** Line l begins where those before it end. */
  lemma {:induction false} JoinedStart(ls: seq<seq<int>>, l: nat)
    requires 1 <= l <= |ls| + 1 && forall x | x in ls :: '\n' as int !in x
    ensures Start(Joined(ls), l) == |Joined(ls[..l - 1])|
  {
    if l > 1 {
      JoinedStart(ls, l - 1);
      JoinedNext(ls, l - 1);
    }
  }

  lemma JoinedNext(ls: seq<seq<int>>, l: nat)
    requires 1 <= l <= |ls| && forall x | x in ls :: '\n' as int !in x
    ensures |Joined(ls[..l - 1])| <= |Joined(ls[..l])| <= |Joined(ls)|
    ensures var f, i, j := Joined(ls), |Joined(ls[..l - 1])|, |Joined(ls[..l])|;
      After(f, i) == j && i + |ls[l - 1]| + 1 == j && f[i..j - 1] == ls[l - 1] && f[j - 1] == '\n' as int
  {
    hide After;
    var f, g, x := Joined(ls), Joined(ls[..l]), ls[l - 1];
    JoinedPrefix(ls, l);
    assert ls[..l][..l - 1] == ls[..l - 1];
    var i, j := |Joined(ls[..l - 1])|, |g|;
    assert g == Joined(ls[..l - 1]) + x + ['\n' as int];
    assert g == f[..j];
    forall k | i <= k < j - 1
      ensures f[k] == x[k - i] && f[k] != NEWLINE
    {
      assert f[k] == g[k] && x[k - i] in x && x in ls;
    }
    AfterIs(f, i, j);
  }

  /** The lines of a file are those that it is made of. */
  lemma LinesJoined(ls: seq<seq<int>>, l: nat)
    requires 1 <= l <= |ls| && forall x | x in ls :: '\n' as int !in x
    ensures IsLine(Joined(ls), l) && Text(Joined(ls), l) == ls[l - 1] && Terminated(Joined(ls), l)
    ensures !IsLine(Joined(ls), |ls| + 1)
  {
    hide *;
    JoinedStart(ls, l);
    JoinedStart(ls, l + 1);
    JoinedStart(ls, |ls| + 1);
    JoinedNext(ls, l);
    assert ls[..|ls|] == ls;
    LineIs(Joined(ls), l, |Joined(ls[..l - 1])|, |Joined(ls[..l])|, |ls| + 1);
  }

  lemma LineIs(f: File, l: nat, i: nat, j: nat, n: nat)
    requires l >= 1 && Start(f, l) == i && Start(f, l + 1) == j && i < j <= |f| && f[j - 1] == '\n' as int
    requires Start(f, n) == |f|
    ensures IsLine(f, l) && Terminated(f, l) && Text(f, l) == f[i..j - 1] && !IsLine(f, n)
  {
    hide Start;
  }

  class Bfs {
    const f: File
    const bs: nat      // the size of a block
    const lim: nat     // characters of a line that are given out
    var pos: nat       // where the descriptor stands
    var lincnt: seq<int>
    var segblk: seq<int>
    var segoff: seq<int>
    var dollar: nat
    var prevblk: int
    var prevoff: int
    var lprev: int
    var saveblk: int
    var savetxt: array<int>

    constructor (f: File, bs: nat, lim: nat)
      requires bs > 0
      ensures this.f == f && this.bs == bs && this.lim == lim && pos == 0 && savetxt.Length == bs && fresh(savetxt)
      ensures lprev == 1 && Placed() && saveblk == -1 && Cached()
    {
      this.f, this.bs, this.lim := f, bs, lim;
      pos, lincnt, segblk, segoff, dollar := 0, [], [], [], 0;
      prevblk, prevoff, lprev, saveblk := 0, 0, 1, -1;
      savetxt := new int[bs];
    }

    /** read: up to a block from where the descriptor stands. */
    method Read(buf: array<int>) returns (n: nat)
      requires pos <= |f| && buf.Length == bs
      modifies this`pos, buf
      ensures n == (if |f| - old(pos) < bs then |f| - old(pos) else bs) && pos == old(pos) + n <= |f|
      ensures forall i | 0 <= i < n :: buf[i] == f[old(pos) + i]
    {
      n := if |f| - pos < bs then |f| - pos else bs;
      var from := pos;
      for i := 0 to n
        invariant pos == from && from + n <= |f| && forall k | 0 <= k < i :: buf[k] == f[from + k]
      {
        buf[i] := f[from + i];
      }
      pos := from + n;
    }

    /** The lengths of the lines before line l, newlines included. */
    ghost predicate Counted(l: nat)
      reads this`lincnt
    {
      l <= |lincnt| && forall k | 1 <= k < l :: IsLine(f, k) && lincnt[k] == Start(f, k + 1) - Start(f, k)
    }

    /** The landmarks: where every SEGth of the first l lines begins. */
    ghost predicate Marked(l: nat)
      reads this`segblk, this`segoff
    {
      && |segblk| == |segoff| == (l + SEG - 1) / SEG
      && forall s | 0 <= s < |segblk| :: segblk[s] * bs + segoff[s] == Start(f, SEG * s + 1)
    }

    /** The index. */
    ghost predicate Indexed()
      reads this`lincnt, this`segblk, this`segoff, this`dollar
    {
      && |lincnt| == dollar + 1 && (dollar == 0 <==> f == []) && Start(f, dollar + 1) == |f|
      && Counted(dollar + 1) && Marked(dollar)
    }

    /** bigopen's state at position at: l lines have begun, the last of them cnt characters ago. */
    ghost predicate Opening(at: nat, l: nat, cnt: nat, newline: bool)
      reads this`lincnt, this`segblk, this`segoff
    {
      && at <= |f| && |lincnt| == l && (l == 0 <==> at == 0) && (newline <==> at == 0 || f[at - 1] == NEWLINE)
      && InLine(at, l, cnt) && Counted(l) && Marked(l)
    }

    ghost predicate InLine(at: nat, l: nat, cnt: nat)
      requires at <= |f|
    {
      && (l > 0 ==> IsLine(f, l) && Start(f, l) + cnt == at && cnt > 0)
      && (l > 0 ==> forall k | Start(f, l) <= k < at - 1 :: f[k] != NEWLINE)
      && (l == 0 ==> cnt == 0)
    }

    /** The line after those that have begun begins where a newline has ended the last. */
    lemma NextStart(at: nat, l: nat, cnt: nat)
      requires at < |f| && InLine(at, l, cnt) && (l == 0 <==> at == 0) && (at == 0 || f[at - 1] == NEWLINE)
      ensures IsLine(f, l + 1) && Start(f, l + 1) == at
    {
      if l > 0 {
        AfterIs(f, Start(f, l), at);
      }
    }

    lemma SegStart(l: nat)
      ensures l % SEG == 0 ==> (l + SEG) / SEG == (l + SEG - 1) / SEG + 1 && SEG * ((l + SEG - 1) / SEG) == l
      ensures l % SEG != 0 ==> (l + SEG) / SEG == (l + SEG - 1) / SEG
    {
    }

    /** A line begins at the position at. */
    method BeginLine(blk: int, off: int, l: nat, cnt: nat, ghost at: nat)
      requires |lincnt| == l && Counted(l) && Marked(l) && blk * bs + off == at
      requires IsLine(f, l + 1) && Start(f, l + 1) == at
      requires (l > 0 ==> IsLine(f, l) && cnt == at - Start(f, l)) && Fitting(f)
      modifies this`lincnt, this`segblk, this`segoff
      ensures |lincnt| == l + 1 && Counted(l + 1) && Marked(l + 1)
    {
      hide Start;
      SegStart(l);
      lincnt := lincnt + [Short(cnt)];
      if l % SEG == 0 {
        segblk := segblk + [blk];
        segoff := segoff + [off];
      }
    }

    /** One character. */
    method NextChar(c: int, blk: int, off: int, l0: nat, cnt0: nat, newline0: bool, ghost at: nat)
      returns (ok: bool, l: nat, cnt: nat, newline: bool)
      requires Fitting(f) && Opening(at, l0, cnt0, newline0) && at < |f| && c == f[at] && blk * bs + off == at
      modifies this`lincnt, this`segblk, this`segoff
      requires l0 <= 32767
      ensures ok ==> Opening(at + 1, l, cnt, newline) && l <= 32767
      ensures !ok ==> IsLine(f, 32768)
    {
      hide Start, Counted, Marked, Fitting;
      ok, l, cnt, newline := true, l0, cnt0, newline0;
      if newline {
        NextStart(at, l, cnt);
        BeginLine(blk, off, l, cnt, at);
        newline := false;
        cnt := 0;
        l := l + 1;
        if l > 32767 {
          LineBelow(l, 32768);
          return false, l, cnt, newline;
        }
      }
      if c == NEWLINE {
        newline := true;
      }
      cnt := cnt + 1;
    }

    lemma LineBelow(l: nat, m: nat)
      requires IsLine(f, l) && 1 <= m <= l
      ensures IsLine(f, m)
    {
      StartsAscend(f, m, l);
    }

    /** bigopen: reads the file through and makes the index. */
    method Bigopen() returns (ok: bool)
      requires bs > 0 && pos == 0 && Fitting(f) && saveblk == -1 && Cached()
      modifies this`pos, this`lincnt, this`segblk, this`segoff, this`dollar
      ensures Cached()
      ensures ok ==> Indexed() && dollar <= 32767
      ensures !ok ==> dollar == old(dollar) && IsLine(f, 32768)
      ensures pos <= |f|
    {
      hide *;
      var block := new int[bs];
      var blk := -1;
      var newline, l: nat, cnt: nat := true, 0, 0;
      lincnt, segblk, segoff := [], [], [];
      ok := true;
      Opened();
      CacheSize();
      ghost var at := 0;
      var n := Read(block);
      while n > 0
        invariant 0 <= n <= bs && pos == at + n <= |f| && (n == 0 ==> at == |f|) && (n < bs ==> pos == |f|)
        invariant (blk + 1) * bs == at || n == 0
        invariant block.Length == bs && forall i | 0 <= i < n :: block[i] == f[at + i]
        invariant dollar == old(dollar) && Opening(at, l, cnt, newline) && l <= 32767
        decreases |f| - at
      {
        blk := blk + 1;
        ghost var start := at;
        for off := 0 to n
          invariant pos == start + n <= |f| && at == start + off && blk * bs == start && dollar == old(dollar)
          invariant forall i | 0 <= i < n :: block[i] == f[start + i]
          invariant Opening(at, l, cnt, newline) && l <= 32767
        {
          ok, l, cnt, newline := NextChar(block[off], blk, off, l, cnt, newline, at);
          if !ok {
            Uncached();
            return;
          }
          at := at + 1;
        }
        MulStep(blk, bs);
        n := Read(block);
      }
      Finish(l, cnt, newline);
      Uncached();
    }

    lemma Uncached()
      requires saveblk == -1 && savetxt.Length == bs > 0 && pos <= |f|
      ensures Cached()
    {
    }

    /** The length of the last line. */
    method Finish(l: nat, cnt: nat, ghost newline: bool)
      requires Opening(|f|, l, cnt, newline) && Fitting(f)
      modifies this`lincnt, this`dollar
      ensures Indexed() && dollar == l
    {
      hide *;
      LastLine(l, cnt, newline);
      ghost var was := lincnt;
      lincnt := lincnt + [Short(cnt)];
      dollar := l;
      Complete(was, l, cnt);
    }

    /** At the end of the file the last line has been counted. */
    lemma LastLine(l: nat, cnt: nat, newline: bool)
      requires Opening(|f|, l, cnt, newline) && Fitting(f)
      ensures |lincnt| == l && Marked(l) && (l == 0 <==> f == []) && Start(f, l + 1) == |f|
      ensures forall k | 1 <= k < l :: IsLine(f, k) && lincnt[k] == Start(f, k + 1) - Start(f, k)
      ensures l > 0 ==> IsLine(f, l) && Short(cnt) == |f| - Start(f, l)
    {
      hide Marked, Start;
      if l > 0 {
        AfterEnd(f, Start(f, l));
        StartNext(l);
      } else {
        StartFirst();
      }
    }

    lemma StartFirst()
      ensures Start(f, 1) == 0
    {
    }

    lemma Complete(was: seq<int>, l: nat, cnt: nat)
      requires |was| == l == dollar && lincnt == was + [Short(cnt)] && Marked(l)
      requires forall k | 1 <= k < l :: IsLine(f, k) && was[k] == Start(f, k + 1) - Start(f, k)
      requires (l == 0 <==> f == []) && Start(f, l + 1) == |f|
      requires l > 0 ==> IsLine(f, l) && Short(cnt) == |f| - Start(f, l)
      ensures Indexed()
    {
      hide Marked, Start, Short, IsLine;
    }

    lemma Opened()
      requires lincnt == [] && segblk == [] && segoff == []
      ensures Opening(0, 0, 0, true)
    {
    }

    /** The last position is where line lprev begins. */
    ghost predicate Placed()
      reads this`prevblk, this`prevoff, this`lprev
    {
      lprev >= 1 && prevblk * bs + prevoff == Start(f, lprev)
    }

    /** savetxt is block saveblk as far as the file goes, and the descriptor stands after it. */
    ghost predicate Cached()
      reads this`saveblk, this`savetxt, this`pos, savetxt
    {
      && savetxt.Length == bs > 0 && saveblk >= -1 && pos <= |f|
      && (saveblk >= 0 ==>
        && pos == (if (saveblk + 1) * bs <= |f| then (saveblk + 1) * bs else |f|)
        && forall i | 0 <= i < bs && saveblk * bs + i < |f| :: savetxt[i] == f[saveblk * bs + i])
    }

    /** The position off into block blk. */
    function At(blk: int, off: int): int {
      blk * bs + off
    }

    lemma AtMore(blk: int, off: int, n: int)
      ensures At(blk, off + n) == At(blk, off) + n
    {
    }

    /** Moves the last position to line l. */
    method Locate(l: int)
      requires Indexed() && Placed() && 1 <= lprev <= dollar && 1 <= l <= dollar && bs > 0
      modifies this`prevblk, this`prevoff, this`lprev
      ensures Placed() && lprev == l && 0 <= prevoff < bs && prevblk >= 0
    {
      hide Indexed, Start, At;
      PlacedAt();
      var i := l - lprev;
      if i == 1 {
        LengthIs(lprev);
        AtMore(prevblk, prevoff, lincnt[lprev]);
        prevoff := prevoff + lincnt[lprev];
      } else if 0 <= i <= NEAR {
        Forward(lprev, l);
      } else if -NEAR <= i < 0 {
        Backward(lprev - 1, l);
      } else {
        i := (l - 1) / SEG;
        Landmark(l, i);
        prevblk := segblk[i];
        prevoff := segoff[i];
        Forward(SEG * i + 1, l);
      }
      Normalize(Start(f, l));
      lprev := l;
      PlacedAt();
    }

    lemma PlacedAt()
      ensures Placed() <==> lprev >= 1 && At(prevblk, prevoff) == Start(f, lprev)
    {
    }

    /** There is a landmark not far before line l. */
    lemma Landmark(l: int, i: int)
      requires Indexed() && 1 <= l <= dollar && i == (l - 1) / SEG
      ensures 0 <= i < |segblk| && i < |segoff|
      ensures At(segblk[i], segoff[i]) == Start(f, SEG * i + 1) && 1 <= SEG * i + 1 <= l
    {
      assert segblk[i] * bs + segoff[i] == Start(f, SEG * i + 1);
    }

    /** Makes the offset one within a block. */
    method Normalize(ghost s: nat)
      requires bs > 0 && At(prevblk, prevoff) == s
      modifies this`prevblk, this`prevoff
      ensures At(prevblk, prevoff) == s && 0 <= prevoff < bs && prevblk >= 0
    {
      DivMod(prevoff, bs);
      MulSum(prevblk, prevoff / bs, bs);
      prevblk := prevblk + prevoff / bs;
      prevoff := prevoff % bs;
      BlockPositive(prevblk, prevoff, bs, s);
    }

    lemma MulSum(a: int, b: int, n: int)
      ensures (a + b) * n == a * n + b * n
    {
    }

    lemma BlockPositive(a: int, b: int, n: nat, s: nat)
      requires 0 <= b < n && a * n + b == s
      ensures a >= 0
    {
      if a < 0 {
        MulMono(a + 1, 0, n);
        MulStep(a, n);
      }
    }

    lemma LengthIs(l: nat)
      requires Indexed() && 1 <= l <= dollar
      ensures |lincnt| == dollar + 1 && Start(f, l) + lincnt[l] == Start(f, l + 1)
    {
    }

    method Forward(from: int, l: int)
      requires Indexed() && 1 <= from <= l <= dollar && At(prevblk, prevoff) == Start(f, from)
      modifies this`prevoff
      ensures At(prevblk, prevoff) == Start(f, l)
    {
      hide Indexed, Start, At;
      for i := from to l
        invariant Indexed() && At(prevblk, prevoff) == Start(f, i)
      {
        LengthIs(i);
        AtMore(prevblk, prevoff, lincnt[i]);
        prevoff := prevoff + lincnt[i];
      }
    }

    method Backward(from: int, l: int)
      requires Indexed() && 1 <= l <= from + 1 <= dollar && At(prevblk, prevoff) == Start(f, from + 1)
      modifies this`prevoff
      ensures At(prevblk, prevoff) == Start(f, l)
    {
      hide Indexed, Start, At;
      var i := from;
      while i >= l
        invariant l - 1 <= i <= from && Indexed() && At(prevblk, prevoff) == Start(f, i + 1)
      {
        LengthIs(i);
        AtMore(prevblk, prevoff, -lincnt[i]);
        prevoff := prevoff - lincnt[i];
        i := i - 1;
      }
    }

    /** Block blk is in the cache, read anew if it is another one. */
    method Load(blk: int)
      requires Cached() && 0 <= blk && blk * bs < |f|
      modifies this`saveblk, this`pos, savetxt
      ensures Cached() && saveblk == blk
    {
      if blk != saveblk {
        MulStep(blk, bs);
        MulMono(0, blk, bs);
        saveblk := blk;
        pos := saveblk * bs;
        var n := Read(savetxt);
      }
    }

    /** The block after the one in the cache. */
    method LoadNext()
      requires Cached() && saveblk >= 0 && (saveblk + 1) * bs < |f|
      modifies this`saveblk, this`pos, savetxt
      ensures Cached() && saveblk == old(saveblk) + 1
    {
      MulStep(saveblk + 1, bs);
      MulMono(0, saveblk + 1, bs);
      var n := Read(savetxt);
      saveblk := saveblk + 1;
    }

    /** A line goes up to its newline. */
    lemma LineEnds(l: nat)
      requires IsLine(f, l) && Terminated(f, l)
      ensures var s, e := Start(f, l), Start(f, l + 1);
        s < e <= |f| && f[e - 1] == NEWLINE && (forall k | s <= k < e - 1 :: f[k] != NEWLINE) &&
          Text(f, l) == f[s..e - 1]
    {
      hide Start;
      StartNext(l);
    }

    lemma StartNext(l: nat)
      requires l >= 1
      ensures Start(f, l + 1) == After(f, Start(f, l))
    {
    }

    lemma CachedAt(at: int, off: int)
      requires Cached() && saveblk >= 0 && 0 <= off < bs && at == At(saveblk, off) && 0 <= at < |f|
      ensures off < savetxt.Length && savetxt[off] == f[at]
    {
    }

    lemma NextBlock(at: int)
      requires at == At(saveblk, bs) && at < |f|
      ensures (saveblk + 1) * bs < |f| && at == At(saveblk + 1, 0)
    {
      MulStep(saveblk, bs);
    }

    /** From s to e is a line. */
    ghost predicate LineAt(s: nat, e: nat) {
      s < e <= |f| && f[e - 1] == NEWLINE && forall k | s <= k < e - 1 :: f[k] != NEWLINE
    }

    /** What is to be given out of the line. */
    ghost predicate Given(s: nat, e: nat, rec: seq<int>, truncated: bool)
      requires s < e <= |f|
    {
      truncated == (e - 1 - s > lim) && rec == if truncated then f[s..s + lim + 1] else f[s..e - 1]
    }

    lemma OneMore(s: nat, at: nat, e: nat, rec: seq<int>)
      requires LineAt(s, e) && s <= at < e && rec == f[s..at] && |rec| <= lim
      ensures f[at] == NEWLINE ==> Given(s, e, rec, false)
      ensures f[at] != NEWLINE ==> at + 1 < e && rec + [f[at]] == f[s..at + 1] && |rec + [f[at]]| == at + 1 - s
      ensures f[at] != NEWLINE && |rec| + 1 > lim ==> Given(s, e, rec + [f[at]], true)
    {
      assert f[s..at + 1] == f[s..at] + [f[at]];
    }

    /** Copies from off on in the cached block, up to a newline, or until there is too much. */
    method CopyBlock(off0: int, ghost s: nat, ghost e: nat, ghost at0: nat, rec0: seq<int>)
      returns (done: bool, rec: seq<int>, truncated: bool, ghost at: nat)
      requires Cached() && saveblk >= 0 && 0 <= off0 < bs && at0 == At(saveblk, off0) && LineAt(s, e)
      requires s <= at0 < e && rec0 == f[s..at0] && |rec0| <= lim
      ensures done ==> Given(s, e, rec, truncated)
      ensures !done ==> at0 < at < e && at == At(saveblk, bs) && rec == f[s..at] && |rec| <= lim
    {
      hide *;
      done, rec, truncated, at := true, rec0, false, at0;
      var off := off0;
      LineWithin(s, e);
      CacheSize();
      while off < bs
        invariant Cached() && off0 <= off <= bs && at == At(saveblk, off) && at0 <= at < e && (off > off0 ==> at > at0)
        invariant rec == f[s..at] && |rec| <= lim
      {
        CachedAt(at, off);
        OneMore(s, at, e, rec);
        AtMore(saveblk, off, 1);
        var c := savetxt[off];
        if c == NEWLINE {
          return;
        }
        rec := rec + [c];
        if |rec| > lim {
          truncated := true;
          return;
        }
        at := at + 1;
        off := off + 1;
      }
      done := false;
    }

    lemma LineWithin(s: nat, e: nat)
      requires LineAt(s, e)
      ensures s < e <= |f|
    {
    }

    /** Copies from off on in the cached block and those after it. */
    method Copy(off0: int, ghost s: nat, ghost e: nat) returns (rec: seq<int>, truncated: bool)
      requires Cached() && saveblk >= 0 && 0 <= off0 < bs && s == At(saveblk, off0) && LineAt(s, e) && s < e <= |f|
      modifies this`saveblk, this`pos, savetxt
      ensures Cached() && Given(s, e, rec, truncated)
    {
      hide *;
      rec, truncated := [], false;
      var off := off0;
      ghost var at := s;
      CacheSize();
      while true
        invariant Cached() && saveblk >= 0 && 0 <= off < bs && at == At(saveblk, off) && s <= at < e
        invariant rec == f[s..at] && |rec| <= lim
        decreases e - at
      {
        var done;
        done, rec, truncated, at := CopyBlock(off, s, e, at, rec);
        if done {
          return;
        }
        NextBlock(at);
        LoadNext();
        off := 0;
      }
    }

    /** bigread: the text of line l, or of a line that is too long the beginning. */
    method Bigread(l: nat) returns (rec: seq<int>, truncated: bool)
      requires Indexed() && Placed() && Cached() && 1 <= lprev <= dollar
      requires 1 <= l <= dollar && (l == dollar ==> Terminated(f, l))
      modifies this`prevblk, this`prevoff, this`lprev, this`saveblk, this`pos, savetxt
      ensures Indexed() && Placed() && Cached() && lprev == l
      ensures truncated == (|Text(f, l)| > lim)
      ensures rec == if truncated then Text(f, l)[..lim + 1] else Text(f, l)
    {
      hide Indexed, Start, Cached, Text, IsLine, At, Placed, Terminated;
      Ended(l);
      CacheSize();
      Locate(l);
      PlacedAt();
      LineEnds(l);
      ghost var s, e := Start(f, l), Start(f, l + 1);
      LeastBlock(prevblk, prevoff, s);
      Load(prevblk);
      rec, truncated := Copy(prevoff, s, e);
      assert truncated ==> f[s..e - 1][..lim + 1] == f[s..s + lim + 1];
    }

    /** All lines but the last end in a newline. */
    lemma Ended(l: nat)
      requires Indexed() && 1 <= l <= dollar && (l == dollar ==> Terminated(f, l))
      ensures IsLine(f, l) && Terminated(f, l)
    {
      hide Start, Terminated;
      if l < dollar {
        assert IsLine(f, l + 1);
        InnerTerminated(f, l);
      }
    }

    lemma CacheSize()
      requires Cached()
      ensures savetxt.Length == bs > 0
    {
    }

    lemma LeastBlock(blk: int, off: int, s: nat)
      requires 0 <= off && At(blk, off) == s < |f|
      ensures blk * bs < |f|
    {
    }
  }
}
