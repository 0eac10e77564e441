/** cpio's two buffers: bytes gathered into records of one size, and records, whole or short, dealt out
    again in portions of any size. */
module CpioStream {
  type Bytes = seq<int>

  function Concat(rs: seq<Bytes>): Bytes {
    if rs == [] then [] else rs[0] + Concat(rs[1..])
  }

  lemma Assoc(a: Bytes, b: Bytes, c: Bytes)
    ensures (a + b) + c == a + (b + c)
  {
  }

  lemma {:induction false} ConcatSnoc(rs: seq<Bytes>, r: Bytes)
    ensures Concat(rs + [r]) == Concat(rs) + r
  {
    if rs == [] {
      assert [r][1..] == [];
      assert [] + [r] == [r];
    } else {
      ConcatSnoc(rs[1..], r);
      assert (rs + [r])[1..] == rs[1..] + [r];
      Assoc(rs[0], Concat(rs[1..]), r);
    }
  }

  /** In the binary format every portion has an even number of bytes. */
  function Rounded(c: nat, cflag: bool): (n: nat)
    ensures c <= n <= c + 1 && (!cflag ==> n % 2 == 0)
  {
    if cflag then c else (c + 1) / 2 * 2
  }

  /** memcpy into a buffer. */
  method Memcpy(a: array<int>, at: nat, s: Bytes)
    requires at + |s| <= a.Length
    modifies a
    ensures a[at..at + |s|] == s && a[..at] == old(a[..at]) && a[at + |s|..] == old(a[at + |s|..])
  {
    forall i | 0 <= i < |s| {
      a[at + i] := s[i];
    }
  }

  class Writer {
    const bufsize: nat
    const cbuf: array<int>
    var ccnt: nat
    var records: seq<Bytes>

    constructor (bufsize: nat)
      requires bufsize > 0
      ensures Valid() && Accepted() == [] && fresh(cbuf) && this.bufsize == bufsize
    {
      this.bufsize := bufsize;
      cbuf := new int[bufsize](_ => 0);
      ccnt := 0;
      records := [];
    }

    ghost predicate Valid()
      reads this
    {
      && 0 < bufsize == cbuf.Length && ccnt < bufsize
      && forall r | r in records :: |r| == bufsize
    }

    /** All the bytes that have been taken, written or not. */
    ghost function Accepted(): Bytes
      requires Valid()
      reads this, cbuf
    {
      Concat(records) + cbuf[..ccnt]
    }

    /** bwrite. */
    method Bwrite(rp: Bytes, count: nat, cflag: bool)
      requires Valid() && |rp| >= Rounded(count, cflag)
      modifies this, cbuf
      ensures Valid() && Accepted() == old(Accepted()) + rp[..Rounded(count, cflag)]
    {
      hide Valid, Accepted;
      ValidSize();
      var total := Rounded(count, cflag);
      var done := 0;
      assert Accepted() + rp[..0] == Accepted();
      while done < total
        invariant 0 <= done <= total && Valid() && ccnt < bufsize
        invariant Accepted() == old(Accepted()) + rp[..done]
      {
        var cleft := bufsize - ccnt;
        if cleft <= total - done {
          Fill(rp[done..done + cleft]);
          Further(old(Accepted()), rp, done, done + cleft);
          done := done + cleft;
        } else {
          Gather(rp[done..total]);
          Further(old(Accepted()), rp, done, total);
          done := total;
        }
      }
    }

    lemma ValidSize()
      requires Valid()
      ensures 0 < bufsize && ccnt < bufsize
    {
    }

    static lemma Further(a: Bytes, rp: Bytes, i: nat, j: nat)
      requires i <= j <= |rp|
      ensures (a + rp[..i]) + rp[i..j] == a + rp[..j]
    {
    }

    method Fill(s: Bytes)
      requires Valid() && |s| == bufsize - ccnt
      modifies this, cbuf
      ensures Valid() && Accepted() == old(Accepted()) + s && ccnt == 0 < bufsize
    {
      ghost var pending := cbuf[..ccnt];
      Memcpy(cbuf, ccnt, s);
      assert cbuf[..] == pending + s;
      ConcatSnoc(records, cbuf[..]);
      Assoc(Concat(records), pending, s);
      records := records + [cbuf[..]];
      ccnt := 0;
    }

    method Gather(s: Bytes)
      requires Valid() && ccnt + |s| < bufsize
      modifies this, cbuf
      ensures Valid() && Accepted() == old(Accepted()) + s && ccnt == old(ccnt) + |s|
    {
      ghost var pending := cbuf[..ccnt];
      Memcpy(cbuf, ccnt, s);
      Assoc(Concat(records), pending, s);
      ccnt := ccnt + |s|;
      assert cbuf[..ccnt] == pending + s;
    }
  }

  /** The last call writes out what was still in the buffer, with whatever follows it there: everything
      that had been taken is in the records, in order, and is followed by less than two records more. */
  lemma Flushed(w: Writer, accepted: Bytes, junk: Bytes)
    requires w.Valid() && w.Accepted() == accepted + junk && |junk| >= w.bufsize
    ensures accepted <= Concat(w.records)
  {
    var all := Concat(w.records);
    assert all == (accepted + junk)[..|all|];
  }

  // What reads leave in the buffer.

  /** A record just read; a short one stands at the end, and also where it was read to. */
  function Loaded(buf: Bytes, r: Bytes): (b: Bytes)
    requires |r| <= |buf|
    ensures |b| == |buf| && b[|buf| - |r|..] == r
  {
    if |r| == |buf| then r else (r + buf[|r|..])[..|buf| - |r|] + r
  }

  function After(buf: Bytes, rs: seq<Bytes>): (b: Bytes)
    requires forall r | r in rs :: |r| <= |buf|
    ensures |b| == |buf|
  {
    if rs == [] then buf else Loaded(After(buf, rs[..|rs| - 1]), rs[|rs| - 1])
  }

  lemma AfterSnoc(buf: Bytes, rs: seq<Bytes>, r: Bytes)
    requires |r| <= |buf| && forall x | x in rs :: |x| <= |buf|
    ensures (forall x | x in rs + [r] :: |x| <= |buf|) && After(buf, rs + [r]) == Loaded(After(buf, rs), r)
  {
    assert (rs + [r])[..|rs|] == rs;
  }

  lemma {:induction false} ConcatSplit(rs: seq<Bytes>, k: nat)
    requires k <= |rs|
    ensures Concat(rs) == Concat(rs[..k]) + Concat(rs[k..])
    decreases |rs| - k
  {
    if k < |rs| {
      ConcatSplit(rs, k + 1);
      assert rs[..k + 1] == rs[..k] + [rs[k]] && rs[k..][1..] == rs[k + 1..];
      ConcatSnoc(rs[..k], rs[k]);
      Assoc(Concat(rs[..k]), rs[k], Concat(rs[k + 1..]));
    } else {
      assert rs[..k] == rs && rs[k..] == [];
    }
  }

  lemma {:induction false} ConcatMono(rs: seq<Bytes>, k: nat, l: nat)
    requires k <= l <= |rs|
    ensures |Concat(rs[..k])| <= |Concat(rs[..l])|
  {
    if k < l {
      ConcatMono(rs, k, l - 1);
      assert rs[..l] == rs[..l - 1] + [rs[l - 1]];
      ConcatSnoc(rs[..l - 1], rs[l - 1]);
    }
  }

  /** The first k records are those that it takes for c bytes. */
  ghost predicate Spans(rs: seq<Bytes>, k: nat, c: nat) {
    1 <= k <= |rs| && |Concat(rs[..k - 1])| < c <= |Concat(rs[..k])|
  }

  lemma SpansOnce(rs: seq<Bytes>, k: nat, l: nat, c: nat)
    requires Spans(rs, k, c) && Spans(rs, l, c)
    ensures k == l
  {
    if k < l {
      ConcatMono(rs, k, l - 1);
    } else if l < k {
      ConcatMono(rs, l, k - 1);
    }
  }

  /** Some of those c bytes' records are left, and the buffer holds just what has been read. */
  ghost predicate Rereadable(rs: seq<Bytes>, buf: Bytes, c: nat) {
    exists k: nat :: Spans(rs, k, c) && Holding(rs[..k], buf, c)
  }

  ghost predicate Holding(rs: seq<Bytes>, buf: Bytes, c: nat) {
    (forall r | r in rs :: |r| <= |buf|) && c < |Concat(rs)| && After(buf, rs) == Concat(rs)
  }

  lemma ConcatOne(rs: seq<Bytes>)
    requires rs != []
    ensures rs[..1] == [rs[0]] && Concat(rs[..1]) == rs[0] && Concat(rs[..0]) == []
  {
    assert rs[..1] == [rs[0]] && [rs[0]][1..] == [];
  }

  /** When the first record is longer than the bytes asked for, that is so just when it is full. */
  lemma FirstRecord(rs: seq<Bytes>, buf: Bytes, c: nat)
    requires rs != [] && 0 < c < |rs[0]| <= |buf|
    ensures Rereadable(rs, buf, c) <==> |rs[0]| == |buf|
  {
    ConcatOne(rs);
    AfterSnoc(buf, [], rs[0]);
    assert [] + [rs[0]] == [rs[0]];
    assert Spans(rs, 1, c);
    if Rereadable(rs, buf, c) {
      var k: nat :| Spans(rs, k, c) && Holding(rs[..k], buf, c);
      SpansOnce(rs, 1, k, c);
    }
    if |rs[0]| == |buf| {
      assert Holding(rs[..1], buf, c);
    }
  }

  /** In any case the records must fill the buffer between them. */
  lemma RecordsFill(rs: seq<Bytes>, buf: Bytes, c: nat)
    requires Rereadable(rs, buf, c)
    ensures exists k: nat :: Spans(rs, k, c) && |Concat(rs[..k])| == |buf|
  {
    var k: nat :| Spans(rs, k, c) && Holding(rs[..k], buf, c);
    assert Spans(rs, k, c) && |Concat(rs[..k])| == |buf|;
  }

  /** A first read of 80 bytes is not read again as it was. */
  lemma ShortFirst()
    ensures var r: Bytes := seq(80, i => i); !Rereadable([r], seq(512, _ => 0), 76)
  {
    FirstRecord([seq(80, i => i)], seq(512, _ => 0), 76);
  }

  class Reader {
    const bufsize: nat
    const cbuf: array<int>
    var ip: nat
    var nleft: nat
    // What read will return, call by call.
    var tape: seq<Bytes>

    constructor (bufsize: nat, tape: seq<Bytes>)
      requires bufsize > 0 && forall r | r in tape :: 0 < |r| <= bufsize
      ensures Valid() && Unread() == Concat(tape) && fresh(cbuf)
      ensures this.bufsize == bufsize && this.tape == tape && nleft == 0 && cbuf[..] == seq(bufsize, _ => 0)
    {
      this.bufsize := bufsize;
      cbuf := new int[bufsize](_ => 0);
      ip, nleft := 0, 0;
      this.tape := tape;
    }

    ghost predicate Valid()
      reads this
    {
      && 0 < bufsize == cbuf.Length && ip + nleft <= bufsize
      && forall r | r in tape :: 0 < |r| <= bufsize
    }

    ghost function Unread(): Bytes
      requires Valid()
      reads this, cbuf
    {
      cbuf[ip..ip + nleft] + Concat(tape)
    }

    /** The next record; a short one goes to the end of the buffer. */
    method Refill()
      requires Valid() && nleft == 0 && tape != []
      modifies this, cbuf
      ensures Valid() && Unread() == old(Unread()) && nleft > 0
      ensures nleft == |old(tape)[0]| && tape == old(tape)[1..] && ip + nleft == bufsize
      ensures cbuf[..] == Loaded(old(cbuf[..]), old(tape)[0])
    {
      hide Concat, Loaded;
      var r := tape[0];
      ConcatFirst(tape);
      Load(r);
      tape := tape[1..];
      nleft := |r|;
      assert cbuf[ip..ip + nleft] == cbuf[ip..];
    }

    method Load(r: Bytes)
      requires 0 < |r| <= bufsize == cbuf.Length
      modifies this`ip, cbuf
      ensures ip == bufsize - |r| && cbuf[..] == Loaded(old(cbuf[..]), r)
    {
      ghost var buf := cbuf[..];
      Memcpy(cbuf, 0, r);
      assert cbuf[..] == r + buf[|r|..];
      if |r| == bufsize {
        ip := 0;
      } else {
        Memcpy(cbuf, bufsize - |r|, r);
        ip := bufsize - |r|;
        assert cbuf[..] == (r + buf[|r|..])[..bufsize - |r|] + r;
      }
    }

    static lemma ConcatFirst(rs: seq<Bytes>)
      requires rs != []
      ensures Concat(rs) == rs[0] + Concat(rs[1..])
    {
    }

    /** k records have been read into the buffer, and done bytes given out of them. */
    ghost predicate Drawn(was: seq<Bytes>, buf: Bytes, k: nat, done: nat)
      reads this, cbuf
    {
      && k <= |was| && (forall r | r in was[..k] :: |r| <= |buf|)
      && tape == was[k..] && cbuf[..] == After(buf, was[..k])
      && done + nleft == |Concat(was[..k])| && (k > 0 ==> ip + nleft == bufsize) && (k == 0 ==> done == 0)
    }

    ghost predicate Stands(all: Bytes, i: int, n: int, rest: seq<Bytes>)
      reads this, cbuf
    {
      cbuf[..] == all && ip == i && nleft == n && tape == rest
    }

    /** bread. From an empty buffer it reads k records. */
    method Bread(count: nat, cflag: bool) returns (b: Bytes, ghost k: nat)
      requires Valid() && |Unread()| >= Rounded(count, cflag)
      modifies this, cbuf
      ensures Valid() && b == old(Unread())[..Rounded(count, cflag)]
      ensures Unread() == old(Unread())[Rounded(count, cflag)..]
      ensures old(nleft) == 0 && 0 < Rounded(count, cflag) ==>
        Spans(old(tape), k, Rounded(count, cflag)) && Drawn(old(tape), old(cbuf[..]), k, Rounded(count, cflag))
      ensures 0 < Rounded(count, cflag) <= old(nleft) ==>
        Stands(old(cbuf[..]), old(ip) + Rounded(count, cflag), old(nleft) - Rounded(count, cflag), old(tape))
    {
      hide Valid, Unread, Concat, Drawn, Spans;
      var c := Rounded(count, cflag);
      b, k := [], 0;
      ghost var near, empty := 0 < c <= nleft, nleft == 0;
      BufferSize();
      if empty {
        DrawnNone(tape, cbuf[..]);
      }
      while c > 0
        invariant Valid() && c <= |Unread()| && b + Unread() == old(Unread())
        invariant c >= 0 && |b| + c == Rounded(count, cflag)
        invariant b == [] ==> Stands(old(cbuf[..]), old(ip), old(nleft), old(tape))
        invariant near && b != [] ==> c == 0
        invariant near && b != [] ==>
          Stands(old(cbuf[..]), old(ip) + Rounded(count, cflag), old(nleft) - Rounded(count, cflag), old(tape))
        invariant empty ==> Drawn(old(tape), old(cbuf[..]), k, |b|)
        invariant empty ==> k <= |old(tape)|
        invariant empty && b != [] ==> k > 0 && |Concat(old(tape)[..k - 1])| < Rounded(count, cflag)
        decreases c
      {
        if nleft == 0 {
          Empty();
          NextRecord(old(tape), old(cbuf[..]), k, |b|, empty);
          k := k + 1;
        }
        var n := if nleft <= c then nleft else c;
        var p := Portion(n, old(tape), old(cbuf[..]), k, |b|, empty);
        Assoc(b, p, Unread());
        b := b + p;
        c := c - n;
      }
      Front(b, Unread(), old(Unread()));
      if empty && b != [] {
        DrawnSpans(old(tape), old(cbuf[..]), k, |b|);
      }
    }

    lemma BufferSize()
      requires Valid()
      ensures cbuf.Length == bufsize
    {
    }

    lemma DrawnNone(was: seq<Bytes>, buf: Bytes)
      requires tape == was && cbuf[..] == buf && nleft == 0
      ensures Drawn(was, buf, 0, 0)
    {
      assert was[0..] == was;
      assert Concat(was[..0]) == [];
    }

    lemma DrawnSpans(was: seq<Bytes>, buf: Bytes, k: nat, done: nat)
      requires Drawn(was, buf, k, done) && k > 0 && |Concat(was[..k - 1])| < done
      ensures Spans(was, k, done)
    {
    }

    /** Refill, with what has been drawn so far. */
    method NextRecord(ghost was: seq<Bytes>, ghost buf: Bytes, ghost k: nat, ghost done: nat, ghost empty: bool)
      requires Valid() && nleft == 0 && tape != [] && (empty ==> Drawn(was, buf, k, done) && |buf| == bufsize)
      modifies this, cbuf
      ensures Valid() && Unread() == old(Unread()) && nleft > 0
      ensures empty ==> k < |was| && Drawn(was, buf, k + 1, done) && |Concat(was[..k])| == done
    {
      hide Loaded, Unread, Concat;
      ghost var r := tape[0];
      Refill();
      if empty {
        assert was[k..][0] == was[k] && was[..k + 1] == was[..k] + [was[k]];
        AfterSnoc(buf, was[..k], r);
        ConcatSnoc(was[..k], r);
      }
    }

    /** Deal, the same way. */
    method Portion(n: nat, ghost was: seq<Bytes>, ghost buf: Bytes, ghost k: nat, ghost done: nat, ghost empty: bool)
      returns (p: Bytes)
      requires Valid() && n <= nleft && (empty ==> Drawn(was, buf, k, done) && k > 0)
      modifies this`ip, this`nleft
      ensures Valid() && |p| == n && p + Unread() == old(Unread()) && nleft == old(nleft) - n && ip == old(ip) + n
      ensures empty ==> Drawn(was, buf, k, done + n)
    {
      hide Unread, Concat, After;
      p := Deal(n);
    }

    static lemma Front(a: Bytes, b: Bytes, s: Bytes)
      requires a + b == s
      ensures a == s[..|a|] && b == s[|a|..]
    {
    }

    /** breread of no bytes: back to the beginning of the buffer. */
    method Breread()
      requires 0 < bufsize == cbuf.Length
      modifies this`ip, this`nleft
      ensures ip == 0 && nleft == if old(nleft) != 0 then bufsize else 0
    {
      ip := 0;
      if nleft != 0 {
        nleft := bufsize;
      }
    }

    /** Looking ahead, as chkhdr does: the bytes can be read again just when the records they came from
        can, for breread takes the buffer for full. */
    method Peek(count: nat, cflag: bool) returns (b: Bytes)
      requires Valid() && nleft == 0 && 0 < Rounded(count, cflag) <= |Unread()|
      modifies this, cbuf
      ensures Valid() && b == old(Unread())[..Rounded(count, cflag)]
      ensures Unread() == old(Unread()) <==> Rereadable(old(tape), old(cbuf[..]), Rounded(count, cflag))
      ensures Unread() == old(Unread()) ==> Stands(cbuf[..], 0, bufsize, tape)
    {
      hide Rereadable;
      ghost var was, buf := tape, cbuf[..];
      ghost var k;
      b, k := Bread(count, cflag);
      Breread();
      PeekLeaves(was, buf, k, Rounded(count, cflag));
    }

    lemma PeekLeaves(was: seq<Bytes>, buf: Bytes, k: nat, c: nat)
      requires Valid() && Spans(was, k, c) && c <= |Concat(was[..k])| && |buf| == bufsize
      requires (forall r | r in was[..k] :: |r| <= |buf|) && tape == was[k..] && cbuf[..] == After(buf, was[..k])
      requires ip == 0 && nleft == if c < |Concat(was[..k])| then bufsize else 0
      ensures Unread() == Concat(was) <==> Rereadable(was, buf, c)
      ensures Unread() == Concat(was) ==> nleft == bufsize
    {
      hide After, Concat;
      ConcatSplit(was, k);
      var taken, rest := Concat(was[..k]), Concat(was[k..]);
      assert cbuf[0..bufsize] == cbuf[..];
      if Rereadable(was, buf, c) {
        var l: nat :| Spans(was, l, c) && Holding(was[..l], buf, c);
        SpansOnce(was, k, l, c);
      }
      if Unread() == Concat(was) {
        assert Unread() == taken + rest;
        assert nleft == bufsize && |taken| == bufsize;
        assert cbuf[..] == (cbuf[..] + rest)[..bufsize] == (taken + rest)[..bufsize] == taken;
        assert Holding(was[..k], buf, c);
      }
    }

    method PeekAgain(count: nat, cflag: bool) returns (b: Bytes)
      requires Valid() && Stands(cbuf[..], 0, bufsize, tape) && 0 < Rounded(count, cflag) < bufsize
      modifies this, cbuf
      ensures Valid() && Unread() == old(Unread()) && b == old(Unread())[..Rounded(count, cflag)]
    {
      ghost var k;
      b, k := Bread(count, cflag);
      Breread();
      assert cbuf[0..bufsize] == cbuf[..];
    }

    lemma Empty()
      requires Valid() && nleft == 0 && |Unread()| > 0
      ensures tape != []
    {
    }

    /** Bytes out of the buffer. */
    method Deal(n: nat) returns (p: Bytes)
      requires Valid() && n <= nleft
      modifies this`ip, this`nleft
      ensures Valid() && |p| == n && p + Unread() == old(Unread()) && nleft == old(nleft) - n && ip == old(ip) + n
    {
      p := cbuf[ip..ip + n];
      Assoc(p, cbuf[ip + n..ip + nleft], Concat(tape));
      assert p + cbuf[ip + n..ip + nleft] == cbuf[ip..ip + nleft];
      ip := ip + n;
      nleft := nleft - n;
    }
  }
}
