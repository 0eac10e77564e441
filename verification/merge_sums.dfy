/** The sums of acctmerg, counter by counter, and the order of its records. */
module MergeSums {
  import opened Strings
  import opened MergeSpec

  // Counters that are whole numbers, and those that are not; of some there are two halves.
  datatype Counter = Processes | ServiceCharges | DiskSamples | Fee
  datatype Clock = Cpu | CpuOff | Kcore | KcoreOff | Connect | ConnectOff | DiskUse

  function CountOf(c: Counter, s: Sums): int {
    match c
    case Processes => s.pc
    case ServiceCharges => s.sc
    case DiskSamples => s.dc
    case Fee => s.fee
  }

  function ClockOf(c: Clock, s: Sums): real {
    match c
    case Cpu => s.cpu.0
    case CpuOff => s.cpu.1
    case Kcore => s.kcore.0
    case KcoreOff => s.kcore.1
    case Connect => s.con.0
    case ConnectOff => s.con.1
    case DiskUse => s.du
  }

  /** A counter of all the records. */
  function Counted(rs: seq<Tacct>, c: Counter): int {
    if rs == [] then 0 else CountOf(c, rs[0].sums) + Counted(rs[1..], c)
  }

  function Clocked(rs: seq<Tacct>, c: Clock): real {
    if rs == [] then 0.0 else ClockOf(c, rs[0].sums) + Clocked(rs[1..], c)
  }

  /** The counters are the sums of those of the records; all but the number of processes are short and
      wrap around. */
  ghost predicate SumsOf(s: Sums, rs: seq<Tacct>) {
    && (forall c: Counter :: CountOf(c, s) == if c.Processes? then Counted(rs, c) else Counted(rs, c) % 65536)
    && (forall c: Clock :: ClockOf(c, s) == Clocked(rs, c))
  }

  lemma {:induction false} CountedBoth(a: seq<Tacct>, b: seq<Tacct>, c: Counter)
    ensures Counted(a + b, c) == Counted(a, c) + Counted(b, c)
  {
    if a == [] {
      assert a + b == b;
    } else {
      assert (a + b)[1..] == a[1..] + b;
      CountedBoth(a[1..], b, c);
    }
  }

  lemma {:induction false} ClockedBoth(a: seq<Tacct>, b: seq<Tacct>, c: Clock)
    ensures Clocked(a + b, c) == Clocked(a, c) + Clocked(b, c)
  {
    if a == [] {
      assert a + b == b;
    } else {
      assert (a + b)[1..] == a[1..] + b;
      ClockedBoth(a[1..], b, c);
    }
  }

  lemma ShortSum(a: int, b: int, x: Ushort, y: Ushort)
    requires x == a % 65536 && y == b % 65536
    ensures Short(x, y) == (a + b) % 65536
  {
  }

  lemma AddSums(s: Sums, t: Sums, a: seq<Tacct>, b: seq<Tacct>)
    requires SumsOf(s, a) && SumsOf(t, b)
    ensures SumsOf(Add(s, t), a + b)
  {
    hide Short;
    forall c: Counter
      ensures CountOf(c, Add(s, t)) == if c.Processes? then Counted(a + b, c) else Counted(a + b, c) % 65536
    {
      CountedBoth(a, b, c);
      if !c.Processes? {
        ShortSum(Counted(a, c), Counted(b, c), CountOf(c, s), CountOf(c, t));
      }
    }
    forall c: Clock
      ensures ClockOf(c, Add(s, t)) == Clocked(a + b, c)
    {
      ClockedBoth(a, b, c);
    }
  }

  lemma OneSum(r: Tacct)
    ensures SumsOf(r.sums, [r])
  {
    assert [r][1..] == [];
  }

  lemma NoSums()
    ensures SumsOf(ZERO, [])
  {
  }

  // All records, and those with a key.

  function AllOf(fs: Files): seq<Tacct> {
    if fs == [] then [] else AllOf(fs[..|fs| - 1]) + fs[|fs| - 1]
  }

  function WithKey(rs: seq<Tacct>, key: Tacct, u: bool): seq<Tacct> {
    if rs == [] then [] else (if Same(rs[0], key, u) then [rs[0]] else []) + WithKey(rs[1..], key, u)
  }

  lemma {:induction false} WithKeyBoth(a: seq<Tacct>, b: seq<Tacct>, key: Tacct, u: bool)
    ensures WithKey(a + b, key, u) == WithKey(a, key, u) + WithKey(b, key, u)
  {
    if a == [] {
      assert a + b == b;
    } else {
      assert (a + b)[1..] == a[1..] + b;
      WithKeyBoth(a[1..], b, key, u);
    }
  }

  lemma {:induction false} SumForIs(s: seq<Tacct>, key: Tacct, u: bool)
    ensures SumsOf(SumFor(s, key, u), WithKey(s, key, u))
  {
    hide SumsOf, Add, Same;
    if s == [] {
      NoSums();
    } else {
      SumForIs(s[1..], key, u);
      if Same(s[0], key, u) {
        OneSum(s[0]);
        AddSums(s[0].sums, SumFor(s[1..], key, u), [s[0]], WithKey(s[1..], key, u));
      } else {
        assert WithKey(s, key, u) == WithKey(s[1..], key, u);
      }
    }
  }

  lemma {:induction false} SumsForIs(fs: Files, key: Tacct, u: bool)
    ensures SumsOf(SumsFor(fs, key, u), WithKey(AllOf(fs), key, u))
  {
    hide SumsOf, Add, WithKey, SumFor;
    if fs == [] {
      SumForIs([], key, u);
      NoneFor(key, u);
    } else {
      var n := |fs| - 1;
      SumsForIs(fs[..n], key, u);
      SumForIs(fs[n], key, u);
      AddSums(SumsFor(fs[..n], key, u), SumFor(fs[n], key, u), WithKey(AllOf(fs[..n]), key, u),
        WithKey(fs[n], key, u));
      WithKeyBoth(AllOf(fs[..n]), fs[n], key, u);
    }
  }

  lemma NoneFor(key: Tacct, u: bool)
    ensures SumFor([], key, u) == ZERO
  {
  }

  lemma {:induction false} SumAllIs(s: seq<Tacct>)
    ensures SumsOf(SumAll(s), s)
  {
    hide SumsOf, Add;
    if s == [] {
      NoSums();
    } else {
      SumAllIs(s[1..]);
      OneSum(s[0]);
      AddSums(s[0].sums, SumAll(s[1..]), [s[0]], s[1..]);
      assert s == [s[0]] + s[1..];
    }
  }

  lemma {:induction false} GrandIs(fs: Files)
    ensures SumsOf(Grand(fs), AllOf(fs))
  {
    hide SumsOf, Add, SumAll;
    if fs == [] {
      NoSums();
    } else {
      var n := |fs| - 1;
      GrandIs(fs[..n]);
      SumAllIs(fs[n]);
      AddSums(Grand(fs[..n]), SumAll(fs[n]), AllOf(fs[..n]), fs[n]);
    }
  }

  // The order.

  /** One record belongs before another: its user number is less, or, where names count, it is the same
      and the name comes earlier in the order of strings. */
  ghost predicate Earlier(a: Tacct, b: Tacct, u: bool) {
    a.uid < b.uid || (!u && a.uid == b.uid && Precedes(a.name, b.name))
  }

  lemma LessIsEarlier(a: Tacct, b: Tacct, u: bool)
    ensures Less(a, b, u) <==> Earlier(a, b, u)
    ensures Same(a, b, u) <==> a.uid == b.uid && (!u ==> a.name == b.name)
  {
    hide Cmp, Precedes;
    CmpIsOrder(a.name, b.name);
  }
}
