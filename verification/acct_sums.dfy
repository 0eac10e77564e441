/** The sums of acctcms, counter by counter, and the names under which they are kept. */
module AcctSums {
  import opened AcctTable

  // The counters, in prime time and outside it.
  datatype Clock =
    Cpu | CpuOff | Elapsed | ElapsedOff | Kcore | KcoreOff | CharsIo | CharsIoOff | Blocks | BlocksOff

  function CountOf(prime: bool, s: Usage): int {
    if prime then s.pc.0 else s.pc.1
  }

  function ClockOf(c: Clock, s: Usage): real {
    match c
    case Cpu => s.cpu.0
    case CpuOff => s.cpu.1
    case Elapsed => s.elapsed.0
    case ElapsedOff => s.elapsed.1
    case Kcore => s.kcore.0
    case KcoreOff => s.kcore.1
    case CharsIo => s.io.0
    case CharsIoOff => s.io.1
    case Blocks => s.rw.0
    case BlocksOff => s.rw.1
  }

  function Counted(us: seq<Usage>, prime: bool): int {
    if us == [] then 0 else Counted(us[..|us| - 1], prime) + CountOf(prime, us[|us| - 1])
  }

  function Clocked(us: seq<Usage>, c: Clock): real {
    if us == [] then 0.0 else Clocked(us[..|us| - 1], c) + ClockOf(c, us[|us| - 1])
  }

  /** Every counter is the sum of those in us. */
  ghost predicate SumsOf(s: Usage, us: seq<Usage>) {
    && CountOf(true, s) == Counted(us, true) && CountOf(false, s) == Counted(us, false)
    && forall c: Clock :: ClockOf(c, s) == Clocked(us, c)
  }

  lemma SumsNext(s: Usage, us: seq<Usage>, t: Usage)
    requires SumsOf(s, us)
    ensures SumsOf(Add(s, t), us + [t])
  {
    assert (us + [t])[..|us|] == us;
    forall c: Clock
      ensures ClockOf(c, Add(s, t)) == Clocked(us + [t], c)
    {
      assert Clocked(us + [t], c) == Clocked(us, c) + ClockOf(c, t);
    }
  }

  lemma NoSums()
    ensures SumsOf(ZERO, [])
  {
  }

  /** The name of a command as it is printed: a control character becomes a question mark. */
  predicate Printable(name: Name, shown: Name) {
    |shown| == |name| && forall i | 0 <= i < |name| :: shown[i] == if name[i] < 32 then '?' as int else name[i]
  }

  /** The counters of the records with a name. */
  function Under(rs: seq<Record>, name: Name): seq<Usage>
    requires Sound(rs)
  {
    if rs == [] then []
    else
      var r := rs[|rs| - 1];
      Under(rs[..|rs| - 1], name) + if Clean(r.name) == name then [r.use] else []
  }

  lemma CleanIs(name: Name)
    requires |name| <= 8
    ensures Printable(name, Clean(name))
    ensures forall shown | Printable(name, shown) :: shown == Clean(name)
  {
  }

  function Uses(rs: seq<Record>): (us: seq<Usage>)
    ensures |us| == |rs|
  {
    seq(|rs|, i requires 0 <= i < |rs| => rs[i].use)
  }

  lemma {:induction false} SumForIs(rs: seq<Record>, name: Name)
    requires Sound(rs)
    ensures SumsOf(SumFor(rs, name), Under(rs, name))
  {
    hide SumsOf, Add, Clean;
    if rs == [] {
      NoSums();
    } else {
      var n := |rs| - 1;
      SumForIs(rs[..n], name);
      if Clean(rs[n].name) == name {
        SumsNext(SumFor(rs[..n], name), Under(rs[..n], name), rs[n].use);
      } else {
        assert Under(rs, name) == Under(rs[..n], name);
      }
    }
  }

  lemma {:induction false} SumAllIs(rs: seq<Record>)
    ensures SumsOf(SumAll(rs), Uses(rs))
  {
    hide SumsOf, Add;
    if rs == [] {
      NoSums();
      assert Uses(rs) == [];
    } else {
      var n := |rs| - 1;
      SumAllIs(rs[..n]);
      SumsNext(SumAll(rs[..n]), Uses(rs[..n]), rs[n].use);
      assert Uses(rs) == Uses(rs[..n]) + [rs[n].use];
    }
  }

  function Listed(es: seq<Entry>): (us: seq<Usage>)
    ensures |us| == |es|
  {
    seq(|es|, i requires 0 <= i < |es| => es[i].use)
  }

  lemma {:induction false} TotalIs(es: seq<Entry>)
    requires forall e | e in es :: e.name != []
    ensures SumsOf(Total(es), Listed(es))
  {
    hide SumsOf, Add;
    if es == [] {
      NoSums();
      assert Listed(es) == [];
    } else {
      var n := |es| - 1;
      assert es[n] in es && forall e | e in es[..n] :: e in es;
      TotalIs(es[..n]);
      SumsNext(Total(es[..n]), Listed(es[..n]), es[n].use);
      assert Listed(es) == Listed(es[..n]) + [es[n].use];
    }
  }

  /** Together the entries have, of every counter, what the records have. */
  ghost predicate Balanced(es: seq<Entry>, rs: seq<Record>) {
    && Counted(Listed(es), true) == Counted(Uses(rs), true) && Counted(Listed(es), false) == Counted(Uses(rs), false)
    && forall c: Clock :: Clocked(Listed(es), c) == Clocked(Uses(rs), c)
  }

  lemma BalancedIs(es: seq<Entry>, rs: seq<Record>)
    requires (forall e | e in es :: e.name != []) && Total(es) == SumAll(rs)
    ensures Balanced(es, rs)
  {
    hide Counted, Clocked;
    TotalIs(es);
    SumAllIs(rs);
  }
}
