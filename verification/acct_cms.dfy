/** acctcms: entering records, lumping the commands used only once together, and closing the gaps. */
module AcctCms {
  import opened AcctSums
  import opened AcctTable

  // "***other"
  const OTHER: Name := [42, 42, 42, 111, 116, 104, 101, 114]

  predicate Once(use: Usage) {
    use.pc.0 + use.pc.1 <= 1
  }

  /** The slots before i that are lumped into slot j. */
  predicate Lump(es: seq<Entry>, j: int, i: int) {
    i != j && Taken(es, i) && Once(es[i].use)
  }

  function JunkSum(es: seq<Entry>, j: nat, i: nat): Usage
    requires i <= |es|
  {
    if i == 0 then ZERO
    else if Lump(es, j, i - 1) then Add(JunkSum(es, j, i - 1), es[i - 1].use)
    else JunkSum(es, j, i - 1)
  }

  /** The table when the slots before i have been dealt with. */
  function Lumped(es: seq<Entry>, j: nat, i: nat): (r: seq<Entry>)
    requires i <= |es| && j < |es|
    ensures |r| == |es|
  {
    if i == 0 then es
    else
      var r := Lumped(es, j, i - 1);
      if Lump(es, j, i - 1) then
        r[j := Entry(r[j].name, Add(r[j].use, es[i - 1].use))][i - 1 := Entry([], es[i - 1].use)]
      else r
  }

  lemma {:induction false} LumpedAt(es: seq<Entry>, j: nat, i: nat)
    requires i <= |es| && Taken(es, j)
    ensures forall k | 0 <= k < |es| && k != j ::
      Lumped(es, j, i)[k] == if k < i && Lump(es, j, k) then Entry([], es[k].use) else es[k]
    ensures Lumped(es, j, i)[j] == Entry(es[j].name, Add(es[j].use, JunkSum(es, j, i)))
  {
    if i > 0 {
      LumpedAt(es, j, i - 1);
    }
  }

  /** No counter is lost. */
  lemma {:induction false} LumpedTotal(es: seq<Entry>, j: nat, i: nat)
    requires i <= |es| && Taken(es, j)
    ensures Total(Lumped(es, j, i)) == Total(es)
  {
    hide Total;
    if i > 0 {
      LumpedTotal(es, j, i - 1);
      if Lump(es, j, i - 1) {
        LumpedAt(es, j, i - 1);
        var r := Lumped(es, j, i - 1);
        var e := Entry(r[j].name, Add(r[j].use, es[i - 1].use));
        TotalSet(r, j, e);
        TotalSet(r[j := e], i - 1, Entry([], es[i - 1].use));
      }
    }
  }

  /** What is left of the map: the commands used more than once, and the rest under one name. */
  ghost function LumpMap(m: map<Name, Usage>, v: Usage): map<Name, Usage> {
    map name | name in m && (name == OTHER || !Once(m[name])) :: if name == OTHER then v else m[name]
  }

  lemma LumpedSlot(es: seq<Entry>, j: nat, k: int)
    requires Taken(es, j)
    ensures Taken(Lumped(es, j, |es|), k) <==> Taken(es, k) && !Lump(es, j, k)
    ensures Taken(es, k) && !Lump(es, j, k) && k != j ==> Lumped(es, j, |es|)[k] == es[k]
    ensures k == j ==> Lumped(es, j, |es|)[k] == Entry(es[j].name, Add(es[j].use, JunkSum(es, j, |es|)))
  {
    LumpedAt(es, j, |es|);
  }

  lemma LumpedDistinct(es: seq<Entry>, j: nat)
    requires Distinct(es) && Taken(es, j)
    ensures Distinct(Lumped(es, j, |es|))
  {
    hide Lumped, JunkSum, Add, Lump;
    var r := Lumped(es, j, |es|);
    forall k, l | Taken(r, k) && Taken(r, l) && r[k].name == r[l].name
      ensures k == l
    {
      LumpedSlot(es, j, k);
      LumpedSlot(es, j, l);
    }
  }

  lemma LumpedHolds(es: seq<Entry>, m: map<Name, Usage>, j: nat)
    requires Distinct(es) && Holds(es, m) && Taken(es, j) && es[j].name == OTHER
    ensures Holds(Lumped(es, j, |es|), LumpMap(m, Add(es[j].use, JunkSum(es, j, |es|))))
  {
    hide Lumped, JunkSum, Add;
    var r, v := Lumped(es, j, |es|), Add(es[j].use, JunkSum(es, j, |es|));
    forall k | Taken(r, k)
      ensures r[k].name in LumpMap(m, v) && LumpMap(m, v)[r[k].name] == r[k].use
    {
      LumpedSlot(es, j, k);
    }
    forall name | name in LumpMap(m, v)
      ensures exists k :: Taken(r, k) && r[k].name == name
    {
      var k :| Taken(es, k) && es[k].name == name;
      LumpedSlot(es, j, k);
    }
  }

  class Cms {
    const table: array<Entry>
    var csize: nat

    /** calloc: nothing in the table. */
    constructor (n: nat)
      requires n > 0
      ensures fresh(table) && table.Length == n && Valid(table[..]) && Holds(table[..], map[])
      ensures Total(table[..]) == ZERO
    {
      hide Valid, Holds, Total;
      table := new Entry[n](_ => Entry([], ZERO));
      csize := 0;
      new;
      FreeTable(table[..]);
    }

    static lemma FreeTable(es: seq<Entry>)
      requires |es| > 0 && forall k | 0 <= k < |es| :: es[k] == Entry([], ZERO)
      ensures Valid(es) && Holds(es, map[]) && Total(es) == ZERO
    {
      hide Valid, Holds, Total;
      FreeValid(es);
      NoTotal(es);
    }

    static lemma FreeValid(es: seq<Entry>)
      requires |es| > 0 && forall k | 0 <= k < |es| :: es[k] == Entry([], ZERO)
      ensures Valid(es) && Holds(es, map[])
    {
      hide Reached, Legal, ZERO;
    }

    static lemma {:induction false} NoTotal(es: seq<Entry>)
      requires forall k | 0 <= k < |es| :: es[k].name == []
      ensures Total(es) == ZERO
    {
      if es != [] {
        NoTotal(es[..|es| - 1]);
      }
    }

    method HashOf(name: Name) returns (i: int)
      ensures i == Hash(name, 8)
    {
      i := 0;
      for j := 0 to 8
        invariant i == Hash(name, j)
      {
        i := i * 7 + if j < |name| then name[j] else 0;
      }
    }

    /** The slot of the name, or the first free one on its path, or -1. */
    method Find(name: Name, ghost m: map<Name, Usage>) returns (i: int)
      requires table.Length > 0 && Valid(table[..]) && Holds(table[..], m)
      ensures i == -1 <==> name !in m && |m| == table.Length
      ensures i != -1 ==> 0 <= i < table.Length
      ensures i != -1 ==> if name in m then Taken(table[..], i) && table[i].name == name
        else FirstFree(table[..], name, i)
    {
      hide Valid, Holds, Home, Hash;
      var h := HashOf(name);
      i := (if h < 0 then -h else h) % table.Length;
      HomeIs(name, table.Length);
      var j: nat := 0;
      while table[i].name != [] && j != table.Length
        invariant 0 <= j <= table.Length && 0 <= i < table.Length
        invariant i == Walk(Home(name, table.Length), j, table.Length) && Passed(table[..], name, j)
        decreases table.Length - j
      {
        if table[i].name == name {
          InMap(table[..], m, i);
          return;
        }
        assert Missed(table[..], name, j);
        i := if i + 1 == table.Length then 0 else i + 1;
        j := j + 1;
      }
      Full(table[..], m);
      Absent(table[..], m, name, j);
      if j == table.Length {
        AllTaken(table[..], name);
        i := -1;
      } else {
        assert !Taken(table[..], i);
      }
    }

    static lemma HomeIs(name: Name, n: nat)
      requires n > 0
      ensures Home(name, n) == (if Hash(name, 8) < 0 then -Hash(name, 8) else Hash(name, 8)) % n
    {
    }

    static lemma InMap(es: seq<Entry>, m: map<Name, Usage>, i: nat)
      requires Holds(es, m) && Taken(es, i)
      ensures es[i].name in m && m[es[i].name] == es[i].use
    {
    }

    /** enter: the record's counters are added to those of its name, if that is there or has room. */
    method Enter(r: Record, ghost m: map<Name, Usage>) returns (i: int)
      requires 0 < |r.name| <= 8 && table.Length > 0 && Valid(table[..]) && Holds(table[..], m)
      modifies table
      ensures Valid(table[..]) && Holds(table[..], Put(m, r, table.Length))
      ensures i == -1 <==> Clean(r.name) !in m && |m| == table.Length
      ensures i != -1 ==> Taken(table[..], i) && table[i].name == Clean(r.name)
      ensures Total(table[..]) == if i == -1 then old(Total(table[..])) else Add(old(Total(table[..])), r.use)
    {
      hide Valid, Holds, Total, FirstFree, Clean;
      var name := Clean(r.name);
      assert Legal(name) by { CleanLegal(r.name); }
      ghost var es := table[..];
      Full(es, m);
      i := Find(name, m);
      if i != -1 {
        ghost var use := Add(Get(m, name), r.use);
        if name in m {
          InMap(es, m, i);
          UseAdded(es, m, i, use);
        } else {
          FreeSlot(es, name, i);
          Entered(es, m, name, i, use);
        }
        TotalSet(es, i, Entry(name, use));
        Grown(es[i], r.use, Total(es), Total(es[i := Entry(name, use)]), name);
        if table[i].name == [] {
          table[i] := Entry(name, table[i].use);
        }
        table[i] := Entry(table[i].name, Add(table[i].use, r.use));
        assert table[..] == es[i := Entry(name, use)];
      }
    }

    static lemma CleanLegal(name: Name)
      requires 0 < |name| <= 8
      ensures Legal(Clean(name))
    {
    }

    static lemma FreeSlot(es: seq<Entry>, name: Name, i: nat)
      requires Valid(es) && i < |es| && FirstFree(es, name, i)
      ensures es[i] == Entry([], ZERO)
    {
      assert !Taken(es, i);
    }

    static lemma Grown(e: Entry, use: Usage, t: Usage, t': Usage, name: Name)
      requires name != [] && (e.name == [] ==> e.use == ZERO)
      requires Add(t', Weight(e)) == Add(t, Weight(Entry(name, Add(e.use, use))))
      ensures t' == Add(t, use)
    {
    }

    /** fixjunk: the commands used once become one. */
    method FixJunk(ghost m: map<Name, Usage>) returns (ghost v: Usage)
      requires table.Length > 0 && Valid(table[..]) && Holds(table[..], m) && (OTHER in m || |m| < table.Length)
      modifies table
      ensures Distinct(table[..])
      ensures Holds(table[..], LumpMap(Put(m, Record(OTHER, ZERO), table.Length), v))
      ensures Total(table[..]) == old(Total(table[..]))
    {
      hide Valid, Holds, Total, Lump, Lumped, Add, Distinct, JunkSum;
      OtherClean();
      ghost var t := Total(table[..]);
      var j := Enter(Record(OTHER, ZERO), m);
      AddLaws(t, ZERO, ZERO);
      ghost var es := table[..];
      ValidDistinct(es);
      LumpedFirst(es, j);
      for i := 0 to table.Length
        invariant table[..] == Lumped(es, j, i)
      {
        LumpedNext(es, j, i);
        if i != j && table[i].name != [] && Once(table[i].use) {
          table[j] := Entry(table[j].name, Add(table[j].use, table[i].use));
          table[i] := Entry([], table[i].use);
        }
      }
      LumpedDistinct(es, j);
      LumpedHolds(es, Put(m, Record(OTHER, ZERO), table.Length), j);
      LumpedTotal(es, j, |es|);
      v := Add(es[j].use, JunkSum(es, j, |es|));
    }

    static lemma OtherClean()
      ensures |OTHER| == 8 && Clean(OTHER) == OTHER
    {
    }

    static lemma ValidDistinct(es: seq<Entry>)
      requires Valid(es)
      ensures Distinct(es)
    {
    }

    static lemma LumpedFirst(es: seq<Entry>, j: nat)
      requires j < |es|
      ensures Lumped(es, j, 0) == es
    {
    }

    static lemma LumpedNext(es: seq<Entry>, j: nat, i: nat)
      requires i < |es| && Taken(es, j)
      ensures Lump(es, j, i) <==> i != j && Lumped(es, j, i)[i].name != [] && Once(Lumped(es, j, i)[i].use)
      ensures Lumped(es, j, i + 1) == var r := Lumped(es, j, i);
        if Lump(es, j, i) then r[j := Entry(r[j].name, Add(r[j].use, r[i].use))][i := Entry([], r[i].use)] else r
    {
      LumpedAt(es, j, i);
    }

    /** squeeze: the entries in use move to the front, in order. */
    method Squeeze()
      modifies table, this`csize
      ensures csize <= table.Length && table[..csize] == Squeezed(old(table[..]))
    {
      hide Squeezed;
      ghost var es := table[..];
      SqueezedNone();
      var k := 0;
      for i := 0 to table.Length
        invariant 0 <= k <= i && table[..k] == Squeezed(es[..i])
        invariant forall q | i <= q < table.Length :: table[q] == es[q]
      {
        SqueezedNext(es, i);
        if table[i].name != [] {
          ghost var front := table[..k];
          table[k] := table[i];
          assert table[..k + 1] == front + [es[i]];
          k := k + 1;
        }
      }
      assert es[..table.Length] == es;
      csize := k;
    }

    static lemma SqueezedNone()
      ensures Squeezed([]) == []
    {
    }

    static lemma SqueezedNext(es: seq<Entry>, i: nat)
      requires i < |es|
      ensures Squeezed(es[..i + 1]) == if es[i].name != [] then Squeezed(es[..i]) + [es[i]] else Squeezed(es[..i])
    {
      assert es[..i + 1] == es[..i] + [es[i]];
      SqueezedSnoc(es[..i], es[i]);
    }

    /** Every record is entered in turn. */
    method EnterAll(rs: seq<Record>)
      requires Sound(rs) && table.Length > 0 && Valid(table[..]) && Holds(table[..], map[]) && Total(table[..]) == ZERO
      modifies table
      ensures Valid(table[..]) && Holds(table[..], Tally(rs, table.Length))
      ensures Add(Total(table[..]), Lost(rs, table.Length)) == SumAll(rs)
    {
      hide Valid, Holds, Total, Put, Add, Clean, Lost, SumAll, Tally;
      EntersNone(table.Length);
      for n := 0 to |rs|
        invariant Valid(table[..]) && Holds(table[..], Tally(rs[..n], table.Length))
        invariant Add(Total(table[..]), Lost(rs[..n], table.Length)) == SumAll(rs[..n])
      {
        TallyNext(rs, n, table.Length);
        ghost var t := Total(table[..]);
        Full(table[..], Tally(rs[..n], table.Length));
        var i := Enter(rs[n], Tally(rs[..n], table.Length));
        LostNext(rs, n, table.Length, t);
      }
      assert rs[..|rs|] == rs;
    }

    static lemma EntersNone(size: nat)
      ensures Tally([], size) == map[] && Lost([], size) == ZERO && SumAll([]) == ZERO && Add(ZERO, ZERO) == ZERO
    {
    }

    static lemma TallyNext(rs: seq<Record>, n: nat, size: nat)
      requires Sound(rs) && n < |rs|
      ensures Tally(rs[..n + 1], size) == Put(Tally(rs[..n], size), rs[n], size)
    {
      hide Put, Add, Clean;
      assert rs[..n + 1][..n] == rs[..n];
    }

    /** What is there after the record with total t before it, and what has been lost. */
    static lemma LostNext(rs: seq<Record>, n: nat, size: nat, t: Usage)
      requires Sound(rs) && n < |rs| && Add(t, Lost(rs[..n], size)) == SumAll(rs[..n])
      ensures var m := Tally(rs[..n], size);
        var there := if Clean(rs[n].name) in m || |m| < size then Add(t, rs[n].use) else t;
        Add(there, Lost(rs[..n + 1], size)) == SumAll(rs[..n + 1])
    {
      hide Put, Add, Clean, Tally;
      assert rs[..n + 1][..n] == rs[..n];
      AddSwap(t, Lost(rs[..n], size), rs[n].use);
      AddLaws(t, Lost(rs[..n], size), rs[n].use);
    }
  }

  /** The whole run: what comes out lists each name for which there was room once, with what its
      records amount to; under the flag, the commands used once stand together; and with what was
      lost for want of room it makes up all the records' counters. With room for every name it is
      the sum of its records that each comes out with. */
  method Summary(rs: seq<Record>, n: nat, junk: bool) returns (es: seq<Entry>, ghost v: Usage)
    requires Sound(rs) && n > 0 && (junk ==> OTHER in Tally(rs, n) || |Tally(rs, n)| < n)
    ensures Add(Total(es), Lost(rs, n)) == SumAll(rs)
    ensures Listing(es, if junk then LumpMap(Put(Tally(rs, n), Record(OTHER, ZERO), n), v) else Tally(rs, n))
    ensures |Named(rs)| <= n ==>
      Total(es) == SumAll(rs) && Tally(rs, n).Keys == Named(rs) &&
      forall name :: Get(Tally(rs, n), name) == SumFor(rs, name)
    ensures |Named(rs)| <= n ==> Balanced(es, rs)
    ensures |Named(rs)| <= n && !junk ==> forall e | e in es :: SumsOf(e.use, Under(rs, e.name))
    ensures |Named(rs)| <= n && junk ==> forall e | e in es && e.name != OTHER ::
      SumsOf(e.use, Under(rs, e.name)) && e.use.pc.0 + e.use.pc.1 > 1
    ensures |Named(rs)| <= n ==> forall name | name in Named(rs) && (junk ==> Often(rs, name)) :: IsListed(es, name)
  {
    hide Valid, Holds, Total, Distinct, Listing, Put, LumpMap, Tally, SumAll, Lost, Add, Named, SumFor, Get, Often;
    hide IsListed;
    var cms := new Cms(n);
    cms.EnterAll(rs);
    ghost var m := Tally(rs, n);
    if |Named(rs)| <= n {
      NothingLost(rs, n);
      TallyIsSum(rs, n);
      AddLaws(Total(cms.table[..]), ZERO, ZERO);
    }
    v := ZERO;
    if junk {
      v := cms.FixJunk(m);
      m := LumpMap(Put(m, Record(OTHER, ZERO), n), v);
    } else {
      Cms.ValidDistinct(cms.table[..]);
    }
    SqueezedLists(cms.table[..], m);
    cms.Squeeze();
    es := cms.table[..cms.csize];
    if |Named(rs)| <= n {
      ListingNames(es, m);
      BalancedIs(es, rs);
      forall e | e in es && (junk ==> e.name != OTHER)
        ensures SumsOf(e.use, Under(rs, e.name)) && (junk ==> e.use.pc.0 + e.use.pc.1 > 1)
      {
        ListingUse(rs, n, junk, v, m, es, e);
        SumForIs(rs, e.name);
      }
      forall name | name in Named(rs) && (junk ==> Often(rs, name))
        ensures IsListed(es, name)
      {
        SumForIs(rs, name);
        ListedIs(rs, n, junk, v, m, es, name);
      }
    }
  }

  /** The command was used more than once. */
  predicate Often(rs: seq<Record>, name: Name)
    requires Sound(rs)
  {
    Counted(Under(rs, name), true) + Counted(Under(rs, name), false) > 1
  }

  predicate IsListed(es: seq<Entry>, name: Name) {
    exists k :: 0 <= k < |es| && es[k].name == name
  }

  lemma ListedIs(rs: seq<Record>, n: nat, junk: bool, v: Usage, m: map<Name, Usage>, es: seq<Entry>, name: Name)
    requires Sound(rs) && forall x :: Get(Tally(rs, n), x) == SumFor(rs, x)
    requires name in Named(rs) && Tally(rs, n).Keys == Named(rs) && (junk ==> Often(rs, name))
    requires SumsOf(SumFor(rs, name), Under(rs, name))
    requires m == if junk then LumpMap(Put(Tally(rs, n), Record(OTHER, ZERO), n), v) else Tally(rs, n)
    requires Listing(es, m)
    ensures IsListed(es, name)
  {
    hide Tally, SumFor, Add, Named, Counted, Clocked;
    OtherIs();
    AddLaws(Get(Tally(rs, n), name), ZERO, ZERO);
    assert name in m;
    var k :| Taken(es, k) && es[k].name == name;
  }

  lemma ListingNames(es: seq<Entry>, m: map<Name, Usage>)
    requires Listing(es, m)
    ensures forall e | e in es :: e.name != []
  {
    forall e | e in es
      ensures e.name != []
    {
      var k :| 0 <= k < |es| && es[k] == e;
      assert Taken(es, k);
    }
  }

  /** What is listed under a name other than that of the commands used once. */
  lemma ListingUse(rs: seq<Record>, n: nat, junk: bool, v: Usage, m: map<Name, Usage>, es: seq<Entry>, e: Entry)
    requires Sound(rs) && forall name :: Get(Tally(rs, n), name) == SumFor(rs, name)
    requires m == if junk then LumpMap(Put(Tally(rs, n), Record(OTHER, ZERO), n), v) else Tally(rs, n)
    requires Listing(es, m) && e in es && (junk ==> e.name != OTHER)
    ensures e.use == SumFor(rs, e.name) && (junk ==> e.use.pc.0 + e.use.pc.1 > 1)
  {
    hide Tally, SumFor, Add;
    var k :| 0 <= k < |es| && es[k] == e;
    assert Taken(es, k);
    assert e.name in m && m[e.name] == e.use;
    OtherIs();
  }

  lemma OtherIs()
    ensures |OTHER| == 8 && Clean(OTHER) == OTHER && forall i | 0 <= i < 8 :: OTHER[i] == "***other"[i] as int
  {
  }
}
