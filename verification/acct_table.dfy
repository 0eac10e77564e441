/** acctcms: the command summary, kept in a table with open addressing that must behave like a map
    from command names to counters. */
module AcctTable {

  type Name = seq<int>

  /** The counters of a command, in prime time and outside it. */
  datatype Usage = Usage(pc: (int, int), cpu: (real, real), elapsed: (real, real), kcore: (real, real),
                         io: (real, real), rw: (real, real))

  const ZERO := Usage((0, 0), (0.0, 0.0), (0.0, 0.0), (0.0, 0.0), (0.0, 0.0), (0.0, 0.0))

  function Both(a: (real, real), b: (real, real)): (real, real) {
    (a.0 + b.0, a.1 + b.1)
  }

  /** pcmadd. */
  function Add(a: Usage, b: Usage): Usage {
    Usage((a.pc.0 + b.pc.0, a.pc.1 + b.pc.1), Both(a.cpu, b.cpu), Both(a.elapsed, b.elapsed),
          Both(a.kcore, b.kcore), Both(a.io, b.io), Both(a.rw, b.rw))
  }

  lemma AddLaws(a: Usage, b: Usage, c: Usage)
    ensures Add(a, ZERO) == a && Add(ZERO, a) == a && Add(a, b) == Add(b, a)
    ensures Add(Add(a, b), c) == Add(a, Add(b, c))
  {
  }

  /** A slot; a name of no characters marks a free one. */
  datatype Entry = Entry(name: Name, use: Usage)

  predicate Legal(name: Name) {
    0 < |name| <= 8 && forall c | c in name :: c > 31
  }

  /** Control characters become question marks. */
  function Clean(name: Name): (r: Name)
    requires |name| <= 8
    ensures |r| == |name| && forall c | c in r :: c > 31
  {
    seq(|name|, j requires 0 <= j < |name| => if name[j] <= 31 then 63 else name[j])
  }

  function Hash(name: Name, j: nat): int {
    if j == 0 then 0 else Hash(name, j - 1) * 7 + if j <= |name| then name[j - 1] else 0
  }

  // The probe path: u steps from a slot, around the end of the table.

  function Home(name: Name, n: nat): (h: nat)
    requires n > 0
    ensures h < n
  {
    var i := Hash(name, 8);
    (if i < 0 then -i else i) % n
  }

  function Walk(h: nat, u: nat, n: nat): nat
    requires h < n && u <= n
  {
    if h + u < n then h + u else h + u - n
  }

  function Steps(h: nat, k: nat, n: nat): nat
    requires h < n && k < n
  {
    if k >= h then k - h else k - h + n
  }

  lemma WalkSteps(h: nat, k: nat, n: nat)
    requires h < n && k < n
    ensures Steps(h, k, n) < n && Walk(h, Steps(h, k, n), n) == k
  {
  }

  predicate Taken(es: seq<Entry>, k: int) {
    0 <= k < |es| && es[k].name != []
  }

  /** A name is where its probe path leads: the slots before it are taken. */
  predicate Reached(es: seq<Entry>, k: int)
    requires Taken(es, k)
  {
    var h := Home(es[k].name, |es|);
    forall u: nat | u < Steps(h, k, |es|) :: Taken(es, Walk(h, u, |es|))
  }

  ghost predicate Valid(es: seq<Entry>) {
    && |es| > 0
    && (forall k | 0 <= k < |es| :: if Taken(es, k) then Legal(es[k].name) && Reached(es, k) else es[k].use == ZERO)
    && forall k, l | Taken(es, k) && Taken(es, l) && es[k].name == es[l].name :: k == l
  }

  /** The table as a map. */
  ghost predicate Holds(es: seq<Entry>, m: map<Name, Usage>) {
    && (forall k | Taken(es, k) :: es[k].name in m && m[es[k].name] == es[k].use)
    && forall name | name in m :: exists k :: Taken(es, k) && es[k].name == name
  }

  function Get(m: map<Name, Usage>, name: Name): Usage {
    if name in m then m[name] else ZERO
  }

  /** The name is in none of the first j slots of its path. */
  predicate Passed(es: seq<Entry>, name: Name, j: nat)
    requires |es| > 0
  {
    j <= |es| && forall u: nat | u < j :: Missed(es, name, u)
  }

  predicate Missed(es: seq<Entry>, name: Name, u: nat)
    requires |es| > 0 && u < |es|
  {
    var k := Walk(Home(name, |es|), u, |es|);
    Taken(es, k) && es[k].name != name
  }

  lemma PassedAt(es: seq<Entry>, name: Name, j: nat, u: nat)
    requires |es| > 0 && Passed(es, name, j) && u < j
    ensures Missed(es, name, u)
  {
  }

  /** A free slot on the path: the name is nowhere in the table. */
  lemma Absent(es: seq<Entry>, m: map<Name, Usage>, name: Name, j: nat)
    requires Valid(es) && Holds(es, m) && Passed(es, name, j)
    requires j < |es| ==> !Taken(es, Walk(Home(name, |es|), j, |es|))
    ensures name !in m
  {
    hide Home;
    if name in m {
      var k :| Taken(es, k) && es[k].name == name;
      var u := Steps(Home(name, |es|), k, |es|);
      WalkSteps(Home(name, |es|), k, |es|);
      assert Reached(es, k);
      if u < j {
        PassedAt(es, name, j, u);
      }
      assert false;
    }
  }

  lemma AllTaken(es: seq<Entry>, name: Name)
    requires |es| > 0 && Passed(es, name, |es|)
    ensures forall k | 0 <= k < |es| :: Taken(es, k)
  {
    forall k | 0 <= k < |es|
      ensures Taken(es, k)
    {
      WalkSteps(Home(name, |es|), k, |es|);
      assert Missed(es, name, Steps(Home(name, |es|), k, |es|));
    }
  }

  lemma UseAdded(es: seq<Entry>, m: map<Name, Usage>, k: nat, use: Usage)
    requires Valid(es) && Holds(es, m) && Taken(es, k)
    ensures Valid(es[k := Entry(es[k].name, use)])
    ensures Holds(es[k := Entry(es[k].name, use)], m[es[k].name := use])
  {
    var r := es[k := Entry(es[k].name, use)];
    assert forall i :: Taken(r, i) <==> Taken(es, i);
    forall i | Taken(r, i)
      ensures Reached(r, i)
    {
      assert Reached(es, i);
    }
    HoldsSet(es, r, m, k);
  }

  lemma HoldsSet(es: seq<Entry>, r: seq<Entry>, m: map<Name, Usage>, k: nat)
    requires Holds(es, m) && k < |es| == |r| && Taken(r, k) && r == es[k := r[k]]
    requires forall i | Taken(es, i) && es[i].name == r[k].name :: i == k
    requires es[k].name == [] || es[k].name == r[k].name
    ensures Holds(r, m[r[k].name := r[k].use])
  {
    var m' := m[r[k].name := r[k].use];
    forall name | name in m'
      ensures exists i :: Taken(r, i) && r[i].name == name
    {
      if name != r[k].name {
        var i :| Taken(es, i) && es[i].name == name;
        assert Taken(r, i);
      }
    }
  }

  /** The first free slot on the name's path. */
  ghost predicate FirstFree(es: seq<Entry>, name: Name, k: int)
    requires |es| > 0
  {
    exists j: nat :: Passed(es, name, j) && j < |es| && !Taken(es, k) && k == Walk(Home(name, |es|), j, |es|)
  }

  /** A name put there can be found again, and so can the others. */
  lemma Entered(es: seq<Entry>, m: map<Name, Usage>, name: Name, k: nat, use: Usage)
    requires Valid(es) && Holds(es, m) && Legal(name) && FirstFree(es, name, k) && k < |es|
    ensures Valid(es[k := Entry(name, use)]) && Holds(es[k := Entry(name, use)], m[name := use])
  {
    hide Home;
    var h := Home(name, |es|);
    var j: nat :| Passed(es, name, j) && j < |es| && !Taken(es, k) && k == Walk(h, j, |es|);
    var r := es[k := Entry(name, use)];
    Absent(es, m, name, j);
    assert forall i | Taken(es, i) :: Taken(r, i);
    forall i | Taken(r, i)
      ensures Reached(r, i)
    {
      if i != k {
        assert Reached(es, i);
      } else {
        assert Steps(h, k, |es|) == j;
        forall u: nat | u < j
          ensures Taken(r, Walk(h, u, |es|))
        {
          assert Missed(es, name, u);
        }
      }
    }
    HoldsSet(es, r, m, k);
  }

  // How many names there are.

  ghost function Names(es: seq<Entry>, n: nat): set<Name>
    requires n <= |es|
  {
    if n == 0 then {} else Names(es, n - 1) + if Taken(es, n - 1) then {es[n - 1].name} else {}
  }

  lemma {:induction false} NamesHas(es: seq<Entry>, n: nat, name: Name)
    requires n <= |es|
    ensures name in Names(es, n) <==> exists k :: k < n && Taken(es, k) && es[k].name == name
  {
    if n > 0 {
      NamesHas(es, n - 1, name);
      assert Taken(es, n - 1) && es[n - 1].name == name ==> name in Names(es, n);
    }
  }

  lemma {:induction false} NamesCount(es: seq<Entry>, n: nat)
    requires n <= |es| && forall k, l | Taken(es, k) && Taken(es, l) && es[k].name == es[l].name :: k == l
    ensures |Names(es, n)| <= n
    ensures |Names(es, n)| == n <==> forall k | 0 <= k < n :: Taken(es, k)
  {
    if n > 0 {
      NamesCount(es, n - 1);
      NamesHas(es, n - 1, es[n - 1].name);
    }
  }

  /** The table is full when the map has as many names as there are slots. */
  lemma Full(es: seq<Entry>, m: map<Name, Usage>)
    requires Valid(es) && Holds(es, m)
    ensures |m| <= |es| && (|m| == |es| <==> forall k | 0 <= k < |es| :: Taken(es, k))
  {
    NamesCount(es, |es|);
    forall name
      ensures name in Names(es, |es|) <==> name in m
    {
      NamesHas(es, |es|, name);
    }
    assert Names(es, |es|) == m.Keys;
  }

  // What the records amount to.

  datatype Record = Record(name: Name, use: Usage)

  predicate Sound(rs: seq<Record>) {
    forall r | r in rs :: 0 < |r.name| <= 8
  }

  /** One more record; when there is no room for its name it is lost. */
  function Put(m: map<Name, Usage>, r: Record, n: nat): map<Name, Usage>
    requires |r.name| <= 8
  {
    var name := Clean(r.name);
    if name in m || |m| < n then m[name := Add(Get(m, name), r.use)] else m
  }

  function Tally(rs: seq<Record>, n: nat): map<Name, Usage>
    requires Sound(rs)
  {
    if rs == [] then map[] else Put(Tally(rs[..|rs| - 1], n), rs[|rs| - 1], n)
  }

  function Named(rs: seq<Record>): set<Name>
    requires Sound(rs)
  {
    set r | r in rs :: Clean(r.name)
  }

  function SumFor(rs: seq<Record>, name: Name): Usage
    requires Sound(rs)
  {
    if rs == [] then ZERO
    else
      var r := rs[|rs| - 1];
      if Clean(r.name) == name then Add(SumFor(rs[..|rs| - 1], name), r.use) else SumFor(rs[..|rs| - 1], name)
  }

  /** With room for every name, each comes out with the sum of its records. */
  lemma {:induction false} TallyIsSum(rs: seq<Record>, n: nat)
    requires Sound(rs) && |Named(rs)| <= n
    ensures Tally(rs, n).Keys == Named(rs)
    ensures forall name :: Get(Tally(rs, n), name) == SumFor(rs, name)
  {
    if rs != [] {
      var rest, r := rs[..|rs| - 1], rs[|rs| - 1];
      NamedNext(rs);
      TallyIsSum(rest, n);
      hide Add, Clean, Named;
    } else {
      assert Named(rs) == {};
    }
  }

  lemma NamedNext(rs: seq<Record>)
    requires rs != [] && Sound(rs)
    ensures var rest, name := rs[..|rs| - 1], Clean(rs[|rs| - 1].name);
      && Named(rs) == Named(rest) + {name} && |Named(rest)| <= |Named(rs)|
      && (name !in Named(rest) ==> |Named(rest)| < |Named(rs)|)
  {
    var rest, r := rs[..|rs| - 1], rs[|rs| - 1];
    assert rs == rest + [r];
    assert Named(rs) == Named(rest) + {Clean(r.name)};
    Smaller(Named(rest), Named(rs));
  }

  lemma Smaller<T>(a: set<T>, b: set<T>)
    requires a <= b
    ensures |a| <= |b|
  {
    assert b == a + (b - a);
  }

  // Totals.

  function Weight(e: Entry): Usage {
    if e.name == [] then ZERO else e.use
  }

  function Total(es: seq<Entry>): Usage {
    if es == [] then ZERO else Add(Total(es[..|es| - 1]), Weight(es[|es| - 1]))
  }

  function SumAll(rs: seq<Record>): Usage {
    if rs == [] then ZERO else Add(SumAll(rs[..|rs| - 1]), rs[|rs| - 1].use)
  }

  /** The counters of the records for whose name there was no room. */
  function Lost(rs: seq<Record>, n: nat): Usage
    requires Sound(rs)
  {
    if rs == [] then ZERO
    else
      var rest, r := rs[..|rs| - 1], rs[|rs| - 1];
      if Clean(r.name) in Tally(rest, n) || |Tally(rest, n)| < n then Lost(rest, n) else Add(Lost(rest, n), r.use)
  }

  /** With room for every name nothing is lost. */
  lemma {:induction false} NothingLost(rs: seq<Record>, n: nat)
    requires Sound(rs) && |Named(rs)| <= n
    ensures Lost(rs, n) == ZERO
  {
    if rs != [] {
      var rest, name := rs[..|rs| - 1], Clean(rs[|rs| - 1].name);
      hide Tally, Named, Add, Clean;
      NamedNext(rs);
      NothingLost(rest, n);
      TallyIsSum(rest, n);
      if name !in Tally(rest, n) {
        assert |Tally(rest, n)| == |Tally(rest, n).Keys|;
      }
    }
  }

  lemma {:induction false} TotalSet(es: seq<Entry>, k: nat, e: Entry)
    requires k < |es|
    ensures Add(Total(es[k := e]), Weight(es[k])) == Add(Total(es), Weight(e))
  {
    var n := |es| - 1;
    hide Weight, Add;
    if k < n {
      TotalSet(es[..n], k, e);
      assert es[k := e][..n] == es[..n][k := e];
      AddSwap(Total(es[..n][k := e]), Weight(es[n]), Weight(es[k]));
      AddSwap(Total(es[..n]), Weight(e), Weight(es[n]));
    } else {
      assert es[k := e][..n] == es[..n];
      AddSwap(Total(es[..n]), Weight(e), Weight(es[k]));
    }
  }

  lemma AddSwap(a: Usage, b: Usage, c: Usage)
    ensures Add(Add(a, b), c) == Add(Add(a, c), b)
  {
  }

  // The table squeezed.

  function Squeezed(es: seq<Entry>): seq<Entry> {
    if es == [] then []
    else Squeezed(es[..|es| - 1]) + if es[|es| - 1].name != [] then [es[|es| - 1]] else []
  }

  /** The names of the map, each once and with its counters, and nothing else. */
  ghost predicate Listing(es: seq<Entry>, m: map<Name, Usage>) {
    && (forall k | 0 <= k < |es| :: Taken(es, k)) && Holds(es, m)
    && forall k, l | Taken(es, k) && Taken(es, l) && es[k].name == es[l].name :: k == l
  }

  ghost predicate Distinct(es: seq<Entry>) {
    forall k, l | Taken(es, k) && Taken(es, l) && es[k].name == es[l].name :: k == l
  }

  lemma {:induction false} SqueezedHas(es: seq<Entry>, e: Entry)
    ensures e in Squeezed(es) <==> e in es && e.name != []
  {
    if es != [] {
      SqueezedHas(es[..|es| - 1], e);
      assert es == es[..|es| - 1] + [es[|es| - 1]];
    }
  }

  lemma DistinctSnoc(es: seq<Entry>, e: Entry)
    requires Distinct(es) && forall k | Taken(es, k) :: es[k].name != e.name
    ensures Distinct(es + [e])
  {
    assert forall k | Taken(es + [e], k) && k < |es| :: Taken(es, k);
  }

  lemma DistinctPrefix(es: seq<Entry>)
    requires es != [] && Distinct(es)
    ensures Distinct(es[..|es| - 1])
    ensures es[|es| - 1].name != [] ==> forall e | e in es[..|es| - 1] :: e.name != es[|es| - 1].name
  {
    var rest := es[..|es| - 1];
    assert forall k | Taken(rest, k) :: Taken(es, k);
    if es[|es| - 1].name != [] {
      assert Taken(es, |es| - 1);
      forall e | e in rest
        ensures e.name != es[|es| - 1].name
      {
        var l :| 0 <= l < |rest| && rest[l] == e;
        assert e.name != [] ==> Taken(es, l);
      }
    }
  }

  lemma TotalSnoc(es: seq<Entry>, e: Entry)
    ensures Total(es + [e]) == Add(Total(es), Weight(e))
  {
    assert (es + [e])[..|es|] == es;
  }

  lemma SqueezedSnoc(es: seq<Entry>, e: Entry)
    ensures Squeezed(es + [e]) == if e.name != [] then Squeezed(es) + [e] else Squeezed(es)
  {
    assert (es + [e])[..|es|] == es;
  }

  lemma {:induction false} SqueezedTotal(es: seq<Entry>)
    ensures Total(Squeezed(es)) == Total(es)
  {
    if es == [] {
      assert Squeezed(es) == es;
    } else {
      hide Squeezed, Total, Add;
      var rest, e := es[..|es| - 1], es[|es| - 1];
      assert es == rest + [e];
      SqueezedTotal(rest);
      TotalSnoc(rest, e);
      SqueezedSnoc(rest, e);
      TotalSnoc(Squeezed(rest), e);
      AddLaws(Total(rest), ZERO, ZERO);
    }
  }

  lemma {:induction false} SqueezedDistinct(es: seq<Entry>)
    requires Distinct(es)
    ensures Distinct(Squeezed(es))
  {
    if es == [] {
      assert Squeezed(es) == es;
    } else {
      hide Squeezed, Distinct, Taken;
      var rest, e := es[..|es| - 1], es[|es| - 1];
      assert es == rest + [e];
      DistinctPrefix(es);
      SqueezedDistinct(rest);
      SqueezedSnoc(rest, e);
      if e.name != [] {
        forall k | Taken(Squeezed(rest), k)
          ensures Squeezed(rest)[k].name != e.name
        {
          TakenIn(Squeezed(rest), k);
          SqueezedHas(rest, Squeezed(rest)[k]);
        }
        DistinctSnoc(Squeezed(rest), e);
      }
    }
  }

  lemma TakenIn(es: seq<Entry>, k: int)
    requires Taken(es, k)
    ensures 0 <= k < |es| && es[k] in es && es[k].name != []
  {
  }

  lemma SqueezedLists(es: seq<Entry>, m: map<Name, Usage>)
    requires Distinct(es) && Holds(es, m)
    ensures Listing(Squeezed(es), m) && Total(Squeezed(es)) == Total(es)
  {
    var r := Squeezed(es);
    SqueezedDistinct(es);
    SqueezedTotal(es);
    forall k | 0 <= k < |r|
      ensures Taken(r, k) && r[k].name in m && m[r[k].name] == r[k].use
    {
      SqueezedHas(es, r[k]);
      var l :| 0 <= l < |es| && es[l] == r[k];
      assert Taken(es, l);
    }
    forall name | name in m
      ensures exists k :: Taken(r, k) && r[k].name == name
    {
      var l :| Taken(es, l) && es[l].name == name;
      SqueezedHas(es, es[l]);
      var k :| 0 <= k < |r| && r[k] == es[l];
      assert Taken(r, k);
    }
  }
}
