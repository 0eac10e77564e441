/** acctmerg: what the merge of accounting records, each with a key and counters, amounts to. */
module MergeSpec {
  import opened Strings

  type Ushort = n: int | 0 <= n < 65536

  /** The counters; the last three are short and wrap around. */
  datatype Sums = Sums(cpu: (real, real), kcore: (real, real), con: (real, real), du: real, pc: int,
                       sc: Ushort, dc: Ushort, fee: Ushort)

  const ZERO := Sums((0.0, 0.0), (0.0, 0.0), (0.0, 0.0), 0.0, 0, 0, 0, 0)

  function Short(a: Ushort, b: Ushort): Ushort {
    (a + b) % 65536
  }

  function Both(a: (real, real), b: (real, real)): (real, real) {
    (a.0 + b.0, a.1 + b.1)
  }

  /** tacctadd. */
  function Add(a: Sums, b: Sums): Sums {
    Sums(Both(a.cpu, b.cpu), Both(a.kcore, b.kcore), Both(a.con, b.con), a.du + b.du, a.pc + b.pc,
         Short(a.sc, b.sc), Short(a.dc, b.dc), Short(a.fee, b.fee))
  }

  lemma ShortLaws(a: Ushort, b: Ushort, c: Ushort)
    ensures Short(a, 0) == a == Short(0, a) && Short(a, b) == Short(b, a)
    ensures Short(Short(a, b), c) == Short(a, Short(b, c))
  {
  }

  lemma AddLaws(a: Sums, b: Sums, c: Sums)
    ensures Add(a, ZERO) == a && Add(ZERO, a) == a && Add(a, b) == Add(b, a)
    ensures Add(Add(a, b), c) == Add(a, Add(b, c))
  {
    ShortLaws(a.sc, b.sc, c.sc);
    ShortLaws(a.dc, b.dc, c.dc);
    ShortLaws(a.fee, b.fee, c.fee);
    hide Short;
  }

  /** A record; one without a name marks the end of its file. */
  datatype Tacct = Tacct(uid: nat, name: Text, sums: Sums)

  /** Under -u only the user number counts. */
  predicate Same(a: Tacct, b: Tacct, u: bool) {
    a.uid == b.uid && (u || a.name == b.name)
  }

  predicate Less(a: Tacct, b: Tacct, u: bool) {
    a.uid < b.uid || (a.uid == b.uid && !u && Cmp(a.name, b.name) < 0)
  }

  lemma LessLaws(a: Tacct, b: Tacct, c: Tacct, u: bool)
    ensures Less(a, b, u) || Less(b, a, u) || Same(a, b, u)
    ensures Less(a, b, u) ==> !Less(b, a, u) && !Same(a, b, u)
    ensures Less(a, b, u) && Less(b, c, u) ==> Less(a, c, u)
    ensures Same(a, b, u) ==> Less(a, c, u) == Less(b, c, u) && Less(c, a, u) == Less(c, b, u)
  {
    CmpOpposite(a.name, b.name);
    if Cmp(a.name, b.name) < 0 && Cmp(b.name, c.name) < 0 {
      CmpTransitive(a.name, b.name, c.name);
    }
  }

  /** What is left of the files, up to a record without a name. */
  type Files = seq<seq<Tacct>>

  function Size(fs: Files): nat {
    if fs == [] then 0 else Size(fs[..|fs| - 1]) + |fs[|fs| - 1]|
  }

  /** getleast: the first file among the first n whose next record is least; -1 if all are empty. */
  function Least(fs: Files, n: nat, u: bool): (i: int)
    requires n <= |fs|
    ensures -1 <= i < n && (i >= 0 ==> fs[i] != [])
  {
    if n == 0 then -1
    else
      var i := Least(fs, n - 1, u);
      if fs[n - 1] != [] && (i < 0 || Less(fs[n - 1][0], fs[i][0], u)) then n - 1 else i
  }

  lemma {:induction false} LeastIs(fs: Files, n: nat, u: bool)
    requires n <= |fs|
    ensures Least(fs, n, u) < 0 <==> forall q | 0 <= q < n :: fs[q] == []
    ensures forall q | 0 <= q < n && fs[q] != [] :: !Less(fs[q][0], fs[Least(fs, n, u)][0], u)
    ensures forall q | 0 <= q < Least(fs, n, u) && fs[q] != [] :: Less(fs[Least(fs, n, u)][0], fs[q][0], u)
  {
    if n > 0 {
      LeastIs(fs, n - 1, u);
      var i, j := Least(fs, n - 1, u), Least(fs, n, u);
      forall q | 0 <= q < n && fs[q] != []
        ensures !Less(fs[q][0], fs[j][0], u) && (q < j ==> Less(fs[j][0], fs[q][0], u))
      {
        LessLaws(fs[q][0], fs[q][0], fs[q][0], u);
        if i >= 0 && fs[n - 1] != [] {
          LessLaws(fs[n - 1][0], fs[i][0], fs[q][0], u);
          LessLaws(fs[q][0], fs[n - 1][0], fs[i][0], u);
        }
      }
    }
  }

  /** The records at the front with the key, taken off. */
  function Skip(s: seq<Tacct>, key: Tacct, u: bool): (r: seq<Tacct>)
    ensures |r| <= |s|
  {
    if s != [] && Same(s[0], key, u) then Skip(s[1..], key, u) else s
  }

  function RunSum(s: seq<Tacct>, key: Tacct, u: bool): Sums {
    if s != [] && Same(s[0], key, u) then Add(s[0].sums, RunSum(s[1..], key, u)) else ZERO
  }

  function SkipAll(fs: Files, key: Tacct, u: bool): (r: Files)
    ensures |r| == |fs| && forall q | 0 <= q < |fs| :: r[q] == Skip(fs[q], key, u)
  {
    if fs == [] then [] else SkipAll(fs[..|fs| - 1], key, u) + [Skip(fs[|fs| - 1], key, u)]
  }

  function RoundSum(fs: Files, key: Tacct, u: bool): Sums {
    if fs == [] then ZERO else Add(RoundSum(fs[..|fs| - 1], key, u), RunSum(fs[|fs| - 1], key, u))
  }

  lemma {:induction false} SkipSmaller(fs: Files, key: Tacct, u: bool, i: nat)
    requires i < |fs| && fs[i] != [] && Same(fs[i][0], key, u)
    ensures Size(SkipAll(fs, key, u)) < Size(fs)
  {
    var n := |fs| - 1;
    assert SkipAll(fs, key, u)[..n] == SkipAll(fs[..n], key, u);
    if i < n {
      SkipSmaller(fs[..n], key, u, i);
    } else {
      SkipNoLarger(fs[..n], key, u);
    }
  }

  lemma {:induction false} SkipNoLarger(fs: Files, key: Tacct, u: bool)
    ensures Size(SkipAll(fs, key, u)) <= Size(fs)
  {
    if fs != [] {
      var n := |fs| - 1;
      assert SkipAll(fs, key, u)[..n] == SkipAll(fs[..n], key, u);
      SkipNoLarger(fs[..n], key, u);
    }
  }

  /** The output, record by record: the least key, with what all the files have for it next. */
  function Merged(fs: Files, u: bool): seq<Tacct>
    decreases Size(fs)
  {
    var i := Least(fs, |fs|, u);
    if i < 0 then []
    else
      var key := fs[i][0];
      SkipSmaller(fs, key, u, i);
      [Tacct(key.uid, key.name, RoundSum(fs, key, u))] + Merged(SkipAll(fs, key, u), u)
  }

  // What the merge promises.

  predicate Sorted(s: seq<Tacct>, u: bool) {
    forall i, j | 0 <= i < j < |s| :: !Less(s[j], s[i], u)
  }

  predicate AllSorted(fs: Files, u: bool) {
    forall q | 0 <= q < |fs| :: Sorted(fs[q], u)
  }

  /** The sum of all the records with the key, wherever they are. */
  function SumFor(s: seq<Tacct>, key: Tacct, u: bool): Sums {
    if s == [] then ZERO
    else if Same(s[0], key, u) then Add(s[0].sums, SumFor(s[1..], key, u))
    else SumFor(s[1..], key, u)
  }

  function SumsFor(fs: Files, key: Tacct, u: bool): Sums {
    if fs == [] then ZERO else Add(SumsFor(fs[..|fs| - 1], key, u), SumFor(fs[|fs| - 1], key, u))
  }

  function SumAll(s: seq<Tacct>): Sums {
    if s == [] then ZERO else Add(s[0].sums, SumAll(s[1..]))
  }

  function Grand(fs: Files): Sums {
    if fs == [] then ZERO else Add(Grand(fs[..|fs| - 1]), SumAll(fs[|fs| - 1]))
  }

  /** Nothing in the files has a lesser key. */
  predicate From(fs: Files, key: Tacct, u: bool) {
    forall q, i | 0 <= q < |fs| && 0 <= i < |fs[q]| :: !Less(fs[q][i], key, u)
  }

  predicate Beyond(fs: Files, key: Tacct, u: bool) {
    forall q, i | 0 <= q < |fs| && 0 <= i < |fs[q]| :: Less(key, fs[q][i], u)
  }

  // One file.

  lemma {:induction false} NoneSame(s: seq<Tacct>, key: Tacct, u: bool)
    requires forall i | 0 <= i < |s| :: Less(key, s[i], u)
    ensures SumFor(s, key, u) == ZERO
  {
    if s != [] {
      LessLaws(key, s[0], s[0], u);
      NoneSame(s[1..], key, u);
    }
  }

  /** In a sorted file the records with the least key are at the front. */
  lemma {:induction false} FrontIsAll(s: seq<Tacct>, key: Tacct, u: bool)
    requires Sorted(s, u) && forall i | 0 <= i < |s| :: !Less(s[i], key, u)
    ensures RunSum(s, key, u) == SumFor(s, key, u) && Sorted(Skip(s, key, u), u)
    ensures forall i | 0 <= i < |Skip(s, key, u)| :: Less(key, Skip(s, key, u)[i], u)
  {
    if s != [] {
      if Same(s[0], key, u) {
        FrontIsAll(s[1..], key, u);
      } else {
        forall i | 0 <= i < |s|
          ensures Less(key, s[i], u)
        {
          LessLaws(key, s[0], s[i], u);
          LessLaws(s[i], key, s[0], u);
          LessLaws(s[i], s[0], key, u);
        }
        NoneSame(s, key, u);
      }
    }
  }

  lemma {:induction false} SkipKeeps(s: seq<Tacct>, key: Tacct, u: bool, r: Tacct)
    ensures r in Skip(s, key, u) ==> r in s
    ensures r in s && !Same(r, key, u) ==> r in Skip(s, key, u)
    ensures !Same(r, key, u) ==> SumFor(Skip(s, key, u), r, u) == SumFor(s, r, u)
  {
    if s != [] && Same(s[0], key, u) {
      SkipKeeps(s[1..], key, u, r);
      assert s == [s[0]] + s[1..];
    }
  }

  lemma {:induction false} SkipTotal(s: seq<Tacct>, key: Tacct, u: bool)
    ensures SumAll(s) == Add(RunSum(s, key, u), SumAll(Skip(s, key, u)))
  {
    hide Add;
    if s != [] && Same(s[0], key, u) {
      SkipTotal(s[1..], key, u);
      AddLaws(s[0].sums, RunSum(s[1..], key, u), SumAll(Skip(s[1..], key, u)));
    } else {
      AddLaws(SumAll(s), ZERO, ZERO);
    }
  }

  // All the files.

  lemma {:induction false} RoundIsAll(fs: Files, key: Tacct, u: bool)
    requires AllSorted(fs, u) && From(fs, key, u)
    ensures RoundSum(fs, key, u) == SumsFor(fs, key, u)
    ensures AllSorted(SkipAll(fs, key, u), u) && Beyond(SkipAll(fs, key, u), key, u)
  {
    forall q | 0 <= q < |fs|
      ensures RunSum(fs[q], key, u) == SumFor(fs[q], key, u) && Sorted(Skip(fs[q], key, u), u)
      ensures forall i | 0 <= i < |Skip(fs[q], key, u)| :: Less(key, Skip(fs[q], key, u)[i], u)
    {
      FrontIsAll(fs[q], key, u);
    }
    RoundSums(fs, key, u);
  }

  lemma {:induction false} RoundSums(fs: Files, key: Tacct, u: bool)
    requires forall q | 0 <= q < |fs| :: RunSum(fs[q], key, u) == SumFor(fs[q], key, u)
    ensures RoundSum(fs, key, u) == SumsFor(fs, key, u)
  {
    if fs != [] {
      RoundSums(fs[..|fs| - 1], key, u);
    }
  }

  lemma {:induction false} OthersKept(fs: Files, key: Tacct, u: bool, r: Tacct)
    requires !Same(r, key, u)
    ensures SumsFor(SkipAll(fs, key, u), r, u) == SumsFor(fs, r, u)
  {
    if fs != [] {
      var n := |fs| - 1;
      assert SkipAll(fs, key, u)[..n] == SkipAll(fs[..n], key, u);
      OthersKept(fs[..n], key, u, r);
      SkipKeeps(fs[n], key, u, r);
    }
  }

  lemma {:induction false} RoundTotal(fs: Files, key: Tacct, u: bool)
    ensures Grand(fs) == Add(RoundSum(fs, key, u), Grand(SkipAll(fs, key, u)))
  {
    hide Add;
    if fs != [] {
      var n := |fs| - 1;
      assert SkipAll(fs, key, u)[..n] == SkipAll(fs[..n], key, u);
      RoundTotal(fs[..n], key, u);
      SkipTotal(fs[n], key, u);
      Exchange(RoundSum(fs[..n], key, u), Grand(SkipAll(fs[..n], key, u)), RunSum(fs[n], key, u),
        SumAll(Skip(fs[n], key, u)));
    } else {
      AddLaws(ZERO, ZERO, ZERO);
    }
  }

  lemma Exchange(a: Sums, b: Sums, c: Sums, d: Sums)
    ensures Add(Add(a, b), Add(c, d)) == Add(Add(a, c), Add(b, d))
  {
    hide Add;
    AddLaws(a, b, Add(c, d));
    AddLaws(b, c, d);
    AddLaws(c, b, d);
    AddLaws(a, c, Add(b, d));
  }

  // The output.

  lemma MergedNext(fs: Files, u: bool)
    requires Least(fs, |fs|, u) >= 0
    ensures var key := fs[Least(fs, |fs|, u)][0];
      && Size(SkipAll(fs, key, u)) < Size(fs)
      && Merged(fs, u) == [Tacct(key.uid, key.name, RoundSum(fs, key, u))] + Merged(SkipAll(fs, key, u), u)
  {
    SkipSmaller(fs, fs[Least(fs, |fs|, u)][0], u, Least(fs, |fs|, u));
  }

  lemma MergedEnd(fs: Files, u: bool)
    requires Least(fs, |fs|, u) < 0
    ensures Merged(fs, u) == []
  {
  }

  lemma LeastIsFrom(fs: Files, u: bool)
    requires AllSorted(fs, u) && Least(fs, |fs|, u) >= 0
    ensures From(fs, fs[Least(fs, |fs|, u)][0], u)
  {
    var key := fs[Least(fs, |fs|, u)][0];
    LeastIs(fs, |fs|, u);
    forall q, i | 0 <= q < |fs| && 0 <= i < |fs[q]|
      ensures !Less(fs[q][i], key, u)
    {
      LessLaws(fs[q][i], key, fs[q][0], u);
      LessLaws(fs[q][0], fs[q][i], key, u);
      LessLaws(key, fs[q][0], fs[q][i], u);
      LessLaws(fs[q][i], fs[q][i], fs[q][i], u);
    }
  }

  /** No key comes out below a bound on the input. */
  lemma {:induction false} MergedBeyond(fs: Files, u: bool, bound: Tacct)
    requires Beyond(fs, bound, u)
    ensures forall i | 0 <= i < |Merged(fs, u)| :: Less(bound, Merged(fs, u)[i], u)
    decreases Size(fs)
  {
    hide *;
    var i := Least(fs, |fs|, u);
    if i < 0 {
      MergedEnd(fs, u);
    } else {
      var key := fs[i][0];
      MergedNext(fs, u);
      BeyondAt(fs, bound, u, i);
      SameKey(key, RoundSum(fs, key, u), u);
      SkipBeyond(fs, key, u, bound);
      MergedBeyond(SkipAll(fs, key, u), u, bound);
    }
  }

  lemma BeyondAt(fs: Files, bound: Tacct, u: bool, i: nat)
    requires Beyond(fs, bound, u) && i < |fs| && fs[i] != []
    ensures Less(bound, fs[i][0], u)
  {
  }

  /** Keys come in increasing order. */
  lemma {:induction false} MergedKeys(fs: Files, u: bool)
    requires AllSorted(fs, u)
    ensures forall i, j | 0 <= i < j < |Merged(fs, u)| :: Less(Merged(fs, u)[i], Merged(fs, u)[j], u)
    decreases Size(fs)
  {
    hide *;
    var i := Least(fs, |fs|, u);
    if i < 0 {
      MergedEnd(fs, u);
    } else {
      var key := fs[i][0];
      MergedNext(fs, u);
      LeastIsFrom(fs, u);
      RoundIsAll(fs, key, u);
      SameKey(key, RoundSum(fs, key, u), u);
      MergedBeyond(SkipAll(fs, key, u), u, key);
      MergedKeys(SkipAll(fs, key, u), u);
    }
  }

  lemma SkipBeyond(fs: Files, key: Tacct, u: bool, bound: Tacct)
    requires Beyond(fs, bound, u)
    ensures Beyond(SkipAll(fs, key, u), bound, u)
  {
    forall q, i | 0 <= q < |fs| && 0 <= i < |Skip(fs[q], key, u)|
      ensures Less(bound, Skip(fs[q], key, u)[i], u)
    {
      SkipKeeps(fs[q], key, u, Skip(fs[q], key, u)[i]);
    }
  }

  /** Counters are no part of the key. */
  lemma SameKey(key: Tacct, sums: Sums, u: bool)
    ensures forall r :: Less(Tacct(key.uid, key.name, sums), r, u) == Less(key, r, u)
    ensures forall r :: Less(r, Tacct(key.uid, key.name, sums), u) == Less(r, key, u)
    ensures forall r :: Same(r, Tacct(key.uid, key.name, sums), u) == Same(r, key, u)
  {
  }

  lemma {:induction false} SumForKey(s: seq<Tacct>, key: Tacct, sums: Sums, u: bool)
    ensures SumFor(s, Tacct(key.uid, key.name, sums), u) == SumFor(s, key, u)
  {
    if s != [] {
      SumForKey(s[1..], key, sums, u);
    }
  }

  lemma {:induction false} SumsForKey(fs: Files, key: Tacct, sums: Sums, u: bool)
    ensures SumsFor(fs, Tacct(key.uid, key.name, sums), u) == SumsFor(fs, key, u)
  {
    if fs != [] {
      SumsForKey(fs[..|fs| - 1], key, sums, u);
      SumForKey(fs[|fs| - 1], key, sums, u);
    }
  }

  /** Each record has the sum of all the records with its key. */
  lemma {:induction false} MergedSums(fs: Files, u: bool)
    requires AllSorted(fs, u)
    ensures forall r | r in Merged(fs, u) :: r.sums == SumsFor(fs, r, u)
    decreases Size(fs)
  {
    hide Less, Same, AllSorted, From;
    var i := Least(fs, |fs|, u);
    if i < 0 {
      MergedEnd(fs, u);
    } else {
      var key := fs[i][0];
      var rest := SkipAll(fs, key, u);
      MergedNext(fs, u);
      LeastIsFrom(fs, u);
      RoundIsAll(fs, key, u);
      MergedSums(rest, u);
      MergedBeyond(rest, u, key);
      SumsForKey(fs, key, RoundSum(fs, key, u), u);
      forall r | r in Merged(rest, u)
        ensures r.sums == SumsFor(fs, r, u)
      {
        LessLaws(key, r, r, u);
        LessLaws(r, key, r, u);
        SameFlip(r, key, u);
        OthersKept(fs, key, u, r);
      }
    }
  }

  lemma SameFlip(a: Tacct, b: Tacct, u: bool)
    ensures Same(a, b, u) == Same(b, a, u)
  {
  }

  /** Every key of the input is there, sorted or not. */
  lemma {:induction false} MergedHas(fs: Files, u: bool, q: nat, r: Tacct) returns (i: nat)
    requires q < |fs| && r in fs[q]
    ensures i < |Merged(fs, u)| && Same(Merged(fs, u)[i], r, u)
    decreases Size(fs)
  {
    hide *;
    LeastIs(fs, |fs|, u);
    MergedNext(fs, u);
    var key := fs[Least(fs, |fs|, u)][0];
    if Same(r, key, u) {
      SameKey(key, RoundSum(fs, key, u), u);
      SameFlip(r, Merged(fs, u)[0], u);
      i := 0;
    } else {
      SkipKeeps(fs[q], key, u, r);
      i := MergedHas(SkipAll(fs, key, u), u, q, r);
      i := i + 1;
    }
  }

  /** Nothing is lost and nothing counted twice, sorted or not. */
  lemma {:induction false} MergedTotal(fs: Files, u: bool)
    ensures SumAll(Merged(fs, u)) == Grand(fs)
    decreases Size(fs)
  {
    hide Add;
    var i := Least(fs, |fs|, u);
    if i < 0 {
      LeastIs(fs, |fs|, u);
      MergedEnd(fs, u);
      GrandNone(fs);
    } else {
      MergedNext(fs, u);
      RoundTotal(fs, fs[i][0], u);
      MergedTotal(SkipAll(fs, fs[i][0], u), u);
    }
  }

  lemma {:induction false} GrandNone(fs: Files)
    requires forall q | 0 <= q < |fs| :: fs[q] == []
    ensures Grand(fs) == ZERO
  {
    hide Add;
    if fs != [] {
      GrandNone(fs[..|fs| - 1]);
      AddLaws(ZERO, ZERO, ZERO);
    }
  }
}
