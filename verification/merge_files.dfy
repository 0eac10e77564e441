/** acctmerg: the current record of each file, the least of them, and the sum over all its equals. */
module MergeFiles {
  import opened MergeSpec
  import opened MergeSums

  /** What a file is taken for: it ends at a record without a name. */
  function Live(s: seq<Tacct>): (r: seq<Tacct>)
    ensures r <= s && (forall i | 0 <= i < |r| :: r[i].name != []) && (|r| < |s| ==> s[|r|].name == [])
  {
    if s == [] || s[0].name == [] then [] else [s[0]] + Live(s[1..])
  }

  function LiveFiles(fs: Files): (r: Files)
    ensures |r| == |fs| && forall q | 0 <= q < |fs| :: r[q] == Live(fs[q])
  {
    if fs == [] then [] else LiveFiles(fs[..|fs| - 1]) + [Live(fs[|fs| - 1])]
  }

  function Left(current: Tacct, rest: seq<Tacct>): seq<Tacct> {
    if current.name == [] then [] else [current] + Live(rest)
  }

  class Merge {
    // What has not been read of each file, and the current record of each.
    const fl: array<seq<Tacct>>
    const tb: array<Tacct>
    const uidsum: bool
    var tt: Sums
    var out: seq<Tacct>

    constructor (files: Files, uidsum: bool)
      requires files != []
      ensures fresh(fl) && fresh(tb) && fl.Length == tb.Length == |files| && this.uidsum == uidsum
      ensures fl[..] == files && tt == ZERO && out == []
    {
      fl := new seq<Tacct>[|files|](i requires 0 <= i < |files| => files[i]);
      tb := new Tacct[|files|](_ => Tacct(0, [], ZERO));
      this.uidsum := uidsum;
      tt, out := ZERO, [];
    }

    ghost predicate Holds(fs: Files)
      reads fl, tb
    {
      fl.Length == tb.Length == |fs| && forall q | 0 <= q < |fs| :: fs[q] == Left(tb[q], fl[q])
    }

    /** getnext. */
    method GetNext(i: nat) returns (got: bool)
      requires i < fl.Length == tb.Length
      modifies fl, tb
      ensures got == (old(fl[i]) != [])
      ensures Left(tb[i], fl[i]) == Live(old(fl[i]))
      ensures forall q | 0 <= q < fl.Length && q != i :: tb[q] == old(tb[q]) && fl[q] == old(fl[q])
    {
      tb[i] := tb[i].(name := []);
      got := fl[i] != [];
      if got {
        tb[i] := fl[i][0];
        fl[i] := fl[i][1..];
      }
    }

    method Advance(i: nat, ghost fs: Files)
      requires Holds(fs) && i < |fs| && tb[i].name != []
      modifies fl, tb
      ensures fs[i] != [] && Holds(fs[i := fs[i][1..]])
    {
      assert fs[i] == Left(tb[i], fl[i]);
      assert fs[i][1..] == Live(fl[i]);
      var got := GetNext(i);
    }

    lemma Current(fs: Files, q: nat)
      requires Holds(fs) && q < |fs|
      ensures fs[q] == [] <==> tb[q].name == []
      ensures fs[q] != [] ==> fs[q][0] == tb[q]
    {
      assert fs[q] == Left(tb[q], fl[q]);
    }

    /** getleast. */
    method GetLeast(ghost fs: Files) returns (least: int)
      requires Holds(fs)
      ensures least == Least(fs, |fs|, uidsum)
    {
      hide Holds, Less;
      HoldsLength(fs);
      least := -1;
      for q := 0 to tb.Length
        invariant least == Least(fs, q, uidsum)
      {
        Current(fs, q);
        if least >= 0 {
          Current(fs, least);
        }
        if tb[q].name != [] && (least < 0 || Less(tb[q], tb[least], uidsum)) {
          least := q;
        }
      }
    }

    lemma HoldsLength(fs: Files)
      requires Holds(fs)
      ensures fl.Length == tb.Length == |fs|
    {
    }

    /** Midway through a round: the files before tp are done, their sum and that of what has been taken
        off file tp is the first argument's; the others are as they were. */
    static ghost predicate Midway(was: Files, fs: Files, key: Tacct, u: bool, tp: nat, sums: Sums) {
      && |fs| == |was| && tp <= |was|
      && (forall q | 0 <= q < tp :: fs[q] == Skip(was[q], key, u))
      && (forall q | tp < q < |was| :: fs[q] == was[q])
      && if tp == |was| then sums == RoundSum(was, key, u)
         else
           && Skip(fs[tp], key, u) == Skip(was[tp], key, u)
           && Add(sums, RunSum(fs[tp], key, u)) == RoundSum(was[..tp + 1], key, u)
    }

    /** One record more of the file, or on to the next one. */
    static lemma MidwayTake(was: Files, fs: Files, key: Tacct, u: bool, tp: nat, sums: Sums)
      requires Midway(was, fs, key, u, tp, sums) && tp < |was| && fs[tp] != [] && Same(fs[tp][0], key, u)
      ensures Midway(was, fs[tp := fs[tp][1..]], key, u, tp, Add(sums, fs[tp][0].sums))
    {
      hide Add, Same;
      AddLaws(sums, fs[tp][0].sums, RunSum(fs[tp][1..], key, u));
    }

    static lemma MidwayOn(was: Files, fs: Files, key: Tacct, u: bool, tp: nat, sums: Sums)
      requires Midway(was, fs, key, u, tp, sums) && tp < |was| && !(fs[tp] != [] && Same(fs[tp][0], key, u))
      ensures Midway(was, fs, key, u, tp + 1, sums)
    {
      hide Add, Same;
      AddLaws(sums, ZERO, ZERO);
      if tp + 1 == |was| {
        assert was[..tp + 1] == was;
      } else {
        assert was[..tp + 2][..tp + 1] == was[..tp + 1];
      }
    }

    /** The files before the least have nothing to add. */
    static lemma {:induction false} NothingBefore(fs: Files, key: Tacct, u: bool)
      requires forall q | 0 <= q < |fs| && fs[q] != [] :: !Same(fs[q][0], key, u)
      ensures RoundSum(fs, key, u) == ZERO && forall q | 0 <= q < |fs| :: Skip(fs[q], key, u) == fs[q]
    {
      hide Add;
      if fs != [] {
        NothingBefore(fs[..|fs| - 1], key, u);
        AddLaws(ZERO, ZERO, ZERO);
      }
    }

    static lemma MidwayFirst(fs: Files, u: bool)
      requires Least(fs, |fs|, u) >= 0
      ensures var i := Least(fs, |fs|, u);
        Midway(fs, fs, fs[i][0], u, i, ZERO) && Same(fs[i][0], fs[i][0], u)
    {
      hide Add, Less;
      var i := Least(fs, |fs|, u);
      LeastIs(fs, |fs|, u);
      forall q | 0 <= q < i && fs[q] != []
        ensures !Same(fs[q][0], fs[i][0], u)
      {
        LessLaws(fs[i][0], fs[q][0], fs[q][0], u);
        SameFlip(fs[i][0], fs[q][0], u);
      }
      NothingBefore(fs[..i], fs[i][0], u);
      assert fs[..i + 1][..i] == fs[..i];
      AddLaws(RunSum(fs[i], fs[i][0], u), ZERO, ZERO);
    }

    static lemma MidwayLast(was: Files, fs: Files, key: Tacct, u: bool, sums: Sums)
      requires Midway(was, fs, key, u, |was|, sums)
      ensures fs == SkipAll(was, key, u) && sums == RoundSum(was, key, u)
    {
    }

    /** sumcurr: all the records with the key of record tp are summed up, put out, and passed. */
    method SumCurr(least: nat, ghost was: Files)
      requires Holds(was) && least == Least(was, |was|, uidsum)
      modifies fl, tb, this`tt, this`out
      ensures var key := was[least][0];
        && Holds(SkipAll(was, key, uidsum))
        && out == old(out) + [Tacct(key.uid, key.name, RoundSum(was, key, uidsum))]
        && tt == Add(old(tt), RoundSum(was, key, uidsum))
    {
      hide Holds, Midway, Same, Add, SkipAll, RoundSum, Least;
      ghost var key := was[least][0];
      ghost var fs := was;
      HoldsLength(was);
      Current(was, least);
      MidwayFirst(was, uidsum);
      var tc := tb[least];
      MidwayTake(was, fs, key, uidsum, least, ZERO);
      AddLaws(tc.sums, tt, ZERO);
      tt := Add(tt, tb[least].sums);
      Advance(least, fs);
      fs := fs[least := fs[least][1..]];
      var tp := least;
      while tp < tb.Length
        invariant |fs| == |was| && Holds(fs) && tp <= tb.Length == |fs|
        invariant Midway(was, fs, key, uidsum, tp, tc.sums)
        invariant out == old(out) && tt == Add(old(tt), tc.sums) && tc.uid == key.uid && tc.name == key.name
        decreases tb.Length - tp, if tp < |fs| then |fs[tp]| else 0
      {
        Current(fs, tp);
        if tb[tp].name != [] && Same(tb[tp], tc, uidsum) {
          SameKeyOf(tb[tp], tc, key, uidsum);
          MidwayTake(was, fs, key, uidsum, tp, tc.sums);
          AddLaws(old(tt), tc.sums, tb[tp].sums);
          tc := tc.(sums := Add(tc.sums, tb[tp].sums));
          tt := Add(tt, tb[tp].sums);
          Advance(tp, fs);
          fs := fs[tp := fs[tp][1..]];
        } else {
          SameKeyOf(tb[tp], tc, key, uidsum);
          MidwayOn(was, fs, key, uidsum, tp, tc.sums);
          tp := tp + 1;
        }
      }
      MidwayLast(was, fs, key, uidsum, tc.sums);
      out := out + [tc];
    }

    static lemma SameKeyOf(r: Tacct, tc: Tacct, key: Tacct, u: bool)
      requires tc.uid == key.uid && tc.name == key.name
      ensures Same(r, tc, u) == Same(r, key, u)
    {
    }

    /** The first record of every file is read. */
    method Begin(files: Files)
      requires fl.Length == tb.Length == |files| && fl[..] == files
      modifies fl, tb
      ensures Holds(LiveFiles(files))
    {
      for i := 0 to fl.Length
        invariant forall q | 0 <= q < i :: Live(files[q]) == Left(tb[q], fl[q])
        invariant forall q | i <= q < fl.Length :: fl[q] == files[q]
      {
        var got := GetNext(i);
      }
    }

    /** The main loop. */
    method Run(files: Files)
      requires fl.Length == tb.Length == |files| && fl[..] == files && tt == ZERO && out == []
      modifies fl, tb, this`tt, this`out
      ensures out == Merged(LiveFiles(files), uidsum)
      ensures tt == Grand(LiveFiles(files))
    {
      hide Holds, Add, Least, SkipAll, RoundSum, Merged, LiveFiles;
      Begin(files);
      ghost var fs := LiveFiles(files);
      var least := GetLeast(fs);
      AddLaws(Grand(fs), ZERO, ZERO);
      while least >= 0
        invariant Holds(fs) && least == Least(fs, |fs|, uidsum)
        invariant out + Merged(fs, uidsum) == Merged(LiveFiles(files), uidsum)
        invariant Add(tt, Grand(fs)) == Grand(LiveFiles(files))
        decreases Size(fs)
      {
        ghost var key := fs[least][0];
        MergedNext(fs, uidsum);
        RoundTotal(fs, key, uidsum);
        AddLaws(tt, RoundSum(fs, key, uidsum), Grand(SkipAll(fs, key, uidsum)));
        SumCurr(least, fs);
        fs := SkipAll(fs, key, uidsum);
        least := GetLeast(fs);
      }
      MergedEnd(fs, uidsum);
      MergedTotal(fs, uidsum);
      NoSum();
      AddLaws(tt, ZERO, ZERO);
    }

    static lemma NoSum()
      ensures SumAll([]) == ZERO
    {
    }
  }

  /** From sorted files: one record for each key, in order, with the sum of all that the files have for
      it; and the total of everything. */
  method Acctmerg(files: Files, uidsum: bool) returns (out: seq<Tacct>, tt: Sums)
    requires files != []
    ensures tt == SumAll(out) == Grand(LiveFiles(files))
    ensures forall q, r | 0 <= q < |files| && r in Live(files[q]) ::
      exists i :: 0 <= i < |out| && Same(out[i], r, uidsum)
    ensures AllSorted(LiveFiles(files), uidsum) ==>
      && (forall i, j | 0 <= i < j < |out| :: Less(out[i], out[j], uidsum))
      && forall r | r in out :: r.sums == SumsFor(LiveFiles(files), r, uidsum)
    ensures SumsOf(tt, AllOf(LiveFiles(files)))
    ensures AllSorted(LiveFiles(files), uidsum) ==>
      forall r | r in out :: SumsOf(r.sums, WithKey(AllOf(LiveFiles(files)), r, uidsum))
  {
    hide *;
    var merge := new Merge(files, uidsum);
    merge.Run(files);
    out, tt := merge.out, merge.tt;
    ghost var fs := LiveFiles(files);
    MergedTotal(fs, uidsum);
    GrandIs(fs);
    forall q, r | 0 <= q < |files| && r in Live(files[q])
      ensures exists i :: 0 <= i < |out| && Same(out[i], r, uidsum)
    {
      var i := MergedHas(fs, uidsum, q, r);
    }
    if AllSorted(fs, uidsum) {
      MergedKeys(fs, uidsum);
      MergedSums(fs, uidsum);
      forall r | r in out
        ensures SumsOf(r.sums, WithKey(AllOf(fs), r, uidsum))
      {
        SumsForIs(fs, r, uidsum);
      }
    }
  }
}
