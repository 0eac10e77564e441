/** join's merge loop: file 2 is gone back over for every line of file 1 with the same key. */
module JoinMerge {
  import opened JoinSpec
  import opened Strings

  datatype Option<T> = None | Some(value: T)

  /** What output prints from: either line, or both. */
  datatype Row = Row(left: Option<Line>, right: Option<Line>)

  function Show(t: Task, e: Event): Row {
    match e
    case Pair(i, k) => Row(if i < t.N() then Some(t.l1[i]) else None, if k < t.M() then Some(t.l2[k]) else None)
    case Left(i) => Row(if i < t.N() then Some(t.l1[i]) else None, None)
    case Right(k) => Row(None, if k < t.M() then Some(t.l2[k]) else None)
  }

  function Rows(t: Task, es: seq<Event>): seq<Row> {
    seq(|es|, i requires 0 <= i < |es| => Show(t, es[i]))
  }

  /** Line i is past the first k lines of file 2. */
  ghost predicate Above(t: Task, i: nat, k: nat)
    requires t.Valid() && i < t.N() && k <= t.M()
  {
    forall x | 0 <= x < k :: t.Comp(i, x) > 0
  }

  /** Line i is before all but the first k lines of file 2. */
  ghost predicate Below(t: Task, i: nat, k: nat)
    requires t.Valid() && i < t.N() && k <= t.M()
  {
    forall x | k <= x < t.M() :: t.Comp(i, x) < 0
  }

  /** Line i of file 1 and line k of file 2 are next to be dealt with: what is before has been, and
      nothing from k on has a partner before i. */
  ghost predicate Main(t: Task, i: nat, k: nat, es: seq<Event>)
    requires t.Valid()
  {
    && i <= t.N() && k <= t.M()
    && (i < t.N() ==> Above(t, i, k)) && (i > 0 ==> Below(t, i - 1, k))
    && es == t.Upto(i) + t.Rights(i, k)
  }

  /** Lines b to e of file 2 are those with the key of line i, which nothing before i has. */
  ghost predicate Group(t: Task, i: nat, b: nat, e: nat)
    requires t.Valid()
  {
    i < t.N() && b < e <= t.M() && Above(t, i, b) && Below(t, i, e) && forall k | b <= k < e :: t.Comp(i, k) == 0
  }

  lemma {:induction false} RightsSame(t: Task, i: nat, k: nat, k': nat)
    requires t.Valid() && i <= t.N() && k <= k' <= t.M() && forall x | k <= x < k' :: !t.Between(i, x)
    ensures t.Rights(i, k') == t.Rights(i, k)
  {
    if k < k' {
      RightsSame(t, i, k, k' - 1);
    }
  }

  lemma {:induction false} PairsSame(t: Task, i: nat, k: nat, k': nat)
    requires t.Valid() && i < t.N() && k <= k' <= t.M() && forall x | k <= x < k' :: t.Comp(i, x) != 0
    ensures t.Pairs(i, k') == t.Pairs(i, k)
  {
    if k < k' {
      PairsSame(t, i, k, k' - 1);
    }
  }

  lemma StepRight(t: Task, i: nat, k: nat, es: seq<Event>)
    requires t.Valid() && t.Sorted() && Main(t, i, k, es) && k < t.M() && (i < t.N() ==> t.Comp(i, k) > 0)
    ensures Main(t, i, k + 1, es + if t.a2 then [Right(k)] else [])
  {
    hide Task.Comp, Task.Upto;
    assert t.Between(i, k);
  }

  lemma StepLeft(t: Task, i: nat, k: nat, es: seq<Event>)
    requires t.Valid() && t.Sorted() && Main(t, i, k, es) && i < t.N() && (k < t.M() ==> t.Comp(i, k) < 0)
    ensures Main(t, i + 1, k, es + if t.a1 then [Left(i)] else [])
  {
    hide Task.Comp, Task.Sorted, Task.Pairs, Task.Rights;
    forall x | k <= x < t.M() ensures t.Comp(i, x) < 0 {
      t.Later2(i, k, x);
    }
    if i + 1 < t.N() {
      AboveNext(t, i, i + 1, k);
    }
    RightsSame(t, i, k, t.M());
    RightsSame(t, i + 1, 0, k);
    PairsSame(t, i, 0, t.M());
    NothingYet(t, i);
    NoRights(t, i + 1);
  }

  lemma AboveNext(t: Task, i: nat, i': nat, k: nat)
    requires t.Valid() && t.Sorted() && i <= i' < t.N() && k <= t.M() && Above(t, i, k)
    ensures Above(t, i', k)
  {
    hide Task.Comp, Task.Sorted;
    forall x | 0 <= x < k ensures t.Comp(i', x) > 0 {
      t.Later1(i, i', x);
    }
  }

  lemma NothingYet(t: Task, i: nat)
    requires t.Valid() && i < t.N()
    ensures t.Pairs(i, 0) == []
  {
  }

  lemma NoRights(t: Task, i: nat)
    requires t.Valid() && i <= t.N()
    ensures t.Rights(i, 0) == []
  {
  }

  /** The first line of a group with all its partners, up to c. */
  ghost predicate First(t: Task, i: nat, b: nat, c: nat, es: seq<Event>)
    requires t.Valid()
  {
    && i < t.N() && b <= c <= t.M() && Above(t, i, b)
    && (forall k | b <= k < c :: t.Comp(i, k) == 0)
    && es == t.Upto(i) + t.Rights(i, b) + t.Pairs(i, c)
  }

  lemma FirstStart(t: Task, i: nat, b: nat, es: seq<Event>)
    requires t.Valid() && Main(t, i, b, es) && i < t.N()
    ensures First(t, i, b, b, es)
  {
    hide Task.Comp, Task.Upto, Task.Rights;
    PairsSame(t, i, 0, b);
    assert es == es + [];
  }

  lemma FirstStep(t: Task, i: nat, b: nat, c: nat, es: seq<Event>)
    requires t.Valid() && First(t, i, b, c, es) && c < t.M() && t.Comp(i, c) == 0
    ensures First(t, i, b, c + 1, es + [Pair(i, c)])
  {
    hide Task.Comp, Task.Upto, Task.Rights;
  }

  /** All partners of the first line have been met. */
  lemma FirstEnd(t: Task, i: nat, b: nat, e: nat, es: seq<Event>)
    requires t.Valid() && t.Sorted() && First(t, i, b, e, es) && b < e && (e < t.M() ==> t.Comp(i, e) != 0)
    ensures Group(t, i, b, e) && es == t.Upto(i + 1)
  {
    hide Task.Comp, Task.Sorted, Task.Rights, Task.Pairs;
    forall k | e <= k < t.M() ensures t.Comp(i, k) < 0 {
      t.Later2(i, b, e);
      t.Later2(i, e, k);
    }
    RightsSame(t, i, b, t.M());
    PairsSame(t, i, e, t.M());
    LastPair(t, i, e);
  }

  lemma LastPair(t: Task, i: nat, e: nat)
    requires t.Valid() && i < t.N() && 0 < e <= t.M() && t.Comp(i, e - 1) == 0
    ensures t.Pairs(i, e) != []
  {
  }

  /** A later line i2 of file 1, at line c of the group: it has the group's key, or is past it. */
  ghost predicate Again(t: Task, i: nat, b: nat, e: nat, i2: nat, c: nat, es: seq<Event>)
    requires t.Valid()
  {
    && Group(t, i, b, e) && i < i2 <= t.N() && b <= c <= e && t.Comp(i2 - 1, b) == 0
    && es == t.Upto(i2) + (if i2 < t.N() then t.Pairs(i2, c) else [])
    && if i2 < t.N() && t.Comp(i2, b) == 0 then true else c == b && (i2 < t.N() ==> t.Comp(i2, b) > 0)
  }

  /** How a line with the group's key compares with all others. */
  lemma InGroup(t: Task, i: nat, b: nat, e: nat, i2: nat)
    requires t.Valid() && Group(t, i, b, e) && i2 < t.N() && t.Comp(i2, b) == 0
    ensures Group(t, i2, b, e)
  {
    hide Task.Comp;
    forall k | 0 <= k < t.M() ensures t.Comp(i2, k) == t.Comp(i, k) {
      t.Same(i, i2, b, k);
    }
  }

  /** How a line past the group compares. */
  lemma PastGroup(t: Task, i: nat, b: nat, e: nat, i2: nat)
    requires t.Valid() && t.Sorted() && Group(t, i, b, e) && i2 < t.N() && t.Comp(i2, b) > 0
    ensures Above(t, i2, e)
  {
    forall k | 0 <= k < e ensures t.Comp(i2, k) > 0 {
      if k < b {
        t.Later2(i2, k, b);
      } else {
        assert t.Comp(i, k) == 0 && t.Comp(i, b) == 0;
        CmpOpposite(t.Key1(i), t.Key2(k));
        CmpOpposite(t.Key1(i), t.Key2(b));
      }
    }
  }

  /** The next line of file 1, back at the beginning of the group. */
  lemma AgainStart(t: Task, i: nat, b: nat, e: nat, i2: nat, es: seq<Event>)
    requires t.Valid() && t.Sorted() && Group(t, i, b, e)
    requires i < i2 <= t.N() && t.Comp(i2 - 1, b) == 0 && es == t.Upto(i2)
    ensures Again(t, i, b, e, i2, b, es)
  {
    hide Task.Comp, Task.Upto, Task.Pairs, Task.Sorted;
    if i2 < t.N() {
      t.Later1(i, i2, b);
      if t.Comp(i2, b) == 0 {
        InGroup(t, i, b, e, i2);
      } else {
        PastGroup(t, i, b, e, i2);
      }
      PairsSame(t, i2, 0, b);
      NothingYet(t, i2);
    }
  }

  lemma AgainStep(t: Task, i: nat, b: nat, e: nat, i2: nat, c: nat, es: seq<Event>)
    requires t.Valid() && Again(t, i, b, e, i2, c, es) && i2 < t.N() && c < t.M() && t.Comp(i2, c) == 0
    ensures Again(t, i, b, e, i2, c + 1, es + [Pair(i2, c)])
  {
    hide Task.Comp, Task.Upto;
    InGroup(t, i, b, e, i2);
  }

  /** The line has met all its partners. */
  lemma AgainNext(t: Task, i: nat, b: nat, e: nat, i2: nat, c: nat, es: seq<Event>)
    requires t.Valid() && t.Sorted() && Again(t, i, b, e, i2, c, es)
    requires (i2 < t.N() && c < t.M() && t.Comp(i2, c) < 0) || c == t.M()
    ensures i2 < t.N() && Again(t, i, b, e, i2 + 1, b, es)
  {
    hide Task.Comp, Task.Pairs, Task.Sorted, Task.Rights;
    InGroup(t, i, b, e, i2);
    InGroup(t, i, b, e, i2 - 1);
    assert c == e;
    RightsSame(t, i2, 0, t.M());
    NoRights(t, i2);
    PairsSame(t, i2, e, t.M());
    LastPair(t, i2, e);
    AgainStart(t, i, b, e, i2 + 1, es);
  }

  /** The line is past the group, or there is none. */
  lemma AgainEnd(t: Task, i: nat, b: nat, e: nat, i2: nat, c: nat, es: seq<Event>)
    requires t.Valid() && t.Sorted() && Again(t, i, b, e, i2, c, es) && c < t.M() && (i2 < t.N() ==> t.Comp(i2, c) > 0)
    ensures Main(t, i2, e, es)
  {
    hide Task.Comp, Task.Pairs, Task.Sorted, Task.Rights, Task.Upto;
    InGroup(t, i, b, e, i2 - 1);
    if i2 < t.N() {
      if t.Comp(i2, b) == 0 {
        InGroup(t, i, b, e, i2);
      } else {
        PastGroup(t, i, b, e, i2);
        PairsSame(t, i2, 0, b);
        NothingYet(t, i2);
      }
    }
    RightsSame(t, i2, 0, e);
    NoRights(t, i2);
  }

  /** When either file is at its end and no lines without partners are wanted, all is printed. */
  lemma {:induction false} NothingLeft(t: Task, i: nat, k: nat, es: seq<Event>)
    requires t.Valid() && t.Sorted() && Main(t, i, k, es) && !t.a1 && !t.a2 && (i == t.N() || k == t.M())
    ensures es == t.Joined()
    decreases t.N() - i
  {
    hide Task.Comp, Task.Sorted;
    if i < t.N() {
      StepLeft(t, i, k, es);
      NothingLeft(t, i + 1, k, es);
    } else {
      NotWanted(t, i, k);
      NotWanted(t, i, t.M());
    }
  }

  lemma {:induction false} NotWanted(t: Task, i: nat, k: nat)
    requires t.Valid() && i <= t.N() && k <= t.M() && !t.a2
    ensures t.Rights(i, k) == []
  {
    if k > 0 {
      NotWanted(t, i, k - 1);
    }
  }

  class Joiner {
    const t: Task
    var p1: nat     // where the files stand, in lines
    var p2: nat
    var n1: nat     // fields of the current lines; 0 at the end
    var n2: nat
    var buf1: Line
    var buf2: Line
    var out: seq<Row>

    constructor (t: Task)
      ensures this.t == t && p1 == p2 == 0 && out == []
    {
      this.t := t;
      p1, p2, n1, n2, buf1, buf2, out := 0, 0, 0, 0, [], [], [];
    }

    /** Line i of file 1 is the current one; after the last there is none. */
    ghost predicate At1(i: nat)
      reads this`p1, this`n1, this`buf1
    {
      && t.Valid() && i <= t.N()
      && if i < t.N() then p1 == i + 1 && n1 == |t.l1[i]| && buf1 == t.l1[i] else p1 == t.N() && n1 == 0
    }

    ghost predicate At2(k: nat)
      reads this`p2, this`n2, this`buf2
    {
      && t.Valid() && k <= t.M()
      && if k < t.M() then p2 == k + 1 && n2 == |t.l2[k]| && buf2 == t.l2[k] else p2 == t.M() && n2 == 0
    }

    method Get1()
      requires t.Valid() && p1 <= t.N()
      modifies this`p1, this`n1, this`buf1
      ensures At1(old(p1))
    {
      if p1 == |t.l1| {
        n1 := 0;
      } else {
        buf1 := t.l1[p1];
        n1 := |buf1|;
        p1 := p1 + 1;
      }
    }

    method Get2()
      requires t.Valid() && p2 <= t.M()
      modifies this`p2, this`n2, this`buf2
      ensures At2(old(p2))
    {
      if p2 == |t.l2| {
        n2 := 0;
      } else {
        buf2 := t.l2[p2];
        n2 := |buf2|;
        p2 := p2 + 1;
      }
    }

    /** comp() */
    method Comp(ghost i: nat, ghost k: nat) returns (c: int)
      requires At1(i) && At2(k) && i < t.N() && k < t.M()
      ensures c == t.Comp(i, k)
    {
      c := Cmp(buf1[t.j1], buf2[t.j2]);
    }

    ghost predicate Printed(es: seq<Event>)
      reads this`out
    {
      out == Rows(t, es)
    }

    method Output(on1: nat, on2: nat, ghost e: Event, ghost es: seq<Event>)
      requires Printed(es)
      requires Show(t, e) == Row(if on1 > 0 then Some(buf1) else None, if on2 > 0 then Some(buf2) else None)
      modifies this`out
      ensures Printed(es + [e])
    {
      out := out + [Row(if on1 > 0 then Some(buf1) else None, if on2 > 0 then Some(buf2) else None)];
      assert Rows(t, es + [e]) == Rows(t, es) + [Show(t, e)];
    }

    /** A line without a partner, if it is wanted. */
    method Unpaired(wanted: bool, on1: nat, on2: nat, ghost e: Event, ghost es: seq<Event>)
      returns (ghost es': seq<Event>)
      requires Printed(es)
      requires Show(t, e) == Row(if on1 > 0 then Some(buf1) else None, if on2 > 0 then Some(buf2) else None)
      modifies this`out
      ensures Printed(es') && es' == es + if wanted then [e] else []
    {
      es' := es;
      if wanted {
        Output(on1, on2, e, es);
        es' := es + [e];
      }
    }

    /** The lines of a group against each other; file 2 is left after them. */
    method JoinGroup(ghost i0: nat, ghost b: nat, bot2: nat, ghost es0: seq<Event>)
      returns (bot2': nat, ghost i: nat, ghost es: seq<Event>)
      requires t.Valid() && t.Sorted() && At1(i0) && At2(b) && bot2 == b && Main(t, i0, b, es0) && Printed(es0)
      requires i0 < t.N() && b < t.M() && t.Comp(i0, b) == 0
      modifies this
      ensures At1(i) && At2(bot2') && Main(t, i, bot2', es) && Printed(es) && i0 < i <= t.N() && b < bot2' <= t.M()
    {
      hide *;
      ghost var c: nat := b;
      es := es0;
      FirstStart(t, i0, b, es);
      var top2 := 0;
      At1Line(i0);
      At2Line(b);
      var comp := Comp(i0, c);
      while comp == 0
        invariant At1(i0) && At2(c) && First(t, i0, b, c, es) && Printed(es) && b <= c <= t.M()
        invariant comp == 0 ==> c < t.M() && t.Comp(i0, c) == 0
        invariant comp != 0 ==> b < c && top2 == c && (c < t.M() ==> t.Comp(i0, c) != 0)
        decreases t.M() - c, comp == 0
      {
        At2Line(c);
        ShowPair(i0, c);
        Output(n1, n2, Pair(i0, c), es);
        FirstStep(t, i0, b, c, es);
        es := es + [Pair(i0, c)];
        top2 := p2;
        Get2();
        c := c + 1;
        At2Line(c);
        if n2 > 0 {
          comp := Comp(i0, c);
        } else {
          comp := 1;
        }
      }
      At2Line(top2);
      FirstEnd(t, i0, b, top2, es);
      bot2', i, es := JoinRest(i0, b, bot2, top2, es);
    }

    lemma At1Line(i: nat)
      requires At1(i)
      ensures t.Valid() && i <= t.N() && (n1 > 0 <==> i < t.N()) && p1 == if i < t.N() then i + 1 else t.N()
    {
    }

    lemma At2Line(k: nat)
      requires At2(k)
      ensures t.Valid() && k <= t.M() && (n2 > 0 <==> k < t.M()) && p2 == if k < t.M() then k + 1 else t.M()
    {
    }

    lemma ShowPair(i: nat, k: nat)
      requires At1(i) && At2(k)
      ensures i < t.N() && k < t.M() ==> n1 > 0 && n2 > 0 && Show(t, Pair(i, k)) == Row(Some(buf1), Some(buf2))
      ensures i < t.N() ==> n1 > 0 && Show(t, Left(i)) == Row(Some(buf1), None)
      ensures k < t.M() ==> n2 > 0 && Show(t, Right(k)) == Row(None, Some(buf2))
    {
    }

    /** The other lines of the group in file 1, each against the group from its beginning. */
    method JoinRest(ghost i0: nat, ghost b: nat, bot2: nat, top2: nat, ghost es0: seq<Event>)
      returns (bot2': nat, ghost i: nat, ghost es: seq<Event>)
      requires t.Valid() && t.Sorted() && At1(i0) && bot2 == b
      requires Group(t, i0, b, top2) && es0 == t.Upto(i0 + 1) && Printed(es0)
      requires p2 <= t.M() && i0 < t.N() && b < top2 <= t.M() && t.Comp(i0, b) == 0
      modifies this
      ensures At1(i) && At2(bot2') && Main(t, i, bot2', es) && Printed(es) && i0 < i <= t.N() && b < bot2' <= t.M()
    {
      hide *;
      es := es0;
      ghost var c: nat := b;
      bot2' := bot2;
      p2 := bot2;
      At1Line(i0);
      Get2();
      Get1();
      i := i0 + 1;
      AgainStart(t, i0, b, top2, i, es);
      while true
        invariant At1(i) && At2(c) && Again(t, i0, b, top2, i, c, es)
        invariant Printed(es) && i0 < i <= t.N() && b <= c <= t.M()
        decreases t.N() - i, t.M() - c
      {
        At1Line(i);
        At2Line(c);
        ShowPair(i, c);
        var comp := 0;
        if n1 > 0 && n2 > 0 {
          comp := Comp(i, c);
        }
        if n1 > 0 && n2 > 0 && comp == 0 {
          Output(n1, n2, Pair(i, c), es);
          AgainStep(t, i0, b, top2, i, c, es);
          es := es + [Pair(i, c)];
          Get2();
          c := c + 1;
        } else if (n1 > 0 && n2 > 0 && comp < 0) || n2 == 0 {
          AgainNext(t, i0, b, top2, i, c, es);
          p2 := bot2;
          Get2();
          Get1();
          i, c := i + 1, b;
        } else {
          AgainEnd(t, i0, b, top2, i, c, es);
          p2 := top2;
          bot2' := top2;
          Get2();
          return;
        }
      }
    }

    /** join: prints what nested loops would, in the same order. */
    method Join()
      requires t.Valid() && t.Sorted() && p1 == p2 == 0 && out == []
      modifies this
      ensures out == Rows(t, t.Joined())
    {
      hide *;
      ghost var i: nat, k: nat, es: seq<Event> := 0, 0, [];
      Get1();
      var bot2 := p2;
      Get2();
      Start();
      while (n1 > 0 && n2 > 0) || ((t.a1 || t.a2) && n1 + n2 > 0)
        invariant At1(i) && At2(k) && bot2 == k && Main(t, i, k, es) && Printed(es) && i <= t.N() && k <= t.M()
        decreases t.N() - i + (t.M() - k)
      {
        At1Line(i);
        At2Line(k);
        ShowPair(i, k);
        var comp := 0;
        if n1 > 0 && n2 > 0 {
          comp := Comp(i, k);
        }
        if (n1 > 0 && n2 > 0 && comp > 0) || n1 == 0 {
          StepRight(t, i, k, es);
          es := Unpaired(t.a2, 0, n2, Right(k), es);
          bot2 := p2;
          Get2();
          k := k + 1;
        } else if (n1 > 0 && n2 > 0 && comp < 0) || n2 == 0 {
          StepLeft(t, i, k, es);
          es := Unpaired(t.a1, n1, 0, Left(i), es);
          Get1();
          i := i + 1;
        } else {
          ghost var k0 := k;
          bot2, i, es := JoinGroup(i, k, bot2, es);
          k := bot2;
        }
      }
      At1Line(i);
      At2Line(k);
      AllPrinted(i, k, es);
    }

    lemma Start()
      requires t.Valid() && out == []
      ensures Main(t, 0, 0, []) && Printed([])
    {
    }

    lemma AllPrinted(i: nat, k: nat, es: seq<Event>)
      requires t.Valid() && t.Sorted() && Main(t, i, k, es) && Printed(es)
      requires (i == t.N() && k == t.M()) || (!t.a1 && !t.a2 && (i == t.N() || k == t.M()))
      ensures out == Rows(t, t.Joined())
    {
      hide Task.Comp, Task.Sorted, Rows;
      if !t.a1 && !t.a2 {
        NothingLeft(t, i, k, es);
      }
    }
  }
}
