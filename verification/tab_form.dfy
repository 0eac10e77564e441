/** newform's work area: a line rewritten in place, between two moving pointers. */
module TabForm {
  import opened TabStops

  const NL := 10

  lemma ExpandNext(stop: Stops, y: Text, t: int, col: int)
    requires y != []
    ensures var t1 := InHead(stop, t, col);
      Expand(stop, y, t, col) ==
        if y[0] == BS then [BS] + Expand(stop, y[1..], Backed(stop, t1, BackCol(col)), BackCol(col))
        else if y[0] == TAB then Spaces(Gap(stop, t1, col)) + Expand(stop, y[1..], t1 + 1, col + Gap(stop, t1, col))
        else [y[0]] + Expand(stop, y[1..], t1, col + 1)
  {
  }

  lemma Nothing(stop: Stops, t: int, col: int)
    ensures Contract(stop, [], t, col) == [] && Expand(stop, [], t, col) == []
  {
  }

  /** The newline stays where it is. */
  lemma {:induction false} ExpandEnds(stop: Stops, y: Text, t: int, col: int)
    requires y != [] && y[|y| - 1] == NL
    ensures var r := Expand(stop, y, t, col); r != [] && r[|r| - 1] == NL
  {
    ExpandNext(stop, y, t, col);
    hide *;
    if |y| > 1 {
      assert y[1..][|y| - 2] == y[|y| - 1];
      var t1 := InHead(stop, t, col);
      if y[0] == BS {
        ExpandEnds(stop, y[1..], Backed(stop, t1, BackCol(col)), BackCol(col));
      } else if y[0] == TAB {
        ExpandEnds(stop, y[1..], t1 + 1, col + Gap(stop, t1, col));
      } else {
        ExpandEnds(stop, y[1..], t1, col + 1);
      }
    } else {
      Nothing(stop, InHead(stop, t, col), col + 1);
      assert y[1..] == [];
    }
  }

  lemma {:induction false} ContractEnds(stop: Stops, x: Text, t: int, col: int)
    requires x != [] && x[|x| - 1] == NL
    ensures var r := Contract(stop, x, t, col); r != [] && r[|r| - 1] == NL
    decreases |x|
  {
    hide OutHead, Backed, BackCol, Contract, After, Blanks;
    var t1 := OutHead(stop, t, col);
    if x[0] == SP {
      ContractRun(stop, x, t, col);
      ContractEnds(stop, x[Run(x)..], After(stop, Run(x), t1, col), col + Run(x));
    } else {
      ContractNext(stop, x, t, col);
      if |x| > 1 {
        if x[0] == BS {
          ContractEnds(stop, x[1..], Backed(stop, t1, BackCol(col)), BackCol(col));
        } else {
          ContractEnds(stop, x[1..], t1, col + 1);
        }
      } else {
        Nothing(stop, t1, col + 1);
        assert x[1..] == [];
      }
    }
  }

  /** The output of what is left, in a run of which left blanks are to come. */
  function Amid(stop: Stops, left: nat, rest: Text, t: int, col: int, pending: nat): Text {
    Blanks(stop, left, t, col, pending) + Contract(stop, rest, After(stop, left, t, col), col + left)
  }

  lemma AmidNext(stop: Stops, left: nat, rest: Text, t: int, col: int, pending: nat)
    requires left > 0
    ensures Amid(stop, left, rest, t, col, pending) ==
      if col + 1 == stop(t) then [TAB] + Amid(stop, left - 1, rest, t + 1, col + 1, 0)
      else Amid(stop, left - 1, rest, t, col + 1, pending + 1)
  {
    hide Contract;
    if col + 1 == stop(t) {
      Assoc([TAB], Blanks(stop, left - 1, t + 1, col + 1, 0),
        Contract(stop, rest, After(stop, left - 1, t + 1, col + 1), col + left));
    }
  }

  lemma AmidEnd(stop: Stops, rest: Text, t: int, col: int, pending: nat)
    ensures Amid(stop, 0, rest, t, col, pending) == Spaces(pending) + Contract(stop, rest, t, col)
  {
  }

  function Rest(z: Text): Text {
    z[Run(z)..]
  }

  lemma AmidFirst(stop: Stops, x: Text, t: int, col: int)
    requires x != [] && x[0] == SP
    ensures Contract(stop, x, t, col) == Amid(stop, Run(x), Rest(x), OutHead(stop, t, col), col, 0)
  {
  }

  class Form {
    // NCOLS, and the work area, three times as large.
    const ncols: nat
    const work: array<int>
    var pfirst: int
    var plast: int

    /** A line just read. */
    constructor (n: nat, line: Text)
      requires 0 < |line| <= 2 * n + 1 && line[|line| - 1] == NL
      ensures Valid(line) && fresh(work) && ncols == n
    {
      ncols := n;
      work := new int[3 * n + 1](i => if n <= i < n + |line| then line[i - n] else 0);
      pfirst, plast := n, n + |line| - 1;
    }

    /** The text stands in the work area from there on. */
    ghost predicate At(from: int, s: Text)
      reads work
    {
      0 <= from && from + |s| <= work.Length && forall i | 0 <= i < |s| :: work[from + i] == s[i]
    }

    /** The line between the pointers, with its newline. */
    ghost predicate Valid(line: Text)
      reads this`pfirst, this`plast, work
    {
      && work.Length == 3 * ncols + 1 && At(pfirst, line) && plast == pfirst + |line| - 1
      && line != [] && line[|line| - 1] == NL
    }

    lemma Read(from: int, s: Text)
      requires At(from, s) && s != []
      ensures 0 <= from < work.Length && work[from] == s[0] && At(from + 1, s[1..])
    {
    }

    lemma ReadLast(from: int, s: Text)
      requires At(from, s) && s != []
      ensures 0 <= from + |s| - 1 < work.Length && work[from + |s| - 1] == s[|s| - 1] && At(from, s[..|s| - 1])
    {
    }

    lemma Nowhere(from: int)
      requires 0 <= from <= work.Length
      ensures At(from, [])
    {
    }

    /** A character behind what has been written, in front of what is still to be read. */
    method Put(c: int, ghost low: int, ghost o: Text, at: int, ghost from: int, ghost x: Text)
      requires At(low, o) && low + |o| == at < from && At(from, x)
      modifies work
      ensures At(low, o + [c]) && At(from, x)
    {
      work[at] := c;
    }

    /** A character in front of what has been written, behind what is still to be read. */
    method PutBack(c: int, ghost low: int, ghost x: Text, at: int, ghost o: Text)
      requires At(low, x) && low + |x| <= at && At(at + 1, o) && 0 <= at < work.Length
      modifies work
      ensures At(low, x) && At(at, [c] + o)
    {
      work[at] := c;
    }

    /** center: the line is moved to the middle of the work area. */
    method Center(ghost line: Text)
      requires Valid(line) && plast - pfirst <= ncols
      modifies this`pfirst, this`plast, work
      ensures Valid(line) && pfirst == ncols
    {
      if pfirst < ncols {
        MoveUp(line);
      } else {
        MoveDown(line);
      }
    }

    /** From the end on, for the line may reach into its new place. */
    method MoveUp(ghost line: Text)
      requires Valid(line) && plast - pfirst <= ncols && pfirst < ncols
      modifies this`pfirst, this`plast, work
      ensures Valid(line) && pfirst == ncols
    {
      hide At;
      InWork(pfirst, line);
      ghost var first, k := pfirst, |line|;
      var tlast := plast + (ncols - pfirst);
      var tptr := tlast;
      Nowhere(tlast + 1);
      assert line[..k] == line && line[k..] == [];
      while plast >= pfirst
        invariant pfirst == first && 0 <= k <= |line| && plast == first + k - 1 && tlast == ncols + k - 1
        invariant At(first, line[..k]) && At(ncols + k, line[k..])
      {
        ReadLast(first, line[..k]);
        assert line[..k][..k - 1] == line[..k - 1] && [line[k - 1]] + line[k..] == line[k - 1..];
        PutBack(work[plast], first, line[..k - 1], tlast, line[k..]);
        tlast, plast, k := tlast - 1, plast - 1, k - 1;
      }
      assert line[0..] == line;
      pfirst := tlast + 1;
      plast := tptr;
    }

    lemma InWork(from: int, s: Text)
      requires At(from, s)
      ensures 0 <= from && from + |s| <= work.Length
    {
    }

    method MoveDown(ghost line: Text)
      requires Valid(line) && plast - pfirst <= ncols <= pfirst
      modifies this`pfirst, this`plast, work
      ensures Valid(line) && pfirst == ncols
    {
      hide At;
      InWork(pfirst, line);
      ghost var first, k := pfirst, 0;
      var tfirst := ncols;
      var tptr := tfirst;
      Nowhere(tfirst);
      assert line[..0] == [] && line[0..] == line;
      while pfirst <= plast
        invariant plast == first + |line| - 1 && 0 <= k <= |line| && pfirst == first + k && tfirst == ncols + k
        invariant At(ncols, line[..k]) && At(first + k, line[k..])
      {
        Read(pfirst, line[k..]);
        assert line[k..][1..] == line[k + 1..] && line[..k] + [line[k]] == line[..k + 1];
        Put(work[pfirst], ncols, line[..k], tfirst, pfirst + 1, line[k + 1..]);
        tfirst, pfirst, k := tfirst + 1, pfirst + 1, k + 1;
      }
      assert line[..k] == line;
      plast := tfirst - 1;
      pfirst := tptr;
    }

    /** inputtabs: the line is expanded to the front of the work area. */
    method InputTabs(stop: Stops, ghost line: Text)
      requires Valid(line) && plast - pfirst <= ncols && |Expand(stop, line, 0, 1)| <= ncols
      modifies this`pfirst, this`plast, work
      ensures Valid(Expand(stop, line, 0, 1)) && pfirst == 0
    {
      hide Expand, At;
      Center(line);
      ghost var total, o, y := Expand(stop, line, 0, 1), [], line;
      var tabs, tlast, logcol := 0, 0, 1;
      Nowhere(0);
      while pfirst <= plast
        invariant ncols <= pfirst == plast + 1 - |y| && plast == ncols + |line| - 1
        invariant At(0, o) && tlast == |o| && At(pfirst, y)
        invariant o + Expand(stop, y, tabs, logcol) == total
        decreases |y|
      {
        tabs, tlast, logcol, o := Take(stop, tabs, tlast, logcol, o, y, total);
        y := y[1..];
      }
      Nothing(stop, tabs, logcol);
      assert o == total;
      ExpandEnds(stop, line, 0, 1);
      pfirst := 0;
      plast := tlast - 1;
    }

    /** One character of the line. */
    method Take(stop: Stops, t: int, at: int, col: int, ghost o: Text, ghost y: Text, ghost total: Text)
      returns (tabs: int, tlast: int, logcol: int, ghost o': Text)
      requires y != [] && ncols <= pfirst && |total| <= ncols && o + Expand(stop, y, t, col) == total
      requires At(0, o) && at == |o| && At(pfirst, y)
      modifies this`pfirst, work
      ensures pfirst == old(pfirst) + 1 && At(pfirst, y[1..]) && At(0, o') && tlast == |o'|
      ensures o' + Expand(stop, y[1..], tabs, logcol) == total
    {
      hide Expand, InHead, Backed, BackCol, Gap, Spaces, At;
      ExpandNext(stop, y, t, col);
      Read(pfirst, y);
      tabs, tlast, logcol := InHead(stop, t, col), at, col;
      var c := work[pfirst];
      pfirst := pfirst + 1;
      if c == TAB {
        var gap := Gap(stop, tabs, logcol);
        Assoc(o, Spaces(gap), Expand(stop, y[1..], tabs + 1, logcol + gap));
        tlast, logcol := Blank(tlast, tabs, logcol, stop, o, pfirst, y[1..]);
        tabs := tabs + 1;
        o' := o + Spaces(gap);
      } else {
        logcol := if c == BS then BackCol(logcol) else logcol + 1;
        tabs := if c == BS then Backed(stop, tabs, logcol) else tabs;
        Assoc(o, [c], Expand(stop, y[1..], tabs, logcol));
        Put(c, 0, o, tlast, pfirst, y[1..]);
        tlast := tlast + 1;
        o' := o + [c];
      }
    }

    /** Blanks up to the stop. */
    method Blank(start: nat, t: int, col: int, stop: Stops, ghost o: Text, ghost from: int, ghost y: Text)
      returns (tlast: nat, logcol: int)
      requires At(0, o) && |o| == start && At(from, y) && start + Gap(stop, t, col) <= from
      modifies work
      ensures tlast == start + Gap(stop, t, col) && logcol == col + Gap(stop, t, col)
      ensures At(0, o + Spaces(Gap(stop, t, col))) && At(from, y)
    {
      hide At;
      tlast, logcol := start, col;
      assert o + Spaces(0) == o;
      while logcol < stop(t)
        invariant col <= logcol <= col + Gap(stop, t, col) && tlast - start == logcol - col
        invariant At(0, o + Spaces(tlast - start)) && At(from, y)
      {
        Put(SP, 0, o + Spaces(tlast - start), tlast, from, y);
        OneMore(o, tlast - start);
        tlast, logcol := tlast + 1, logcol + 1;
      }
    }

    static lemma OneMore(o: Text, n: nat)
      ensures (o + Spaces(n)) + [SP] == o + Spaces(n + 1)
    {
    }

    /** outputtabs: the line is contracted where it stands; what is written never overtakes what is
        read. */
    method OutputTabs(stop: Stops, ghost line: Text)
      requires Valid(line)
      modifies this`pfirst, this`plast, work
      ensures Valid(Contract(stop, line, 0, 1)) && pfirst == old(pfirst) && plast <= old(plast)
    {
      hide Contract, At;
      InWork(pfirst, line);
      ghost var total, o, x := Contract(stop, line, 0, 1), [], line;
      var tfirst, tlast, tabs, logcol := pfirst, pfirst, 0, 1;
      Nowhere(tfirst);
      while pfirst <= plast
        invariant plast == old(plast) && pfirst == plast + 1 - |x| && tlast == tfirst + |o| <= pfirst
        invariant At(tfirst, o) && At(pfirst, x) && (x != [] ==> x[|x| - 1] == NL)
        invariant o + Contract(stop, x, tabs, logcol) == total
        decreases |x|
      {
        Read(pfirst, x);
        if work[pfirst] == SP {
          RunInside(x);
          ghost var rest := Rest(x);
          tabs, tlast, logcol, o := TakeRun(stop, tfirst, tabs, tlast, logcol, o, x, total);
          x := rest;
        } else {
          tabs, tlast, logcol, o := TakeChar(stop, tfirst, tabs, tlast, logcol, o, x, total);
          x := x[1..];
        }
      }
      Nothing(stop, tabs, logcol);
      assert o == total;
      ContractEnds(stop, line, 0, 1);
      pfirst := tfirst;
      plast := tlast - 1;
    }

    static lemma RunInside(z: Text)
      requires z != [] && z[|z| - 1] == NL && z[0] == SP
      ensures 0 < Run(z) < |z| && |Rest(z)| == |z| - Run(z) && Rest(z)[|Rest(z)| - 1] == NL
    {
    }

    static lemma RunNext(z: Text)
      requires z != []
      ensures if z[0] == SP then Run(z) > 0 && Run(z[1..]) == Run(z) - 1 && Rest(z[1..]) == Rest(z)
        else Run(z) == 0 && Rest(z) == z
    {
    }

    method TakeChar(stop: Stops, ghost tfirst: nat, t: int, at: int, col: int, ghost o: Text, ghost x: Text,
                    ghost total: Text)
      returns (tabs: int, tlast: int, logcol: int, ghost o': Text)
      requires x != [] && x[0] != SP && o + Contract(stop, x, t, col) == total
      requires At(tfirst, o) && at == tfirst + |o| <= pfirst && At(pfirst, x)
      modifies this`pfirst, work
      ensures pfirst == old(pfirst) + 1 && At(pfirst, x[1..]) && At(tfirst, o') && tlast == tfirst + |o'| <= pfirst
      ensures o' + Contract(stop, x[1..], tabs, logcol) == total
    {
      hide Contract, OutHead, Backed, BackCol, At;
      ContractNext(stop, x, t, col);
      Read(pfirst, x);
      tabs := OutHead(stop, t, col);
      var c := work[pfirst];
      pfirst := pfirst + 1;
      logcol := if c == BS then BackCol(col) else col + 1;
      tabs := if c == BS then Backed(stop, tabs, logcol) else tabs;
      Assoc(o, [c], Contract(stop, x[1..], tabs, logcol));
      Put(c, tfirst, o, at, pfirst, x[1..]);
      tlast := at + 1;
      o' := o + [c];
    }

    /** A run of blanks: those that reach a stop become tabs. */
    method TakeRun(stop: Stops, ghost tfirst: nat, t: int, at: int, col: int, ghost o: Text, ghost x: Text,
                   ghost total: Text)
      returns (tabs: int, tlast: int, logcol: int, ghost o': Text)
      requires x != [] && x[0] == SP && x[|x| - 1] == NL && o + Contract(stop, x, t, col) == total
      requires At(tfirst, o) && at == tfirst + |o| <= pfirst && At(pfirst, x)
      modifies this`pfirst, work
      ensures |Rest(x)| <= |x| && pfirst == old(pfirst) + |x| - |Rest(x)| && At(pfirst, Rest(x))
      ensures At(tfirst, o') && tlast == tfirst + |o'| <= pfirst
      ensures o' + Contract(stop, Rest(x), tabs, logcol) == total
    {
      hide *;
      AmidFirst(stop, x, t, col);
      RunInside(x);
      RunNext(x);
      Read(pfirst, x);
      ghost var m, z := o, x[1..];
      tabs, tlast, logcol := OutHead(stop, t, col), at, col;
      var mark := tlast;
      pfirst := pfirst + 1;
      WithSpaces(o);
      while true
        invariant At(pfirst, z) && z != [] && z[|z| - 1] == NL
        invariant pfirst + |z| == old(pfirst) + |x| && Rest(z) == Rest(x)
        invariant tfirst <= mark == tfirst + |m| <= tlast < pfirst && At(tfirst, m + Spaces(tlast - mark))
        invariant m + Amid(stop, Run(z) + 1, Rest(x), tabs, logcol, tlast - mark) == total
        decreases |z|
      {
        tabs, mark, tlast, logcol, m :=
          Space(stop, tfirst, tabs, mark, tlast, logcol, m, Run(z) + 1, Rest(x), total, pfirst, z);
        RunNext(z);
        Read(pfirst, z);
        if work[pfirst] != SP {
          break;
        }
        pfirst := pfirst + 1;
        RunInside(z);
        z := z[1..];
      }
      o' := m + Spaces(tlast - mark);
      AmidEnd(stop, Rest(x), tabs, logcol, tlast - mark);
      Assoc(m, Spaces(tlast - mark), Contract(stop, Rest(x), tabs, logcol));
    }

    static lemma WithSpaces(o: Text)
      ensures o + Spaces(0) == o
    {
    }

    /** A blank is put out; at a stop, a tab takes the place of those since the last. */
    method Space(stop: Stops, ghost tfirst: nat, t: int, from: int, at: int, col: int, ghost o: Text, ghost left: nat,
                 ghost rest: Text, ghost total: Text, ghost low: int, ghost z: Text)
      returns (tabs: int, mark: int, tlast: int, logcol: int, ghost m: Text)
      requires left > 0 && from == tfirst + |o| <= at < low && At(tfirst, o + Spaces(at - from)) && At(low, z)
      requires o + Amid(stop, left, rest, t, col, at - from) == total
      modifies work
      ensures mark == tfirst + |m| <= tlast <= at + 1 && At(tfirst, m + Spaces(tlast - mark)) && At(low, z)
      ensures logcol == col + 1 && m + Amid(stop, left - 1, rest, tabs, logcol, tlast - mark) == total
    {
      hide Amid, At;
      AmidNext(stop, left, rest, t, col, at - from);
      Assoc(o, [TAB], Amid(stop, left - 1, rest, t + 1, col + 1, 0));
      tabs, mark, tlast, logcol, m := t, from, at, col, o;
      Put(SP, tfirst, o + Spaces(at - from), at, low, z);
      OneMore(o, at - from);
      tlast := tlast + 1;
      logcol := logcol + 1;
      if logcol == stop(tabs) {
        Instead(tfirst, o, at + 1 - from, mark, low, z);
        m := o + [TAB];
        WithSpaces(m);
        mark := mark + 1;
        tlast := mark;
        tabs := tabs + 1;
      }
    }

    method Instead(ghost tfirst: int, ghost o: Text, ghost n: nat, mark: int, ghost low: int, ghost z: Text)
      requires At(tfirst, o + Spaces(n)) && mark == tfirst + |o| < low && n > 0 && At(low, z)
      modifies work
      ensures At(tfirst, o + [TAB]) && At(low, z)
    {
      assert At(tfirst, o) by {
        assert forall i | 0 <= i < |o| :: (o + Spaces(n))[i] == o[i];
      }
      work[mark] := TAB;
    }
  }

  /** Contracting and expanding again leaves a line as it was. */
  method OutAndIn(stop: Stops, line: Text, n: nat) returns (form: Form)
    requires 0 < |line| <= n && line[|line| - 1] == NL && Plain(line)
    ensures form.Valid(line)
  {
    form := new Form(n, line);
    RoundTrip(stop, line, 0, 1);
    form.OutputTabs(stop, line);
    form.InputTabs(stop, Contract(stop, line, 0, 1));
  }
}
