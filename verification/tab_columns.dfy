/** Where the characters of a line stand: neither expanding tabs nor contracting blanks moves one, and
    backspaces make no difference. */
module TabColumns {
  import opened TabStops

  /** A table of stops that ascends, from the first column on. */
  ghost predicate Regular(stop: Stops) {
    stop(-1) <= 1 <= stop(0) && forall i, j | -1 <= i < j :: stop(i) < stop(j)
  }

  /** Stop i is the next one behind the column. */
  predicate IsNext(stop: Stops, i: int, col: int) {
    i >= 0 && stop(i - 1) <= col < stop(i)
  }

  ghost function NextStop(stop: Stops, col: int): int {
    if exists i :: IsNext(stop, i, col) then
      var i :| IsNext(stop, i, col);
      stop(i)
    else col
  }

  lemma Ascends(stop: Stops, i: int, j: int)
    requires Regular(stop) && -1 <= i < j
    ensures stop(i) < stop(j)
  {
  }

  lemma NextIs(stop: Stops, i: int, col: int)
    requires Regular(stop) && IsNext(stop, i, col)
    ensures NextStop(stop, col) == stop(i)
  {
    assert exists k :: IsNext(stop, k, col) && NextStop(stop, col) == stop(k);
    var k :| IsNext(stop, k, col) && NextStop(stop, col) == stop(k);
    assert k >= 0 && stop(k - 1) <= col < stop(k);
    if k < i - 1 {
      Ascends(stop, k, i - 1);
    } else if i < k - 1 {
      Ascends(stop, i, k - 1);
    }
  }

  /** The characters that can be seen, each with its column: a tab goes on to the next stop, a backspace
      goes back by one, but not before the first column. */
  ghost function Marks(stop: Stops, x: Text, col: int): seq<(int, int)> {
    if x == [] then []
    else if x[0] == '\t' as int then Marks(stop, x[1..], NextStop(stop, col))
    else if x[0] == 8 then Marks(stop, x[1..], if col <= 1 then 1 else col - 1)
    else if x[0] == ' ' as int then Marks(stop, x[1..], col + 1)
    else [(col, x[0])] + Marks(stop, x[1..], col + 1)
  }

  lemma {:induction false} SpacesMark(stop: Stops, n: nat, x: Text, col: int)
    ensures Marks(stop, Spaces(n) + x, col) == Marks(stop, x, col + n)
  {
    if n == 0 {
      assert Spaces(n) + x == x;
    } else {
      SpacesMark(stop, n - 1, x, col + 1);
      assert (Spaces(n) + x)[1..] == Spaces(n - 1) + x;
    }
  }

  /** The column behind a character that is no tab. */
  function Behind(c: int, col: int): int {
    if c == BS then (if col <= 1 then 1 else col - 1) else col + 1
  }

  /** The same character in front of two texts that come to the same. */
  lemma SameFirst(stop: Stops, c: int, x: Text, y: Text, col: int)
    requires c != TAB && Marks(stop, x, Behind(c, col)) == Marks(stop, y, Behind(c, col))
    ensures Marks(stop, [c] + x, col) == Marks(stop, [c] + y, col)
  {
    assert ([c] + x)[1..] == x && ([c] + y)[1..] == y;
  }

  lemma TabFirst(stop: Stops, x: Text, col: int)
    ensures Marks(stop, [TAB] + x, col) == Marks(stop, x, NextStop(stop, col))
  {
    assert ([TAB] + x)[1..] == x;
  }

  lemma HeadTail(x: Text)
    requires x != []
    ensures x == [x[0]] + x[1..]
  {
  }

  // Expanding.

  /** The pointer into the table is where the column is. */
  predicate InStep(stop: Stops, t: int, col: int) {
    col >= 1 && IsNext(stop, InHead(stop, t, col), col)
  }

  lemma StepChar(stop: Stops, t: int, col: int)
    requires Regular(stop) && InStep(stop, t, col)
    ensures var t1 := InHead(stop, t, col); InStep(stop, t1, col + 1)
  {
  }

  lemma StepTab(stop: Stops, t: int, col: int)
    requires Regular(stop) && InStep(stop, t, col)
    ensures var t1 := InHead(stop, t, col);
      NextStop(stop, col) == stop(t1) == col + Gap(stop, t1, col) && InStep(stop, t1 + 1, stop(t1))
  {
    NextIs(stop, InHead(stop, t, col), col);
  }

  lemma StepBack(stop: Stops, t: int, col: int)
    requires Regular(stop) && InStep(stop, t, col)
    ensures BackCol(col) == if col <= 1 then 1 else col - 1
    ensures InStep(stop, Backed(stop, InHead(stop, t, col), BackCol(col)), BackCol(col))
  {
    var t1 := InHead(stop, t, col);
    assert stop(t1 - 2 + 1) == stop(t1 - 1);
    assert t1 >= 1 ==> stop(t1 - 2) < stop(t1 - 1);
  }

  lemma ExpandFirst(stop: Stops, y: Text, t: int, col: int)
    requires y != []
    ensures var t1 := InHead(stop, t, col);
      Expand(stop, y, t, col) ==
        if y[0] == BS then [BS] + Expand(stop, y[1..], Backed(stop, t1, BackCol(col)), BackCol(col))
        else if y[0] == TAB then Spaces(Gap(stop, t1, col)) + Expand(stop, y[1..], t1 + 1, col + Gap(stop, t1, col))
        else [y[0]] + Expand(stop, y[1..], t1, col + 1)
  {
  }

  /** Every character stands where it stood. */
  lemma {:induction false} ExpandKeepsColumns(stop: Stops, y: Text, t: int, col: int)
    requires Regular(stop) && InStep(stop, t, col)
    ensures Marks(stop, Expand(stop, y, t, col), col) == Marks(stop, y, col)
    decreases |y|
  {
    hide *;
    if y == [] {
      NothingLeft(stop, t, col);
    } else {
      Letters();
      HeadTail(y);
      var t1 := InHead(stop, t, col);
      ExpandFirst(stop, y, t, col);
      if y[0] == TAB {
        StepTab(stop, t, col);
        ExpandKeepsColumns(stop, y[1..], t1 + 1, stop(t1));
        SpacesMark(stop, Gap(stop, t1, col), Expand(stop, y[1..], t1 + 1, stop(t1)), col);
        TabFirst(stop, y[1..], col);
      } else {
        ExpandOther(stop, y, t, col);
      }
    }
  }

  lemma {:induction false} ExpandOther(stop: Stops, y: Text, t: int, col: int)
    requires Regular(stop) && InStep(stop, t, col) && y != [] && y[0] != TAB
    ensures Marks(stop, Expand(stop, y, t, col), col) == Marks(stop, [y[0]] + y[1..], col)
    decreases |y|, 0
  {
    hide Expand, Marks, Regular, InStep, InHead, Backed, BackCol;
    var t1 := InHead(stop, t, col);
    ExpandFirst(stop, y, t, col);
    var t2, c := t1, col + 1;
    if y[0] == BS {
      StepBack(stop, t, col);
      t2, c := Backed(stop, t1, BackCol(col)), BackCol(col);
    } else {
      StepChar(stop, t, col);
    }
    ExpandKeepsColumns(stop, y[1..], t2, c);
    SameFirst(stop, y[0], Expand(stop, y[1..], t2, c), y[1..], col);
  }

  lemma Letters()
    ensures BS != TAB && BS != SP && TAB != SP
  {
  }

  lemma NothingLeft(stop: Stops, t: int, col: int)
    ensures Expand(stop, [], t, col) == [] && Contract(stop, [], t, col) == []
  {
  }

  /** No tab is left in a line, whatever the table. */
  lemma {:induction false} NoTabs(stop: Stops, y: Text, t: int, col: int)
    ensures forall c | c in Expand(stop, y, t, col) :: c != TAB
  {
    if y != [] {
      var t1 := InHead(stop, t, col);
      NoTabs(stop, y[1..], Backed(stop, t1, BackCol(col)), BackCol(col));
      NoTabs(stop, y[1..], t1 + 1, col + Gap(stop, t1, col));
      NoTabs(stop, y[1..], t1, col + 1);
    }
  }

  // Contracting.

  /** A stop that is still to come is the next one behind the pending blanks, too. */
  predicate Ahead(stop: Stops, t: int, col: int, pending: nat) {
    col - pending >= 1 && t >= -1 && (stop(t) > col ==> IsNext(stop, t, col) && stop(t - 1) <= col - pending)
  }

  lemma AheadFirst(stop: Stops, t: int, col: int)
    requires Regular(stop) && Ahead(stop, t, col, 0)
    ensures Ahead(stop, OutHead(stop, t, col), col, 0)
  {
  }

  lemma AheadChar(stop: Stops, t: int, col: int)
    requires Regular(stop) && Ahead(stop, t, col, 0) && stop(t) != col
    ensures Ahead(stop, t, col + 1, 0)
  {
  }

  lemma OutHeadNot(stop: Stops, t: int, col: int)
    requires Regular(stop) && t >= -1
    ensures stop(OutHead(stop, t, col)) != col
  {
  }

  lemma AheadBack(stop: Stops, t: int, col: int)
    requires Regular(stop) && Ahead(stop, t, col, 0) && stop(t) != col
    ensures BackCol(col) == if col <= 1 then 1 else col - 1
    ensures Ahead(stop, Backed(stop, t, BackCol(col)), BackCol(col), 0)
  {
    assert t >= 0 ==> stop(t - 1) < stop(t);
    assert t >= 1 ==> stop(t - 2) < stop(t - 1);
  }

  lemma BlanksFirst(stop: Stops, n: nat, t: int, col: int, pending: nat)
    ensures n == 0 ==> Blanks(stop, n, t, col, pending) == Spaces(pending) && After(stop, n, t, col) == t
    ensures n > 0 && col + 1 == stop(t) ==>
      Blanks(stop, n, t, col, pending) == [TAB] + Blanks(stop, n - 1, t + 1, col + 1, 0) &&
      After(stop, n, t, col) == After(stop, n - 1, t + 1, col + 1)
    ensures n > 0 && col + 1 != stop(t) ==>
      Blanks(stop, n, t, col, pending) == Blanks(stop, n - 1, t, col + 1, pending + 1) &&
      After(stop, n, t, col) == After(stop, n - 1, t, col + 1)
  {
  }

  /** A run of blanks comes to the same column. */
  lemma {:induction false} BlanksMark(stop: Stops, n: nat, t: int, col: int, pending: nat, x: Text)
    requires Regular(stop) && Ahead(stop, t, col, pending)
    requires stop(t) == col ==> false
    ensures Marks(stop, Blanks(stop, n, t, col, pending) + x, col - pending) == Marks(stop, x, col + n)
    ensures Ahead(stop, After(stop, n, t, col), col + n, 0)
    decreases n
  {
    BlanksFirst(stop, n, t, col, pending);
    hide Blanks, After, Marks, Regular;
    if n == 0 {
      SpacesMark(stop, pending, x, col - pending);
    } else if col + 1 == stop(t) {
      TabHere(stop, t, col, pending);
      BlanksMark(stop, n - 1, t + 1, col + 1, 0, x);
      var more := Blanks(stop, n - 1, t + 1, col + 1, 0);
      Assoc([TAB], more, x);
      TabFirst(stop, more + x, col - pending);
    } else {
      BlanksMark(stop, n - 1, t, col + 1, pending + 1, x);
    }
  }

  lemma TabHere(stop: Stops, t: int, col: int, pending: nat)
    requires Regular(stop) && Ahead(stop, t, col, pending) && col + 1 == stop(t)
    ensures NextStop(stop, col - pending) == col + 1
    ensures Ahead(stop, t + 1, col + 1, 0) && stop(t + 1) != col + 1
  {
    NextIs(stop, t, col - pending);
    assert stop(t) < stop(t + 1);
  }

  /** Contracting a line without tabs leaves every character where it stood, too. */
  lemma {:induction false} ContractKeepsColumns(stop: Stops, x: Text, t: int, col: int)
    requires Regular(stop) && Ahead(stop, t, col, 0) && forall i | 0 <= i < |x| :: x[i] != TAB
    ensures Marks(stop, Contract(stop, x, t, col), col) == Marks(stop, x, col)
    decreases |x|, 1
  {
    hide *;
    if x == [] {
      NothingLeft(stop, t, col);
    } else {
      HeadTail(x);
      var t1 := OutHead(stop, t, col);
      AheadFirst(stop, t, col);
      AheadIs(stop, t, col);
      OutHeadNot(stop, t, col);
      if x[0] == SP {
        ContractRun(stop, x, t, col);
        var n := Run(x);
        BlanksMark(stop, n, t1, col, 0, Contract(stop, x[n..], After(stop, n, t1, col), col + n));
        ContractKeepsColumns(stop, x[n..], After(stop, n, t1, col), col + n);
        SpacesMark(stop, n, x[n..], col);
      } else {
        ContractOther(stop, x, t, col);
      }
    }
  }

  lemma {:induction false} ContractOther(stop: Stops, x: Text, t: int, col: int)
    requires Regular(stop) && x != [] && x[0] != SP && Ahead(stop, OutHead(stop, t, col), col, 0)
    requires stop(OutHead(stop, t, col)) != col && forall i | 0 <= i < |x| :: x[i] != TAB
    ensures Marks(stop, Contract(stop, x, t, col), col) == Marks(stop, [x[0]] + x[1..], col)
    decreases |x|, 0
  {
    hide Contract, Marks, Regular, Ahead, OutHead, Backed, BackCol;
    var t1 := OutHead(stop, t, col);
    ContractNext(stop, x, t, col);
    var t2, c := t1, col + 1;
    if x[0] == BS {
      AheadBack(stop, t1, col);
      t2, c := Backed(stop, t1, BackCol(col)), BackCol(col);
    } else {
      AheadChar(stop, t1, col);
    }
    ContractKeepsColumns(stop, x[1..], t2, c);
    SameFirst(stop, x[0], Contract(stop, x[1..], t2, c), x[1..], col);
  }

  lemma AheadIs(stop: Stops, t: int, col: int)
    requires Ahead(stop, t, col, 0)
    ensures t >= -1
  {
  }

  /** Whole lines, from the first column on and with the first stop. */
  lemma LinesKeepColumns(stop: Stops, line: Text)
    requires Regular(stop)
    ensures Marks(stop, Expand(stop, line, 0, 1), 1) == Marks(stop, line, 1)
    ensures TAB !in line ==> Marks(stop, Contract(stop, line, 0, 1), 1) == Marks(stop, line, 1)
  {
    AtStart(stop);
    hide *;
    ExpandKeepsColumns(stop, line, 0, 1);
    if TAB !in line {
      ContractKeepsColumns(stop, line, 0, 1);
    }
  }

  lemma AtStart(stop: Stops)
    requires Regular(stop)
    ensures InStep(stop, 0, 1) && Ahead(stop, 0, 1, 0)
  {
    Ascends(stop, 0, 1);
  }
}
