/** newform's tabs: contracting blanks to tabs, expanding tabs to blanks, and why the second undoes
    the first, whatever the table of stops. */
module TabStops {
  type Text = seq<int>

  /** The table of stops, with whatever stands before and behind it in memory. */
  type Stops = int -> int

  const BS := 8
  const TAB := 9
  const SP := 32

  function Spaces(n: nat): (s: Text)
    ensures |s| == n && forall i | 0 <= i < n :: s[i] == SP
  {
    seq(n, _ => SP)
  }

  lemma SpacesSum(a: nat, b: nat)
    ensures Spaces(a) + Spaces(b) == Spaces(a + b)
  {
  }

  /** The stop to look at next, after a backspace to the column. */
  function Backed(stop: Stops, t: int, col: int): int {
    if col < stop(t) then t - 1 else t
  }

  function BackCol(col: int): int {
    if col > 1 then col - 1 else col
  }

  // inputtabs.

  function InHead(stop: Stops, t: int, col: int): int {
    if col >= stop(t) then t + 1 else t
  }

  function Gap(stop: Stops, t: int, col: int): nat {
    if col < stop(t) then stop(t) - col else 0
  }

  function Expand(stop: Stops, y: Text, t: int, col: int): Text {
    if y == [] then []
    else
      var t1 := InHead(stop, t, col);
      if y[0] == BS then [BS] + Expand(stop, y[1..], Backed(stop, t1, BackCol(col)), BackCol(col))
      else if y[0] == TAB then Spaces(Gap(stop, t1, col)) + Expand(stop, y[1..], t1 + 1, col + Gap(stop, t1, col))
      else [y[0]] + Expand(stop, y[1..], t1, col + 1)
  }

  // outputtabs.

  function OutHead(stop: Stops, t: int, col: int): int {
    if col == stop(t) then t + 1 else t
  }

  /** The blanks at the front. */
  function Run(x: Text): (n: nat)
    ensures n <= |x| && forall i | 0 <= i < n :: x[i] == SP
    ensures n < |x| ==> x[n] != SP
  {
    if x == [] || x[0] != SP then 0 else 1 + Run(x[1..])
  }

  /** n blanks more, after some that have not come to a stop yet. */
  function Blanks(stop: Stops, n: nat, t: int, col: int, pending: nat): Text {
    if n == 0 then Spaces(pending)
    else if col + 1 == stop(t) then [TAB] + Blanks(stop, n - 1, t + 1, col + 1, 0)
    else Blanks(stop, n - 1, t, col + 1, pending + 1)
  }

  function After(stop: Stops, n: nat, t: int, col: int): int {
    if n == 0 then t else After(stop, n - 1, if col + 1 == stop(t) then t + 1 else t, col + 1)
  }

  function Contract(stop: Stops, x: Text, t: int, col: int): Text
    decreases |x|
  {
    if x == [] then []
    else
      var t1 := OutHead(stop, t, col);
      if x[0] == BS then [BS] + Contract(stop, x[1..], Backed(stop, t1, BackCol(col)), BackCol(col))
      else if x[0] == SP then
        Blanks(stop, Run(x), t1, col, 0) + Contract(stop, x[Run(x)..], After(stop, Run(x), t1, col), col + Run(x))
      else [x[0]] + Contract(stop, x[1..], t1, col + 1)
  }

  lemma ContractNext(stop: Stops, x: Text, t: int, col: int)
    requires x != [] && x[0] != SP
    ensures var t1 := OutHead(stop, t, col);
      Contract(stop, x, t, col) ==
        if x[0] == BS then [BS] + Contract(stop, x[1..], Backed(stop, t1, BackCol(col)), BackCol(col))
        else [x[0]] + Contract(stop, x[1..], t1, col + 1)
  {
  }

  lemma ContractRun(stop: Stops, x: Text, t: int, col: int)
    requires x != [] && x[0] == SP
    ensures var n, t1 := Run(x), OutHead(stop, t, col);
      && n > 0 && x == Spaces(n) + x[n..]
      && Contract(stop, x, t, col) ==
         Blanks(stop, n, t1, col, 0) + Contract(stop, x[n..], After(stop, n, t1, col), col + n)
  {
    var n := Run(x);
    assert x == Spaces(n) + x[n..];
  }

  // The round trip.

  predicate Plain(x: Text) {
    forall i | 0 <= i < |x| :: x[i] != BS && x[i] != TAB
  }

  lemma {:induction false} ExpandPlain(stop: Stops, x: Text, t: int, col: int)
    requires Plain(x)
    ensures Expand(stop, x, t, col) == x
  {
    if x != [] {
      ExpandPlain(stop, x[1..], InHead(stop, t, col), col + 1);
    }
  }

  /** A stop that has been passed without being noticed stops everything. */
  lemma {:induction false} BlanksStuck(stop: Stops, n: nat, t: int, col: int, pending: nat)
    requires stop(t) <= col
    ensures Blanks(stop, n, t, col, pending) == Spaces(pending + n) && After(stop, n, t, col) == t
  {
    if n > 0 {
      BlanksStuck(stop, n - 1, t, col + 1, pending + 1);
    }
  }

  lemma {:induction false} ContractStuck(stop: Stops, x: Text, t: int, col: int)
    requires Plain(x) && stop(t) < col
    ensures Contract(stop, x, t, col) == x
    decreases |x|
  {
    if x != [] {
      hide Contract, Run, After, Blanks;
      if x[0] == SP {
        var n := Run(x);
        ContractRun(stop, x, t, col);
        BlanksStuck(stop, n, t, col, 0);
        ContractStuck(stop, x[n..], t, col + n);
      } else {
        ContractNext(stop, x, t, col);
        ContractStuck(stop, x[1..], t, col + 1);
      }
    }
  }

  /** Blanks before the next stop are read back one by one. */
  lemma {:induction false} ExpandSpaces(stop: Stops, p: nat, tail: Text, t: int, col: int)
    requires stop(t) > col + p - 1
    ensures Expand(stop, Spaces(p) + tail, t, col) == Spaces(p) + Expand(stop, tail, t, col + p)
  {
    if p > 0 {
      assert (Spaces(p) + tail)[1..] == Spaces(p - 1) + tail;
      ExpandSpaces(stop, p - 1, tail, t, col + 1);
      assert [SP] + Spaces(p - 1) == Spaces(p);
      Assoc([SP], Spaces(p - 1), Expand(stop, tail, t, col + p));
    } else {
      assert Spaces(p) + tail == tail;
    }
  }

  lemma Assoc(a: Text, b: Text, c: Text)
    ensures (a + b) + c == a + (b + c)
  {
  }

  lemma SameHead(stop: Stops, y: Text, t: int, t': int, col: int)
    requires InHead(stop, t, col) == InHead(stop, t', col)
    ensures Expand(stop, y, t, col) == Expand(stop, y, t', col)
  {
  }

  lemma ExpandTab(stop: Stops, y: Text, t: int, col: int)
    requires stop(t) > col
    ensures Expand(stop, [TAB] + y, t, col) == Spaces(stop(t) - col) + Expand(stop, y, t + 1, stop(t))
  {
    assert ([TAB] + y)[1..] == y;
  }

  /** Amid a run of blanks, p of which have not come to a stop yet. */
  lemma {:induction false} RunBack(stop: Stops, n: nat, rest: Text, t: int, col: int, p: nat)
    requires Plain(rest) && stop(t) > col
    ensures Expand(stop, Blanks(stop, n, t, col, p) + Contract(stop, rest, After(stop, n, t, col), col + n), t, col - p)
            == Spaces(p + n) + rest
    decreases |rest|, n + 2, 0
  {
    hide Expand, Contract;
    var tail := Contract(stop, rest, After(stop, n, t, col), col + n);
    if n == 0 {
      ExpandSpaces(stop, p, tail, t, col - p);
      RoundTrip(stop, rest, t, col);
    } else if col + 1 == stop(t) {
      var more := Blanks(stop, n - 1, t + 1, col + 1, 0) + tail;
      Assoc([TAB], Blanks(stop, n - 1, t + 1, col + 1, 0), tail);
      ExpandTab(stop, more, t, col - p);
      AfterStop(stop, n - 1, rest, t + 1, col + 1);
      Assoc(Spaces(p + 1), Spaces(n - 1), rest);
      SpacesSum(p + 1, n - 1);
    } else {
      RunBack(stop, n - 1, rest, t, col + 1, p + 1);
    }
  }

  /** At a stop, amid a run of blanks. */
  lemma {:induction false} AfterStop(stop: Stops, n: nat, rest: Text, t: int, col: int)
    requires Plain(rest)
    ensures Expand(stop, Blanks(stop, n, t, col, 0) + Contract(stop, rest, After(stop, n, t, col), col + n), t, col)
            == Spaces(n) + rest
    decreases |rest|, n + 2, 1
  {
    hide Expand, Contract;
    if n == 0 {
      RoundTrip(stop, rest, t, col);
      assert Spaces(0) + rest == rest;
      assert Blanks(stop, 0, t, col, 0) + Contract(stop, rest, t, col) == Contract(stop, rest, t, col);
    } else if stop(t) > col {
      RunBack(stop, n, rest, t, col, 0);
    } else {
      BlanksStuck(stop, n, t, col, 0);
      ContractStuck(stop, rest, t, col + n);
      ExpandPlain(stop, Spaces(n) + rest, t, col);
    }
  }

  /** In step the two read the same stop; otherwise contraction has come to an end. */
  lemma {:induction false} RoundTrip(stop: Stops, x: Text, t: int, col: int)
    requires Plain(x)
    ensures Expand(stop, Contract(stop, x, t, col), t, col) == x
    decreases |x|, 1, 0
  {
    if stop(t) < col {
      ContractStuck(stop, x, t, col);
      ExpandPlain(stop, x, t, col);
    } else if x != [] {
      var t1 := OutHead(stop, t, col);
      if x[0] == SP {
        RunAtFront(stop, x, t, col);
      } else {
        RoundTrip(stop, x[1..], t1, col + 1);
        assert Contract(stop, x, t, col) == [x[0]] + Contract(stop, x[1..], t1, col + 1);
        assert Contract(stop, x, t, col)[1..] == Contract(stop, x[1..], t1, col + 1);
      }
    }
  }

  lemma {:induction false} RunAtFront(stop: Stops, x: Text, t: int, col: int)
    requires Plain(x) && x != [] && x[0] == SP && stop(t) >= col
    ensures Expand(stop, Contract(stop, x, t, col), t, col) == x
    decreases |x|, 0, 0
  {
    hide Expand, Contract, Blanks, After;
    var n, t1 := Run(x), OutHead(stop, t, col);
    ContractRun(stop, x, t, col);
    if stop(t1) > col {
      RunBack(stop, n, x[n..], t1, col, 0);
      SameHead(stop, Contract(stop, x, t, col), t, t1, col);
    } else {
      BlanksStuck(stop, n, t1, col, 0);
      ContractStuck(stop, x[n..], t1, col + n);
      ExpandPlain(stop, x, t, col);
    }
  }
}
