/** col's page: a ring of half-lines that must behave like a sheet of paper without end, as long as
    nothing goes back further than the ring is long. */
module ColPage {
  import opened Arith

  type Text = seq<int>

  datatype Option<T> = None | Some(value: T)

  // Moves of the print head over the current line's text: the commands that main decodes.
  datatype Command = Forward | Back | Edit(text: Text)

  // The paper.

  /** What is on the paper, line by line; where the head is, and where it has been farthest down; and
      the text of the line it is on. */
  datatype Paper = Paper(lines: map<nat, Text>, ll: nat, llh: nat, cur: Text)

  function LineOf(lines: map<nat, Text>, l: nat): Text {
    if l in lines then lines[l] else []
  }

  function Max(a: int, b: int): int {
    if a < b then b else a
  }

  /** One command; the head cannot go back above the last pl lines. */
  function Step(p: Paper, pl: nat, c: Command): Paper {
    match c
    case Forward =>
      var lines := p.lines[p.ll := p.cur];
      Paper(lines, p.ll + 1, Max(p.llh, p.ll + 1), LineOf(lines, p.ll + 1))
    case Back =>
      if p.ll > 0 && p.ll > p.llh + 1 - pl then
        var lines := p.lines[p.ll := p.cur];
        Paper(lines, p.ll - 1, p.llh, LineOf(lines, p.ll - 1))
      else p
    case Edit(text) => p.(cur := text)
  }

  function Steps(pl: nat, cs: seq<Command>): Paper {
    if cs == [] then Paper(map[], 0, 0, [])
    else Step(Steps(pl, cs[..|cs| - 1]), pl, cs[|cs| - 1])
  }

  // A text on a line.
  datatype Print = Print(line: int, text: Text)

  /** The lines above n that are not blank, in order. */
  function Above(lines: map<nat, Text>, n: nat): seq<Print> {
    if n == 0 then []
    else Above(lines, n - 1) + if LineOf(lines, n - 1) != [] then [Print(n - 1, lines[n - 1])] else []
  }

  // The output: two kinds of downward movement, and texts.
  datatype Out = Newline | HalfLine | Text(text: Text)

  function Down(o: Out): int {
    match o
    case Newline => 2
    case HalfLine => 1
    case Text(_) => 0
  }

  function Mark(o: Out, line: int): seq<Print> {
    match o
    case Text(t) => [Print(line, t)]
    case _ => []
  }

  /** The line on which the output leaves the cursor. */
  function Cursor(out: seq<Out>): int {
    if out == [] then 0 else Cursor(out[..|out| - 1]) + Down(out[|out| - 1])
  }

  /** The texts in the output, with the lines they land on. */
  function Printed(out: seq<Out>): seq<Print> {
    if out == [] then [] else Printed(out[..|out| - 1]) + Mark(out[|out| - 1], Cursor(out[..|out| - 1]))
  }

  lemma OutSnoc(out: seq<Out>, o: Out)
    ensures Cursor(out + [o]) == Cursor(out) + Down(o) && Printed(out + [o]) == Printed(out) + Mark(o, Cursor(out))
  {
    assert (out + [o])[..|out|] == out;
  }

  /** Within a stretch of n lines no two share a slot. */
  lemma SlotsDiffer(a: nat, b: nat, n: nat)
    requires n > 0 && a < b < a + n
    ensures a % n != b % n
  {
    DivMod(a, n);
    DivMod(b, n);
    if b / n <= a / n {
      MulMono(b / n, a / n, n);
    } else {
      MulMono(a / n + 1, b / n, n);
      MulStep(a / n, n);
    }
  }

  lemma SlotAgain(a: nat, n: nat)
    requires n > 0
    ensures (a + n) % n == a % n
  {
    DivMod(a, n);
    MulStep(a / n, n);
    DivisionUnique(n, a / n + 1, a % n);
  }

  /** Changing a line does not change those above. */
  lemma {:induction false} AboveSame(lines: map<nat, Text>, l: nat, t: Text, n: nat)
    requires n <= l
    ensures Above(lines[l := t], n) == Above(lines, n)
  {
    if n > 0 {
      AboveSame(lines, l, t, n - 1);
    }
  }

  /** The lines come each once, as they were left, in order. */
  lemma {:induction false} AboveHas(lines: map<nat, Text>, n: nat)
    ensures forall p: Print :: p in Above(lines, n) <==>
      0 <= p.line < n && p.line in lines && lines[p.line] == p.text && p.text != []
    ensures forall i, j | 0 <= i < j < |Above(lines, n)| :: Above(lines, n)[i].line < Above(lines, n)[j].line
  {
    if n > 0 {
      AboveHas(lines, n - 1);
      var before := Above(lines, n - 1);
      assert forall i | 0 <= i < |before| :: before[i] in before;
    }
  }

  // The sheet, from the commands alone.

  /** Where the head is, and where it has been farthest down. */
  datatype Head = Head(at: nat, far: nat)

  /** The moves among the first i commands, counted: one line down for each Forward, one up for each
      Back, but not above the first line, nor above the last pl down to the farthest. */
  function HeadAt(pl: nat, cs: seq<Command>, i: nat): (h: Head)
    requires i <= |cs|
  {
    if i == 0 then Head(0, 0)
    else
      var h := HeadAt(pl, cs, i - 1);
      match cs[i - 1]
      case Forward => if h.at == h.far then Head(h.at + 1, h.at + 1) else Head(h.at + 1, h.far)
      case Back => if h.at > 0 && h.far < h.at + pl - 1 then Head(h.at - 1, h.far) else h
      case Edit(_) => h
  }

  /** Command j gave line l its text. */
  predicate Wrote(pl: nat, cs: seq<Command>, l: nat, j: nat) {
    j < |cs| && cs[j].Edit? && HeadAt(pl, cs, j).at == l
  }

  /** Command m took the head off line l. */
  predicate Left(pl: nat, cs: seq<Command>, l: nat, m: nat) {
    m < |cs| && HeadAt(pl, cs, m).at == l && HeadAt(pl, cs, m + 1).at != l
  }

  /** Before command m, line l has the text t: that of the last command that gave it one, or none. */
  ghost predicate Has(pl: nat, cs: seq<Command>, l: nat, m: nat, t: Text) {
    if exists j: nat :: j < m && Wrote(pl, cs, l, j) then
      exists j: nat :: j < m && Wrote(pl, cs, l, j) && cs[j].text == t && LastWrote(pl, cs, l, j, m)
    else t == []
  }

  predicate LastWrote(pl: nat, cs: seq<Command>, l: nat, j: nat, m: nat) {
    forall k: nat | j < k < m :: !Wrote(pl, cs, l, k)
  }

  predicate LastLeft(pl: nat, cs: seq<Command>, l: nat, m: nat, n: nat) {
    forall k: nat | m < k < n :: !Left(pl, cs, l, k)
  }

  /** Line l was left for the last time, among the first n commands, with the text t. */
  ghost predicate LeftWith(pl: nat, cs: seq<Command>, l: nat, n: nat, t: Text) {
    exists m: nat :: m < n && Left(pl, cs, l, m) && LastLeft(pl, cs, l, m, n) && Has(pl, cs, l, m, t)
  }

  // The same, one command after the other.

  function TextAt(pl: nat, cs: seq<Command>, l: nat, i: nat): Text
    requires i <= |cs|
  {
    if i == 0 then []
    else if Wrote(pl, cs, l, i - 1) then cs[i - 1].text
    else TextAt(pl, cs, l, i - 1)
  }

  function LeftText(pl: nat, cs: seq<Command>, l: nat, i: nat): Option<Text>
    requires i <= |cs|
  {
    if i == 0 then None
    else if Left(pl, cs, l, i - 1) then Some(TextAt(pl, cs, l, i - 1))
    else LeftText(pl, cs, l, i - 1)
  }

  lemma {:induction false} TextAtIs(pl: nat, cs: seq<Command>, l: nat, i: nat)
    requires i <= |cs|
    ensures Has(pl, cs, l, i, TextAt(pl, cs, l, i))
    ensures forall t | Has(pl, cs, l, i, t) :: t == TextAt(pl, cs, l, i)
  {
    hide Wrote;
    if i > 0 {
      TextAtIs(pl, cs, l, i - 1);
      if Wrote(pl, cs, l, i - 1) {
        assert LastWrote(pl, cs, l, i - 1, i);
      } else {
        HasKept(pl, cs, l, i - 1);
      }
    }
  }

  lemma HasKept(pl: nat, cs: seq<Command>, l: nat, i: nat)
    requires i < |cs| && !Wrote(pl, cs, l, i)
    ensures forall t :: Has(pl, cs, l, i, t) <==> Has(pl, cs, l, i + 1, t)
  {
    hide Wrote;
    forall j: nat | j < i && Wrote(pl, cs, l, j)
      ensures LastWrote(pl, cs, l, j, i) <==> LastWrote(pl, cs, l, j, i + 1)
    {
    }
    assert forall j: nat | j < i + 1 && Wrote(pl, cs, l, j) :: j < i;
    assert (exists j: nat :: j < i && Wrote(pl, cs, l, j)) <==> (exists j: nat :: j < i + 1 && Wrote(pl, cs, l, j));
  }

  lemma {:induction false} LeftTextIs(pl: nat, cs: seq<Command>, l: nat, i: nat)
    requires i <= |cs|
    ensures forall t :: LeftWith(pl, cs, l, i, t) <==> LeftText(pl, cs, l, i) == Some(t)
  {
    hide Left, Has, TextAt;
    if i > 0 {
      LeftTextIs(pl, cs, l, i - 1);
      TextAtIs(pl, cs, l, i - 1);
      if Left(pl, cs, l, i - 1) {
        assert LastLeft(pl, cs, l, i - 1, i);
        assert forall m: nat | m < i - 1 :: !LastLeft(pl, cs, l, m, i);
      } else {
        forall m: nat | m < i - 1
          ensures LastLeft(pl, cs, l, m, i - 1) <==> LastLeft(pl, cs, l, m, i)
        {
        }
      }
    }
  }

  /** The paper after the first i commands is the sheet. */
  ghost predicate Sheet(pl: nat, cs: seq<Command>, i: nat, p: Paper)
    requires i <= |cs|
  {
    && HeadAt(pl, cs, i) == Head(p.ll, p.llh) && p.cur == TextAt(pl, cs, p.ll, i)
    && (forall l: nat | l != p.ll :: LineOf(p.lines, l) == TextAt(pl, cs, l, i))
    && (forall l: nat :: LeftText(pl, cs, l, i) == if l in p.lines then Some(p.lines[l]) else None)
    && (forall l | l in p.lines :: l <= p.llh)
  }

  lemma HeadPrefix(pl: nat, cs: seq<Command>, i: nat)
    requires i < |cs|
    ensures HeadAt(pl, cs, i + 1) == var h := HeadAt(pl, cs, i);
      match cs[i]
      case Forward => if h.at == h.far then Head(h.at + 1, h.at + 1) else Head(h.at + 1, h.far)
      case Back => if h.at > 0 && h.far < h.at + pl - 1 then Head(h.at - 1, h.far) else h
      case Edit(_) => h
  {
  }

  lemma {:induction false} HeadBounds(pl: nat, cs: seq<Command>, i: nat)
    requires i <= |cs|
    ensures HeadAt(pl, cs, i).at <= HeadAt(pl, cs, i).far
  {
    if i > 0 {
      HeadBounds(pl, cs, i - 1);
    }
  }

  /** One command more. */
  lemma SheetNext(pl: nat, cs: seq<Command>, i: nat, p: Paper)
    requires i < |cs| && Sheet(pl, cs, i, p)
    ensures Sheet(pl, cs, i + 1, Step(p, pl, cs[i]))
  {
    hide HeadAt;
    HeadPrefix(pl, cs, i);
    HeadBounds(pl, cs, i);
    var q := Step(p, pl, cs[i]);
    forall l: nat
      ensures TextAt(pl, cs, l, i + 1) == if cs[i].Edit? && l == p.ll then cs[i].text else TextAt(pl, cs, l, i)
      ensures LeftText(pl, cs, l, i + 1) ==
        if l == p.ll && q.ll != p.ll then Some(TextAt(pl, cs, l, i)) else LeftText(pl, cs, l, i)
    {
    }
    hide Wrote, Left, TextAt, LeftText;
    match cs[i]
    case Edit(_) =>
    case _ =>
      if q.ll != p.ll {
        assert q.lines == p.lines[p.ll := p.cur];
      }
  }

  lemma {:induction false} StepsSheet(pl: nat, cs: seq<Command>, i: nat)
    requires i <= |cs|
    ensures Sheet(pl, cs, i, Steps(pl, cs[..i]))
  {
    hide Sheet, Step;
    if i == 0 {
      NoSheet(pl, cs);
    } else {
      StepsSheet(pl, cs, i - 1);
      SheetNext(pl, cs, i - 1, Steps(pl, cs[..i - 1]));
      StepsNext(pl, cs, i - 1);
    }
  }

  lemma NoSheet(pl: nat, cs: seq<Command>)
    ensures Sheet(pl, cs, 0, Steps(pl, cs[..0]))
  {
  }

  /** What is printed: each line that has a text when it is left for the last time, once and in order,
      and at the end a blank that brings the cursor to the last full line. */
  ghost predicate Shows(pl: nat, cs: seq<Command>, ps: seq<Print>) {
    && ps != [] && ps[|ps| - 1] == Print((HeadAt(pl, cs, |cs|).far + 1) / 2 * 2, [32])
    && (forall l: nat, t :: Print(l, t) in ps[..|ps| - 1] <==> t != [] && LeftWith(pl, cs, l, |cs|, t))
    && (forall i, j | 0 <= i < j < |ps| - 1 :: 0 <= ps[i].line < ps[j].line)
  }

  lemma SheetPrinted(pl: nat, cs: seq<Command>, ps: seq<Print>)
    requires var p := Steps(pl, cs); ps == Above(p.lines, p.llh + 1) + [Print((p.llh + 1) / 2 * 2, [32])]
    ensures Shows(pl, cs, ps)
  {
    hide LeftWith, LeftText, HeadAt, Steps, TextAt, Above;
    var p := Steps(pl, cs);
    assert cs[..|cs|] == cs;
    StepsSheet(pl, cs, |cs|);
    AboveHas(p.lines, p.llh + 1);
    assert ps[..|ps| - 1] == Above(p.lines, p.llh + 1);
    forall l: nat, t
      ensures Print(l, t) in Above(p.lines, p.llh + 1) <==> t != [] && LeftWith(pl, cs, l, |cs|, t)
    {
      LeftTextIs(pl, cs, l, |cs|);
    }
    forall i | 0 <= i < |ps| - 1
      ensures ps[i].line >= 0
    {
      assert ps[i] in Above(p.lines, p.llh + 1);
    }
  }

  class Col {
    const pl: nat
    const page: array<Option<Text>>
    var lbuff: Text
    var ll: nat
    var llh: nat
    var mustwr: nat
    var cline: int
    var out: seq<Out>

    constructor (pl: nat)
      requires pl > 0
      ensures this.pl == pl && fresh(page) && Holds(Paper(map[], 0, 0, []))
    {
      this.pl := pl;
      page := new Option<Text>[pl](_ => None);
      lbuff, ll, llh, mustwr, cline, out := [], 0, 0, pl, 0, [];
    }

    /** The ring holds the last pl lines of the paper, and those above are in the output. */
    ghost predicate Holds(p: Paper)
      reads this, page
    {
      && page.Length == pl > 0 && ll == p.ll && llh == p.llh && lbuff == p.cur
      && mustwr == Max(pl, llh + 1) && mustwr - pl <= ll < mustwr && ll <= llh && cline <= llh
      && Ring(p.lines) && Output(p.lines)
      && (forall l | l in p.lines :: l <= llh) && forall l: nat | l < llh :: l in p.lines
    }

    ghost predicate Ring(lines: map<nat, Text>)
      reads this`mustwr, page
    {
      page.Length == pl > 0 && mustwr >= pl &&
      forall l: nat | mustwr - pl <= l < mustwr :: page[l % pl] == if l in lines then Some(lines[l]) else None
    }

    /** Every line above has been left for good; the cursor is on the last that was printed. */
    ghost predicate Output(lines: map<nat, Text>)
      reads this`out, this`cline, this`mustwr
    {
      mustwr >= pl && Printed(out) == Above(lines, mustwr - pl) && Cursor(out) == cline <= mustwr - pl
    }

    /** emit: moves down to the line and prints the text, if it has any. */
    method Emit(s: Text, lineno: int)
      requires Cursor(out) == cline <= lineno
      modifies this`out, this`cline
      ensures Cursor(out) == cline == if s == [] then old(cline) else lineno
      ensures Printed(out) == old(Printed(out)) + if s == [] then [] else [Print(lineno, s)]
    {
      hide Cursor, Printed;
      if s != [] {
        while cline < lineno - 1
          invariant Cursor(out) == cline <= lineno && Printed(out) == old(Printed(out))
        {
          OutSnoc(out, Newline);
          out := out + [Newline];
          cline := cline + 2;
        }
        if cline != lineno {
          OutSnoc(out, HalfLine);
          out := out + [HalfLine];
          cline := cline + 1;
        }
        OutSnoc(out, Out.Text(s));
        out := out + [Out.Text(s)];
      }
    }

    /** store: the current line goes into its slot. */
    method Store(lno: nat, ghost lines: map<nat, Text>)
      requires Ring(lines) && mustwr - pl <= lno < mustwr
      modifies page
      ensures Ring(lines[lno := lbuff])
    {
      page[lno % pl] := Some(lbuff);
      forall l: nat | mustwr - pl <= l < mustwr && l != lno
        ensures l % pl != lno % pl
      {
        if l < lno {
          SlotsDiffer(l, lno, pl);
        } else {
          SlotsDiffer(lno, l, pl);
        }
      }
    }

    /** fetch: the line in the slot becomes the current one. */
    method Fetch(lno: nat, ghost lines: map<nat, Text>)
      requires Ring(lines) && mustwr - pl <= lno < mustwr
      modifies this`lbuff
      ensures lbuff == LineOf(lines, lno)
    {
      lbuff := match page[lno % pl] case None => [] case Some(t) => t;
    }

    /** The slot of the first line of the ring is given to the line after the last. */
    method Slide(ghost lines: map<nat, Text>)
      requires Ring(lines) && Output(lines) && ll == mustwr && mustwr !in lines && mustwr - pl in lines
      modifies this`out, this`cline, this`mustwr, page
      ensures Ring(lines) && Output(lines) && mustwr == old(mustwr) + 1 && (cline == old(cline) || cline == ll - pl)
    {
      hide Cursor, Printed, Above, Output;
      SlotAgain(mustwr - pl, pl);
      if page[ll % pl].Some? {
        EmitFirst(lines);
        page[ll % pl] := None;
        Vacated();
      }
    }

    /** The first line of the ring is printed and leaves it. */
    method EmitFirst(ghost lines: map<nat, Text>)
      requires Ring(lines) && Output(lines) && ll == mustwr && mustwr - pl in lines && ll % pl == (mustwr - pl) % pl
      modifies this`out, this`cline, this`mustwr
      ensures Output(lines) && mustwr == old(mustwr) + 1 && (cline == old(cline) || cline == ll - pl)
    {
      hide Cursor, Printed, Above;
      ghost var first := mustwr - pl;
      Emit(page[ll % pl].value, ll - pl);
      NextAbove(lines, first);
      mustwr := mustwr + 1;
    }

    lemma Vacated()
      requires ll >= pl > 0
      ensures forall l: nat | ll - pl < l < ll :: l % pl != ll % pl
    {
      forall l: nat | ll - pl < l < ll
        ensures l % pl != ll % pl
      {
        SlotsDiffer(l, ll, pl);
      }
    }

    static lemma NextAbove(lines: map<nat, Text>, n: nat)
      ensures Above(lines, n + 1) == Above(lines, n) + if LineOf(lines, n) != [] then [Print(n, lines[n])] else []
    {
    }

    /** incr: one half-line forward. */
    method Incr(ghost p: Paper)
      requires Holds(p)
      modifies this`lbuff, this`ll, this`llh, this`mustwr, this`cline, this`out, page
      ensures Holds(Step(p, pl, Forward))
    {
      hide Cursor, Printed, Above, Ring, Output;
      ghost var lines := p.lines[p.ll := p.cur];
      OutputKept(p.lines, ll, lbuff);
      Store(ll, p.lines);
      ll := ll + 1;
      if ll > llh {
        llh := ll;
      }
      if ll >= mustwr {
        Slide(lines);
      }
      Fetch(ll, lines);
    }

    lemma OutputKept(lines: map<nat, Text>, l: nat, t: Text)
      requires Output(lines) && mustwr - pl <= l
      ensures Output(lines[l := t])
    {
      AboveSame(lines, l, t, mustwr - pl);
    }

    /** decr: one half-line back, if that is still in the ring. */
    method Decr(ghost p: Paper)
      requires Holds(p)
      modifies this`lbuff, this`ll, page
      ensures Holds(Step(p, pl, Back))
    {
      hide Cursor, Printed, Above, Ring, Output;
      if ll > mustwr - pl {
        OutputKept(p.lines, ll, lbuff);
        Store(ll, p.lines);
        ll := ll - 1;
        Fetch(ll, p.lines[p.ll := p.cur]);
      }
    }

    /** The main loop: the paper follows the commands. */
    method Obey(cs: seq<Command>)
      requires Holds(Steps(pl, []))
      modifies this`lbuff, this`ll, this`llh, this`mustwr, this`cline, this`out, page
      ensures Holds(Steps(pl, cs))
    {
      hide Holds, Step;
      var i := 0;
      assert cs[..0] == [];
      while i < |cs|
        invariant 0 <= i <= |cs| && Holds(Steps(pl, cs[..i]))
      {
        ghost var p := Steps(pl, cs[..i]);
        StepsNext(pl, cs, i);
        match cs[i] {
          case Forward => Incr(p);
          case Back => Decr(p);
          case Edit(text) => Outc(p, text);
        }
        i := i + 1;
      }
      assert cs[..i] == cs;
    }

    /** outc, taken as a whole: the current line gets a new text. */
    method Outc(ghost p: Paper, text: Text)
      requires Holds(p)
      modifies this`lbuff
      ensures Holds(Step(p, pl, Edit(text)))
    {
      hide Cursor, Printed, Above, Ring, Output;
      lbuff := text;
    }

    /** The end of the input: the ring is emptied from its oldest line on, and the cursor is moved to
        the end of the page. */
    method Drain(ghost p: Paper)
      requires Holds(p)
      modifies this`cline, this`out
      ensures Printed(out) == Above(p.lines, llh + 1) + [Print((llh + 1) / 2 * 2, [32])]
      ensures Cursor(out) == (llh + 1) / 2 * 2
    {
      hide Cursor, Printed, Above;
      ghost var first := mustwr - pl;
      for i := 0 to pl
        invariant Ring(p.lines) && Cursor(out) == cline <= llh && cline <= first + i
        invariant Printed(out) == Above(p.lines, first + i)
      {
        DrainSlot(i);
        NextAbove(p.lines, first + i);
        if page[(mustwr + i) % pl].Some? {
          assert first + i <= llh;
          Emit(page[(mustwr + i) % pl].value, mustwr + i - pl);
        }
      }
      AboveAll(p.lines, llh + 1, mustwr);
      Emit([32], (llh + 1) / 2 * 2);
    }

    lemma DrainSlot(i: nat)
      requires mustwr >= pl > 0
      ensures (mustwr + i) % pl == (mustwr - pl + i) % pl
    {
      SlotAgain(mustwr - pl + i, pl);
    }

    /** The whole run: every line is printed once, as it was last left, in order, and the cursor ends
        below the lowest. */
    method Run(cs: seq<Command>)
      requires Holds(Steps(pl, []))
      modifies this`lbuff, this`ll, this`llh, this`mustwr, this`cline, this`out, page
      ensures Printed(out) == Above(Steps(pl, cs).lines, Steps(pl, cs).llh + 1) +
                [Print((Steps(pl, cs).llh + 1) / 2 * 2, [32])]
      ensures Cursor(out) == (Steps(pl, cs).llh + 1) / 2 * 2
      ensures Shows(pl, cs, Printed(out))
    {
      hide Cursor, Printed, Above, Steps, Step, Shows;
      Obey(cs);
      Drain(Steps(pl, cs));
      SheetPrinted(pl, cs, Printed(out));
    }
  }

  lemma StepsNext(pl: nat, cs: seq<Command>, i: nat)
    requires i < |cs|
    ensures Steps(pl, cs[..i + 1]) == Step(Steps(pl, cs[..i]), pl, cs[i])
  {
    assert cs[..i + 1][..i] == cs[..i];
  }

  /** Beyond the last line there is nothing. */
  lemma {:induction false} AboveAll(lines: map<nat, Text>, n: nat, m: nat)
    requires n <= m && forall l | l in lines :: l < n
    ensures Above(lines, n) == Above(lines, m)
  {
    if n < m {
      AboveAll(lines, n, m - 1);
    }
  }
}
