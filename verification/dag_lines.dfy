/** dag's input: its lines, and the names that its reader takes from a line. */
module DagLines {
  import opened Strings

  const NUL := 0
  const NEWLINE := 10
  const BLANK := 32
  const COLON := 58
  const EQUALS := 61

  predicate IsSpace(c: int) {
    c == BLANK || 9 <= c <= 13
  }

  predicate IsName(c: int) {
    97 <= c <= 122 || 65 <= c <= 90 || 48 <= c <= 57 || c == 95
  }

  /** A name: some name characters. */
  predicate IsWord(x: Text) {
    x != [] && forall i | 0 <= i < |x| :: IsName(x[i])
  }

  // Lines.

  /** The length of the first line. */
  function LineEnd(s: seq<int>): (n: nat)
    ensures n <= |s| && NEWLINE !in s[..n] && (n < |s| ==> s[n] == NEWLINE)
  {
    if s == [] || s[0] == NEWLINE then 0
    else
      var n := LineEnd(s[1..]);
      assert s[..n + 1] == [s[0]] + s[1..][..n];
      n + 1
  }

  lemma LineEndIs(s: seq<int>, k: nat)
    requires k <= |s| && NEWLINE !in s[..k] && (k < |s| ==> s[k] == NEWLINE)
    ensures LineEnd(s) == k
  {
    hide *;
    var n := LineEnd(s);
    if n < k {
      NotBefore(s, n, k);
    }
  }

  lemma NotBefore(s: seq<int>, n: nat, k: nat)
    requires n < k <= |s| && NEWLINE !in s[..k]
    ensures s[n] != NEWLINE
  {
    assert s[..k][n] == s[n] && s[..k][n] in s[..k];
  }

  /** The string that characters in memory make up. */
  function UpToNul(s: seq<int>): (t: Text)
    ensures t <= s && NUL !in t && (|t| < |s| ==> s[|t|] == NUL)
  {
    if s == [] || s[0] == NUL then [] else [s[0]] + UpToNul(s[1..])
  }

  /** What is held of a line in a buffer with room for size characters. */
  function Held(s: seq<int>, size: nat): Text {
    UpToNul(if |s| <= size then s else s[..size])
  }

  /** The lines of the input, but for what comes behind the last newline. */
  function Lines(s: seq<int>, size: nat): seq<Text>
    decreases |s|
  {
    var n := LineEnd(s);
    if n == |s| then [] else [Held(s[..n], size)] + Lines(s[n + 1..], size)
  }

  function Joined(ls: seq<Text>): seq<int> {
    if ls == [] then [] else ls[0] + [NEWLINE] + Joined(ls[1..])
  }

  /** Lines that are not too long are read as they have been written; the rest is ignored. */
  lemma {:induction false} LinesJoined(ls: seq<Text>, rest: seq<int>, size: nat)
    requires forall l | l in ls :: |l| <= size && NEWLINE !in l && NUL !in l
    requires NEWLINE !in rest
    ensures Lines(Joined(ls) + rest, size) == ls
  {
    if ls == [] {
      assert Joined(ls) + rest == rest;
      NoLine(rest, size);
    } else {
      LinesJoined(ls[1..], rest, size);
      var s := ls[0] + [NEWLINE] + (Joined(ls[1..]) + rest);
      assert Joined(ls) + rest == s;
      FirstLine(ls[0], Joined(ls[1..]) + rest, size);
      assert ls == [ls[0]] + ls[1..];
    }
  }

  lemma NoLine(rest: seq<int>, size: nat)
    requires NEWLINE !in rest
    ensures Lines(rest, size) == []
  {
    assert rest[..|rest|] == rest;
    LineEndIs(rest, |rest|);
  }

  lemma FirstLine(l: Text, more: seq<int>, size: nat)
    requires |l| <= size && NEWLINE !in l && NUL !in l
    ensures Lines(l + [NEWLINE] + more, size) == [l] + Lines(more, size)
  {
    hide LineEnd, UpToNul;
    var s := l + [NEWLINE] + more;
    assert s[..|l|] == l && s[|l| + 1..] == more;
    LineEndIs(s, |l|);
    AllOfIt(l);
  }

  lemma {:induction false} AllOfIt(l: Text)
    requires NUL !in l
    ensures UpToNul(l) == l
  {
    if l != [] {
      assert l[0] in l && forall c | c in l[1..] :: c in l;
      AllOfIt(l[1..]);
    }
  }

  // The parts of a line.

  function Blanks(t: Text): (k: nat)
    ensures k <= |t|
  {
    if t != [] && IsSpace(t[0]) then Blanks(t[1..]) + 1 else 0
  }

  function NameLen(t: Text): (k: nat)
    ensures k <= |t|
  {
    if t != [] && IsName(t[0]) then NameLen(t[1..]) + 1 else 0
  }

  /** The text behind its leading blanks. */
  function Skip(t: Text): Text {
    t[Blanks(t)..]
  }

  /** The name at the front of a text, which may be empty. */
  function NameOf(t: Text): Text {
    t[..NameLen(t)]
  }

  lemma {:induction false} BlanksAre(t: Text, k: nat)
    requires k <= |t|
    ensures Blanks(t) == k <==> (forall i | 0 <= i < k :: IsSpace(t[i])) && (k < |t| ==> !IsSpace(t[k]))
    decreases |t|
  {
    hide IsSpace;
    if t != [] && IsSpace(t[0]) {
      if k > 0 {
        BlanksAre(t[1..], k - 1);
        assert t[1..][..k - 1] == t[1..k];
      }
    }
  }

  lemma {:induction false} NameLenIs(t: Text, k: nat)
    requires k <= |t|
    ensures NameLen(t) == k <==> (forall i | 0 <= i < k :: IsName(t[i])) && (k < |t| ==> !IsName(t[k]))
    decreases |t|
  {
    hide IsName;
    if t != [] && IsName(t[0]) {
      if k > 0 {
        NameLenIs(t[1..], k - 1);
        assert t[1..][..k - 1] == t[1..k];
      }
    }
  }

  /** "name = text", "name : others", or anything else, which is ignored. */
  datatype Line = Value(name: Text, text: Text) | Refers(name: Text, others: Text) | Other

  function Parse(t: Text): Line {
    var q := Skip(t);
    Tell(NameOf(q), Skip(Behind(q)))
  }

  /** The line of the name x that goes on with r. */
  function Tell(x: Text, r: Text): Line {
    if r == [] then Other
    else if r[0] == EQUALS then Value(x, Skip(r[1..]))
    else if r[0] == COLON then Refers(x, r[1..])
    else Other
  }

  /** What is behind the name at the front. */
  function Behind(q: Text): Text {
    q[NameLen(q)..]
  }

  /** What is left of the text behind a name and the character after it. */
  function Next(q: Text): (r: Text)
    ensures |r| < |q| || r == q == []
  {
    if Behind(q) == [] then [] else Behind(q)[1..]
  }

  /** The strings that the reader enters for the text behind a colon. It puts the NUL behind a name
      when it has entered it, so that each of them runs to the end of the line. */
  function Entered(t: Text): seq<Text>
    decreases |t|
  {
    if t == [] then [] else [Skip(t)] + Entered(Next(Skip(t)))
  }

  /** The names in a text. */
  function Words(t: Text): seq<Text>
    decreases |t|
  {
    if t == [] then []
    else if IsName(t[0]) then [NameOf(t)] + Words(Behind(t))
    else Words(t[1..])
  }

  lemma NameIsWord(t: Text)
    requires t != [] && IsName(t[0])
    ensures IsWord(NameOf(t))
  {
    NameLenIs(t, NameLen(t));
    NameLenIs(t, 0);
  }

  lemma {:induction false} WordsAreNames(t: Text)
    ensures forall x | x in Words(t) :: IsWord(x)
    decreases |t|
  {
    hide IsName, NameOf, IsWord;
    if t != [] {
      if IsName(t[0]) {
        NameIsWord(t);
        WordsAreNames(Behind(t));
      } else {
        WordsAreNames(t[1..]);
      }
    }
  }

  // How texts go on.

  lemma WordStarts(x: Text, more: Text)
    requires IsWord(x)
    ensures x + more != [] && IsName((x + more)[0]) && Skip(x + more) == x + more
  {
    BlanksAre(x + more, 0);
  }

  lemma WordEnds(x: Text, more: Text)
    requires IsWord(x) && (more != [] ==> !IsName(more[0]))
    ensures NameOf(x + more) == x && Behind(x + more) == more
  {
    NameLenIs(x + more, |x|);
  }

  lemma WordFirst(x: Text, more: Text)
    requires IsWord(x) && (more != [] ==> !IsName(more[0]))
    ensures Words(x + more) == [x] + Words(more)
    ensures Entered(x + more) == [x + more] + Entered(if more == [] then [] else more[1..])
  {
    hide IsName, IsWord, Skip, NameOf, Behind;
    WordStarts(x, more);
    WordEnds(x, more);
  }

  lemma SkipNone(t: Text)
    requires t != [] ==> !IsSpace(t[0])
    ensures Skip(t) == t
  {
    BlanksAre(t, 0);
  }

  lemma SkipOne(t: Text)
    ensures Skip([BLANK] + t) == Skip(t) && Words([BLANK] + t) == Words(t)
  {
    hide NameOf, Behind, Words;
    var s := [BLANK] + t;
    assert s[1..] == t;
    assert Blanks(s) == Blanks(t) + 1;
    WordsBehind(s);
  }

  lemma WordsBehind(t: Text)
    requires t != [] && !IsName(t[0])
    ensures Words(t) == Words(t[1..])
  {
  }

  lemma {:induction false} WordsSkip(t: Text)
    ensures Words(t) == Words(Skip(t))
  {
    hide NameOf, Behind, Words;
    if t != [] && IsSpace(t[0]) {
      WordsBehind(t);
      WordsSkip(t[1..]);
      assert Skip(t) == Skip(t[1..]);
    } else {
      SkipNone(t);
    }
  }

  // What is entered.

  /** Blanks and then one name up to the end. */
  predicate OneName(t: Text) {
    IsWord(Skip(t))
  }

  lemma OneEntered(t: Text)
    requires OneName(t)
    ensures Entered(t) == Words(t) == [Skip(t)]
  {
    hide *;
    var q := Skip(t);
    WordSkipped(t);
    WordsSkip(t);
    assert q + [] == q;
    WordFirst(q, []);
    EnteredFirst(t);
    EnteredFirst(q);
    WordStarts(q, []);
    NothingEntered();
  }

  lemma NothingEntered()
    ensures Entered([]) == Words([]) == []
  {
  }

  lemma WordSkipped(t: Text)
    requires OneName(t)
    ensures IsWord(Skip(t)) && t != [] && Skip(t) != []
  {
  }

  lemma EnteredFirst(t: Text)
    requires t != []
    ensures Entered(t) == [Skip(t)] + Entered(Next(Skip(t)))
  {
  }

  /** What is entered are the names in the text if and only if there is at most one, with nothing
      behind it. */
  lemma EnteredAreWords(t: Text)
    ensures Entered(t) == Words(t) <==> t == [] || OneName(t)
    ensures (forall x | x in Entered(t) :: x in Words(t)) <==> t == [] || OneName(t)
  {
    hide *;
    NothingEntered();
    WordsAreNames(t);
    if t != [] {
      EnteredFirst(t);
      assert Entered(t)[0] == Skip(t);
      assert Skip(t) in Entered(t);
      NotAName(t);
      if OneName(t) {
        OneEntered(t);
      }
    }
  }

  lemma NotAName(t: Text)
    ensures OneName(t) <==> IsWord(Skip(t))
  {
  }

  /** What is entered runs to the end of the text. */
  lemma {:induction false} EnteredToEnd(t: Text, k: nat)
    requires k < |Entered(t)|
    ensures |Entered(t)[k]| <= |t| && Entered(t)[k] == t[|t| - |Entered(t)[k]|..]
    decreases |t|
  {
    hide *;
    if t == [] {
      NothingEntered();
    }
    EnteredFirst(t);
    EndsAre(t);
    if k > 0 {
      EnteredToEnd(Next(Skip(t)), k - 1);
    }
  }

  lemma EndsAre(t: Text)
    requires t != []
    ensures |Skip(t)| <= |t| && Skip(t) == t[|t| - |Skip(t)|..]
    ensures var r := Next(Skip(t)); |r| < |t| && r == t[|t| - |r|..]
  {
  }

  /** Of two names the first is entered together with the second. */
  lemma TwoNames(x: Text, y: Text)
    requires IsWord(x) && IsWord(y)
    ensures Words([BLANK] + (x + ([BLANK] + y))) == [x, y]
    ensures Entered([BLANK] + (x + ([BLANK] + y))) == [x + ([BLANK] + y), y]
  {
    hide *;
    var r := [BLANK] + y;
    BlankFirst(y);
    assert r[1..] == y && y + [] == y;
    SkipOne(x + r);
    SkipOne(y);
    WordStarts(x, r);
    WordStarts(y, []);
    WordFirst(x, r);
    WordFirst(y, []);
    EnteredFirst([BLANK] + (x + r));
    EnteredFirst(x + r);
    NothingEntered();
  }

  lemma BlankFirst(t: Text)
    ensures !IsName(([BLANK] + t)[0]) && !IsName(([COLON] + t)[0]) && !IsName(([EQUALS] + t)[0])
    ensures !IsSpace(([COLON] + t)[0]) && !IsSpace(([EQUALS] + t)[0])
  {
  }

  /** "a : b c" makes a refer to "b c". */
  lemma BAndC(b: Text, c: Text, t: Text)
    requires b == [98] && c == [99] && t == [BLANK] + (b + ([BLANK] + c))
    ensures Words(t) == [b, c] && Entered(t) == [b + ([BLANK] + c), c]
  {
    OneLetter(b);
    OneLetter(c);
    hide *;
    TwoNames(b, c);
  }

  lemma OneLetter(x: Text)
    requires |x| == 1 && 97 <= x[0] <= 122
    ensures IsWord(x)
  {
  }

  // Lines as the programs that write dag's input write them.

  lemma ReferenceWritten(x: Text, y: Text)
    requires IsWord(x) && IsWord(y)
    ensures Parse(x + ([BLANK] + ([COLON] + ([BLANK] + y)))) == Refers(x, [BLANK] + y)
    ensures Entered([BLANK] + y) == [y]
  {
    hide *;
    var u := [BLANK] + y;
    LineWritten(x, [COLON] + u);
    BlankFirst(u);
    SkipNone([COLON] + u);
    TellIs(x, u);
    SkipOne(y);
    assert y + [] == y;
    WordStarts(y, []);
    BlankName(y);
    OneEntered(u);
  }

  lemma BlankName(y: Text)
    requires IsWord(y) && Skip([BLANK] + y) == y
    ensures OneName([BLANK] + y)
  {
  }

  lemma LineWritten(x: Text, r: Text)
    requires IsWord(x)
    ensures Parse(x + ([BLANK] + r)) == Tell(x, Skip(r))
  {
    hide IsWord, Skip, NameOf, Behind, Tell;
    BlankFirst(r);
    WordStarts(x, [BLANK] + r);
    WordEnds(x, [BLANK] + r);
    SkipOne(r);
  }

  lemma TellIs(x: Text, r: Text)
    ensures Tell(x, [COLON] + r) == Refers(x, r) && Tell(x, [EQUALS] + r) == Value(x, Skip(r))
  {
    assert ([COLON] + r)[1..] == r && ([EQUALS] + r)[1..] == r;
  }

  /** And a text. */
  lemma ValueWritten(x: Text, v: Text)
    requires IsWord(x) && (v != [] ==> !IsSpace(v[0]))
    ensures Parse(x + ([BLANK] + ([EQUALS] + ([BLANK] + v)))) == Value(x, v)
  {
    hide *;
    var u := [BLANK] + v;
    LineWritten(x, [EQUALS] + u);
    BlankFirst(u);
    SkipNone([EQUALS] + u);
    TellIs(x, u);
    SkipOne(v);
    SkipNone(v);
  }

  // Lines turned round by flip, for the inverted listing.

  function BeforeColon(t: Text): (b: Text)
    ensures b <= t
  {
    if t == [] || t[0] == COLON then [] else [t[0]] + BeforeColon(t[1..])
  }

  /** What flip makes of a line with a colon: what is in front of that goes behind one, as it is. */
  function Flip(t: Text): Text {
    var b := BeforeColon(t);
    (if b == t then [] else Skip(t[|b| + 1..])) + ([BLANK] + ([COLON] + ([BLANK] + b)))
  }

  lemma {:induction false} BeforeIs(b: Text, more: Text)
    requires forall i | 0 <= i < |b| :: b[i] != COLON
    ensures BeforeColon(b + ([COLON] + more)) == b
  {
    var t := b + ([COLON] + more);
    if b != [] {
      BeforeIs(b[1..], more);
      assert t[1..] == b[1..] + ([COLON] + more);
    }
  }

  lemma NoColon(x: Text)
    requires IsWord(x)
    ensures forall i | 0 <= i < |x + [BLANK]| :: (x + [BLANK])[i] != COLON
  {
  }

  lemma Flipped(x: Text, y: Text)
    requires IsWord(x) && IsWord(y)
    ensures Flip(x + ([BLANK] + ([COLON] + ([BLANK] + y)))) ==
      y + ([BLANK] + ([COLON] + ([BLANK] + (x + [BLANK]))))
  {
    hide IsWord, BeforeColon, Skip;
    var b, u := x + [BLANK], [BLANK] + y;
    var t := b + ([COLON] + u);
    assert x + ([BLANK] + ([COLON] + u)) == t;
    NoColon(x);
    BeforeIs(b, u);
    assert t[|b| + 1..] == u && |b| < |t|;
    SkipOne(y);
    assert y + [] == y;
    WordStarts(y, []);
  }

  /** Of a line turned round like that dag enters the second name with the blank behind it, which is
      not the name that the line had. */
  lemma FlippedEntered(x: Text, y: Text)
    requires IsWord(x) && IsWord(y)
    ensures Parse(Flip(x + ([BLANK] + ([COLON] + ([BLANK] + y))))) == Refers(y, [BLANK] + (x + [BLANK]))
    ensures Entered([BLANK] + (x + [BLANK])) == [x + [BLANK]] && x + [BLANK] != x
  {
    hide *;
    Flipped(x, y);
    var u := [BLANK] + (x + [BLANK]);
    LineWritten(y, [COLON] + u);
    BlankFirst(u);
    BlankFirst([]);
    SkipNone([COLON] + u);
    TellIs(y, u);
    SkipOne(x + [BLANK]);
    WordStarts(x, [BLANK]);
    EnteredFirst(u);
    assert [BLANK] + [] == [BLANK];
    WordFirst(x, [BLANK]);
    EnteredFirst(x + [BLANK]);
    NothingEntered();
  }

  // In memory.

  /** At p there is the string t. */
  predicate StringAt(s: seq<int>, p: nat, t: Text) {
    p + |t| < |s| && s[p..p + |t|] == t && s[p + |t|] == NUL && NUL !in t
  }

  lemma StringTail(s: seq<int>, p: nat, t: Text, k: nat)
    requires StringAt(s, p, t) && k <= |t|
    ensures StringAt(s, p + k, t[k..])
    ensures s[p + k] == if k == |t| then NUL else t[k]
  {
    assert s[p + k..p + |t|] == s[p..p + |t|][k..];
    assert forall c | c in t[k..] :: c in t;
    if k < |t| {
      assert s[p + k] == s[p..p + |t|][k];
      assert t[k] in t;
    }
  }

  /** The next line of the input, from i0 on, in a buffer with room for a NUL behind size
      characters: fails when there is no newline any more. */
  method Getst(line: array<int>, inp: seq<int>, i0: nat, size: nat) returns (ok: bool, i: nat)
    requires line.Length == size + 1 && i0 <= |inp|
    modifies line
    ensures ok <==> LineEnd(inp[i0..]) < |inp[i0..]|
    ensures ok ==> i == i0 + LineEnd(inp[i0..]) + 1
    ensures ok ==> StringAt(line[..], 0, Held(inp[i0..][..LineEnd(inp[i0..])], size))
  {
    hide *;
    ghost var s := inp[i0..];
    var n, k := 0, 0;
    while i0 + k < |inp|
      invariant k <= |s| && NEWLINE !in s[..k]
      invariant n == (if k <= size then k else size) && line[..n] == s[..n]
    {
      var c := inp[i0 + k];
      assert c == s[k];
      if c == NEWLINE {
        line[n] := NUL;
        LineEndIs(s, k);
        HeldAt(line[..], s[..k], n);
        return true, i0 + k + 1;
      }
      if n < size {
        line[n] := c;
        n := n + 1;
      }
      k := k + 1;
    }
    LineEndIs(s, k);
    ok, i := false, i0;
  }

  lemma HeldAt(s: seq<int>, l: seq<int>, n: nat)
    requires n < |s| && s[n] == NUL && n <= |l| && s[..n] == l[..n] && (n < |l| ==> n == |s| - 1)
    ensures StringAt(s, 0, Held(l, |s| - 1))
  {
    hide UpToNul;
    var t := UpToNul(l[..n]);
    assert l[..n] == if |l| <= |s| - 1 then l else l[..|s| - 1];
    if |t| < n {
      assert s[|t|] == s[..n][|t|];
    }
  }

  lemma NulIsNeither()
    ensures !IsSpace(NUL) && !IsName(NUL)
  {
  }

  lemma SkipEnds(t: Text, k: nat)
    requires k <= |t| && (forall i | 0 <= i < k :: IsSpace(t[i])) && (k < |t| ==> !IsSpace(t[k]))
    ensures Skip(t) == t[k..]
  {
    BlanksAre(t, k);
  }

  lemma NameEnds(t: Text, k: nat)
    requires k <= |t| && (forall i | 0 <= i < k :: IsName(t[i])) && (k < |t| ==> !IsName(t[k]))
    ensures NameOf(t) == t[..k] && Behind(t) == t[k..]
  {
    NameLenIs(t, k);
  }

  /** Where the blanks end. */
  method SkipBlanks(line: array<int>, p: nat, ghost t: Text) returns (p1: nat)
    requires StringAt(line[..], p, t)
    ensures p1 == p + |t| - |Skip(t)| && StringAt(line[..], p1, Skip(t))
  {
    hide *;
    NulIsNeither();
    p1 := p;
    StringTail(line[..], p, t, 0);
    while IsSpace(line[p1])
      invariant p <= p1 <= p + |t| && forall i | 0 <= i < p1 - p :: IsSpace(t[i])
      invariant line[p1] == if p1 - p == |t| then NUL else t[p1 - p]
      decreases p + |t| - p1
    {
      p1 := p1 + 1;
      StringTail(line[..], p, t, p1 - p);
    }
    SkipEnds(t, p1 - p);
    StringTail(line[..], p, t, p1 - p);
  }

  /** Where the name ends. */
  method SkipName(line: array<int>, p: nat, ghost t: Text) returns (p1: nat)
    requires StringAt(line[..], p, t)
    ensures p1 == p + |NameOf(t)| && StringAt(line[..], p1, Behind(t))
  {
    hide *;
    NulIsNeither();
    p1 := p;
    StringTail(line[..], p, t, 0);
    while IsName(line[p1])
      invariant p <= p1 <= p + |t| && forall i | 0 <= i < p1 - p :: IsName(t[i])
      invariant line[p1] == if p1 - p == |t| then NUL else t[p1 - p]
      decreases p + |t| - p1
    {
      p1 := p1 + 1;
      StringTail(line[..], p, t, p1 - p);
    }
    NameEnds(t, p1 - p);
    StringTail(line[..], p, t, p1 - p);
  }

  /** The string at p. */
  method Copy(line: array<int>, p: nat, ghost t: Text) returns (x: Text)
    requires StringAt(line[..], p, t)
    ensures x == t
  {
    hide StringAt;
    x := [];
    StringTail(line[..], p, t, 0);
    NoNul(line[..], p, t);
    while line[p + |x|] != NUL
      invariant |x| <= |t| && x == t[..|x|]
      invariant p + |x| < line.Length && line[p + |x|] == if |x| == |t| then NUL else t[|x|]
      decreases |t| - |x|
    {
      x := x + [line[p + |x|]];
      StringTail(line[..], p, t, |x|);
    }
  }

  lemma NoNul(s: seq<int>, p: nat, t: Text)
    requires StringAt(s, p, t)
    ensures forall i | 0 <= i < |t| :: t[i] != NUL
  {
  }

  /** What was behind p and before p2 has been cleared, and nothing else. */
  ghost predicate Cleared(s: seq<int>, s': seq<int>, p: nat, p2: nat) {
    |s'| == |s| && p < p2 <= |s| && s'[..p] == s[..p] && s'[p] == NUL && s'[p2..] == s[p2..]
  }

  lemma ClearedFirst(s: seq<int>, p: nat)
    requires p < |s|
    ensures Cleared(s, s[p := NUL], p, p + 1)
  {
  }

  lemma ClearedMore(s: seq<int>, s': seq<int>, p: nat, p2: nat)
    requires Cleared(s, s', p, p2) && p2 < |s|
    ensures |s'| == |s| && s'[p2] == s[p2] && Cleared(s, s'[p2 := NUL], p, p2 + 1)
  {
    assert s'[p2] == s'[p2..][0];
  }

  lemma ClearedIs(s: seq<int>, s': seq<int>, p: nat, p2: nat)
    requires Cleared(s, s', p, p2)
    ensures |s'| == |s| && p < p2 <= |s| && s'[..p] == s[..p] && s'[p] == NUL && s'[p2..] == s[p2..]
  {
  }

  /** Puts NULs behind a name, where the text goes on with r, up to and in place of the first
      character that is not blank. */
  method Cut(line: array<int>, p: nat, ghost r: Text) returns (c: int, p2: nat)
    requires StringAt(line[..], p, r)
    modifies line
    ensures line[..p] == old(line[..p]) && line[p] == NUL
    ensures c == if Skip(r) == [] then NUL else Skip(r)[0]
    ensures Skip(r) != [] ==> StringAt(line[..], p2, Skip(r)[1..])
  {
    hide *;
    NulIsNeither();
    ghost var s := line[..];
    StringTail(s, p, r, 0);
    ClearedFirst(s, p);
    c := line[p];
    line[p] := NUL;
    assert line[..] == s[p := NUL];
    p2 := p + 1;
    ghost var k := 0;
    while IsSpace(c)
      invariant k <= |r| && p2 == p + k + 1 && forall i | 0 <= i < k :: IsSpace(r[i])
      invariant c == if k == |r| then NUL else r[k]
      invariant Cleared(s, line[..], p, p2)
      decreases |r| - k
    {
      k := k + 1;
      StringTail(s, p, r, k);
      ghost var s' := line[..];
      ClearedMore(s, s', p, p2);
      c := line[p2];
      line[p2] := NUL;
      assert line[..] == s'[p2 := NUL];
      p2 := p2 + 1;
    }
    SkipEnds(r, k);
    ClearedIs(s, line[..], p, p2);
    if k < |r| {
      StringTail(s, p, r, k + 1);
      StringStays(s, line[..], p2, r[k + 1..]);
    }
  }

  /** A string before a NUL that has been put at p. */
  lemma StringCut(s: seq<int>, s': seq<int>, p: nat, t: Text, k: nat)
    requires StringAt(s, p, t) && k <= |t| && |s'| == |s| && s'[..p + k] == s[..p + k] && s'[p + k] == NUL
    ensures StringAt(s', p, t[..k])
  {
    assert s'[p..p + k] == s'[..p + k][p..] && s[p..p + k] == s[..p + k][p..];
    assert s[p..p + k] == s[p..p + |t|][..k];
    assert forall c | c in t[..k] :: c in t;
  }

  /** Puts a NUL behind a name and passes it, unless there is one. */
  method StepOver(line: array<int>, p: nat, ghost q: Text) returns (p2: nat)
    requires StringAt(line[..], p, Behind(q))
    modifies line
    ensures StringAt(line[..], p2, Next(q))
  {
    hide *;
    ghost var s := line[..];
    StringTail(s, p, Behind(q), 0);
    NextIs(q);
    p2 := p;
    if line[p] != NUL {
      StringTail(s, p, Behind(q), 1);
      line[p] := NUL;
      p2 := p + 1;
      StringStays(s, line[..], p2, Next(q));
    }
  }

  lemma NextIs(q: Text)
    ensures Next(q) == if Behind(q) == [] then [] else Behind(q)[1..]
  {
  }

  lemma StringStays(s: seq<int>, s': seq<int>, p: nat, t: Text)
    requires StringAt(s, p, t) && |s'| == |s| && s'[p..] == s[p..]
    ensures StringAt(s', p, t)
  {
    assert s'[p..p + |t|] == s'[p..][..|t|] && s[p..p + |t|] == s[p..][..|t|];
    assert s'[p + |t|] == s'[p..][|t|] && s[p + |t|] == s[p..][|t|];
  }
}
