/** tar's search for a name in its sorted file of names: a binary search by position, through a
    window, over lines of any length. */
module TarLookup {
  import opened Strings

  const NEWLINE := 10
  const SPACE := 32

  type File = seq<int>

  /** The file has a line that begins after position p, where a newline is. */
  predicate IsLine(f: File, p: int) {
    0 <= p < |f| - 1 && f[p] == NEWLINE
  }

  /** The characters from i up to the next blank. */
  function Name(f: File, i: nat): (s: Text)
    requires i <= |f|
    ensures i + |s| <= |f| && f[i..i + |s|] == s && SPACE !in s && (i + |s| < |f| ==> f[i + |s|] == SPACE)
    decreases |f| - i
  {
    if i == |f| || f[i] == SPACE then [] else [f[i]] + Name(f, i + 1)
  }

  /** The name on the line after p. */
  function Field(f: File, p: int): Text
    requires IsLine(f, p)
  {
    Name(f, p + 1)
  }

  /** There is a newline within n characters from anywhere. */
  ghost predicate Short(f: File, n: nat) {
    forall i | 0 <= i < |f| :: NewlineNear(f, i, n)
  }

  ghost predicate NewlineNear(f: File, i: nat, n: nat) {
    exists p | i <= p < i + n && p < |f| :: f[p] == NEWLINE
  }

  /** Every line but the first begins with a name and a blank. */
  ghost predicate Named(f: File) {
    forall p | IsLine(f, p) :: p + 1 + |Field(f, p)| < |f| && NEWLINE !in Field(f, p)
  }

  ghost predicate Sorted(f: File) {
    forall p, q | IsLine(f, p) && IsLine(f, q) && p < q :: Cmp(Field(f, p), Field(f, q)) <= 0
  }

  /** A name to look for. */
  predicate NameOk(s: Text) {
    s != [] && forall c | c in s :: c > SPACE
  }

  /** The line after p is the one. */
  ghost predicate Hit(f: File, s: Text, p: int) {
    IsLine(f, p) && Field(f, p) == s
  }

  // A file made of names and what comes with them.

  datatype Entry = Entry(name: Text, rest: Text)

  function Listing(es: seq<Entry>): File {
    if es == [] then [] else Listing(es[..|es| - 1]) + Written(es[|es| - 1])
  }

  /** A name, a blank, and the rest of the line. */
  function Written(e: Entry): seq<int> {
    e.name + ([' ' as int] + (e.rest + ['\n' as int]))
  }

  predicate Lawful(e: Entry) {
    ' ' as int !in e.name && '\n' as int !in e.name && '\n' as int !in e.rest
  }

  lemma {:induction false} ListingPrefix(es: seq<Entry>, i: nat)
    requires i <= |es|
    ensures Listing(es[..i]) <= Listing(es)
  {
    if i < |es| {
      ListingPrefix(es[..|es| - 1], i);
      assert es[..|es| - 1][..i] == es[..i];
    } else {
      assert es[..i] == es;
    }
  }

  /** A name ends at the first blank. */
  lemma {:induction false} NameIs(f: File, i: nat, x: Text)
    requires ' ' as int !in x && i + |x| < |f| && f[i..i + |x|] == x && f[i + |x|] == ' ' as int
    ensures Name(f, i) == x
    decreases |x|
  {
    if x != [] {
      assert f[i] == f[i..i + |x|][0] && x[0] in x && forall c | c in x[1..] :: c in x;
      assert f[i + 1..i + 1 + |x[1..]|] == f[i..i + |x|][1..];
      NameIs(f, i + 1, x[1..]);
    }
  }

  lemma WrittenEnds(e: Entry)
    ensures var w := Written(e);
      && |w| == |e.name| + |e.rest| + 2 && w[|w| - 1] == '\n' as int
      && w[..|e.name|] == e.name && w[|e.name|] == ' ' as int
    ensures Lawful(e) ==> forall k | 0 <= k < |Written(e)| - 1 :: Written(e)[k] != '\n' as int
  {
    var w, n := Written(e), |e.name|;
    forall k | 0 <= k < |w| - 1 && Lawful(e)
      ensures w[k] != '\n' as int
    {
      if k < n {
        assert w[k] == e.name[k] && e.name[k] in e.name;
      } else if k > n {
        assert w[k] == e.rest[k - n - 1] && e.rest[k - n - 1] in e.rest;
      }
    }
  }

  /** Entry i begins behind the newline of the one before, and its name is found there. */
  lemma EntryThere(es: seq<Entry>, i: nat)
    requires 1 <= i < |es| && Lawful(es[i])
    ensures var p := |Listing(es[..i])| - 1; IsLine(Listing(es), p) && Field(Listing(es), p) == es[i].name
  {
    hide Written, Name;
    var f, g, w := Listing(es), Listing(es[..i]), Written(es[i]);
    var x := es[i].name;
    ListingPrefix(es, i);
    ListingPrefix(es, i + 1);
    assert es[..i + 1][..i] == es[..i] && es[..i][..i - 1] == es[..i - 1];
    WrittenEnds(es[i - 1]);
    WrittenEnds(es[i]);
    hide Listing;
    assert g + w == Listing(es[..i + 1]) by {
      LastWritten(es[..i + 1]);
    }
    LastWritten(es[..i]);
    EntryAt(f, g, w, x);
  }

  lemma LastWritten(es: seq<Entry>)
    requires es != []
    ensures Listing(es) == Listing(es[..|es| - 1]) + Written(es[|es| - 1])
    ensures Listing(es) != [] && Listing(es)[|Listing(es)| - 1] == '\n' as int
  {
    WrittenEnds(es[|es| - 1]);
    hide Written;
  }

  lemma EntryAt(f: File, g: File, w: seq<int>, x: Text)
    requires g + w <= f && g != [] && g[|g| - 1] == '\n' as int
    requires |x| + 1 < |w| && w[..|x|] == x && w[|x|] == ' ' as int
    requires ' ' as int !in x
    ensures IsLine(f, |g| - 1) && Field(f, |g| - 1) == x
  {
    hide Name;
    assert f[|g| - 1] == (g + w)[|g| - 1] && f[|g| + |x|] == (g + w)[|g| + |x|];
    assert f[|g|..|g| + |x|] == (g + w)[|g|..|g| + |x|] == w[..|x|];
    NameIs(f, |g|, x);
  }

  /** There are no lines but those of the entries. */
  lemma {:induction false} LinesAreEntries(es: seq<Entry>, p: int)
    requires IsLine(Listing(es), p) && forall e | e in es :: Lawful(e)
    ensures exists i :: 1 <= i < |es| && p == |Listing(es[..i])| - 1
  {
    hide Written;
    var n := |es| - 1;
    var g := Listing(es[..n]);
    assert es[n] in es;
    WrittenEnds(es[n]);
    if p < |g| - 1 {
      LinesAreEntries(es[..n], p);
      var i :| 1 <= i < n && p == |Listing(es[..n][..i])| - 1;
      assert es[..n][..i] == es[..i];
    }
  }

  /** A name is found in a file of entries where one of them, but the first, has it. */
  lemma HitIsEntry(es: seq<Entry>, s: Text, p: int)
    requires forall e | e in es :: Lawful(e)
    ensures Hit(Listing(es), s, p) <==>
      exists i :: 1 <= i < |es| && es[i].name == s && p == |Listing(es[..i])| - 1
  {
    hide Listing, IsLine, Name;
    if Hit(Listing(es), s, p) {
      LinesAreEntries(es, p);
      var i :| 1 <= i < |es| && p == |Listing(es[..i])| - 1;
      assert es[i] in es;
      EntryThere(es, i);
    }
    if i :| 1 <= i < |es| && es[i].name == s && p == |Listing(es[..i])| - 1 {
      assert es[i] in es;
      EntryThere(es, i);
    }
  }

  /** The order of strings is decided where they first differ. */
  lemma {:induction false} CmpAt(a: Text, b: Text, i: nat)
    requires i <= |a| && i <= |b| && a[..i] == b[..i]
    ensures i == |a| == |b| ==> Cmp(a, b) == 0
    ensures i == |a| < |b| ==> Cmp(a, b) < 0
    ensures i == |b| < |a| ==> Cmp(a, b) > 0
    ensures i < |a| && i < |b| && a[i] < b[i] ==> Cmp(a, b) < 0
    ensures i < |a| && i < |b| && a[i] > b[i] ==> Cmp(a, b) > 0
  {
    if i > 0 {
      assert a[..i][0] == b[..i][0];
      assert a[..i][1..] == a[1..][..i - 1] && b[..i][1..] == b[1..][..i - 1];
      CmpAt(a[1..], b[1..], i - 1);
    }
  }

  /** The text t and a blank stand at place k. */
  predicate Spells(b: seq<int>, k: nat, t: Text) {
    k + |t| < |b| && b[k..k + |t|] == t && b[k + |t|] == SPACE
  }

  lemma SpellsAt(b: seq<int>, k: nat, t: Text, i: nat)
    requires Spells(b, k, t) && i <= |t|
    ensures b[k + i] == if i < |t| then t[i] else SPACE
  {
    assert i < |t| ==> b[k..k + |t|][i] == b[k + i];
  }

  lemma InSlice(b: seq<int>, k: nat, t: Text, q: nat)
    requires k <= q < k + |t| <= |b| && b[k..k + |t|] == t
    ensures b[q] in t
  {
    assert b[k..k + |t|][q - k] == b[q];
  }

  /** Only one name can stand at a place. */
  lemma SpellsOne(b: seq<int>, k: nat, t: Text, u: Text)
    requires Spells(b, k, t) && Spells(b, k, u) && SPACE !in t && SPACE !in u
    ensures t == u
  {
    var m := if |t| < |u| then |t| else |u|;
    SpellsAt(b, k, t, m);
    SpellsAt(b, k, u, m);
    assert |t| == |u|;
  }

  /** The first i characters there are those of s. What the next one says about s, and about a name
      t that stands there. */
  lemma Compared(b: seq<int>, k: nat, s: Text, i: nat)
    requires NameOk(s) && i <= |s| && k + |s| < |b| && b[k..k + i] == s[..i]
    ensures i < |s| && b[k + i] != s[i] ==> !Spells(b, k, s)
    ensures i == |s| ==> (b[k + i] == SPACE <==> Spells(b, k, s))
    ensures i < |s| && b[k + i] == s[i] ==> b[k..k + (i + 1)] == s[..i + 1]
  {
    if i < |s| {
      assert b[k..k + |s|][i] == b[k + i];
      assert b[k..k + (i + 1)] == b[k..k + i] + [b[k + i]];
      assert s[..i + 1] == s[..i] + [s[i]];
    } else {
      assert s[..i] == s;
    }
  }

  lemma ComparedName(b: seq<int>, k: nat, s: Text, t: Text, i: nat)
    requires NameOk(s) && i <= |s| && k + |s| < |b| && b[k..k + i] == s[..i] && Spells(b, k, t) && SPACE !in t
    ensures i < |s| && b[k + i] > s[i] ==> Cmp(t, s) > 0
    ensures i < |s| && b[k + i] < s[i] ==> Cmp(t, s) < 0
    ensures i == |s| ==> if b[k + i] == SPACE then Cmp(t, s) == 0 else Cmp(t, s) > 0
  {
    hide Spells, Cmp;
    forall m | 0 <= m < i
      ensures b[k + m] == s[m] && s[m] in s
    {
      assert b[k..k + i][m] == s[..i][m];
    }
    SpellsAt(b, k, t, |t|);
    SpellsAt(b, k, t, i);
    forall m | 0 <= m < i
      ensures t[m] == s[m]
    {
      SpellsAt(b, k, t, m);
    }
    CmpAt(t, s, i);
    assert i < |t| ==> t[i] in t;
    assert i < |s| ==> s[i] in s;
  }

  /** cmp: compares the name behind b[j] with s, and finds it equal just when s and a blank stand
      there; the result is negative if the name is greater. */
  method Compare(b: array<int>, j: nat, s: Text, ghost t: Text) returns (r: int)
    requires NameOk(s) && j + 1 + |s| < b.Length
    ensures r == 0 <==> Spells(b[..], j + 1, s)
    ensures Spells(b[..], j + 1, t) && SPACE !in t ==> (r < 0 <==> Cmp(t, s) > 0) && (r == 0 <==> Cmp(t, s) == 0)
  {
    hide Spells, Cmp, NameOk;
    ghost var bs := b[..];
    var i := 0;
    while i < |s|
      invariant 0 <= i <= |s| && bs[j + 1..j + 1 + i] == s[..i]
    {
      Compared(bs, j + 1, s, i);
      if Spells(bs, j + 1, t) && SPACE !in t {
        ComparedName(bs, j + 1, s, t, i);
      }
      if b[j + 1 + i] > s[i] {
        return -1;
      }
      if b[j + 1 + i] < s[i] {
        return 1;
      }
      i := i + 1;
    }
    Compared(bs, j + 1, s, i);
    if Spells(bs, j + 1, t) && SPACE !in t {
      ComparedName(bs, j + 1, s, t, i);
    }
    r := if b[j + 1 + i] == SPACE then 0 else -1;
  }

  /** All lines with the name are between l and h. */
  ghost predicate Within(f: File, s: Text, l: int, h: int) {
    forall p | Hit(f, s, p) :: l <= p < h
  }

  /** Lines after one whose name is greater have greater names, and those before one whose name is
      less, lesser. */
  lemma Elsewhere(f: File, s: Text, l: int, h: int, p: int)
    requires Sorted(f) && Within(f, s, l, h) && IsLine(f, p)
    ensures Cmp(Field(f, p), s) > 0 ==> Within(f, s, l, p)
    ensures Cmp(Field(f, p), s) < 0 ==> Within(f, s, p + 1, h)
  {
    CmpOpposite(Field(f, p), s);
    forall q | Hit(f, s, q)
      ensures Cmp(Field(f, p), s) > 0 ==> q < p
      ensures Cmp(Field(f, p), s) < 0 ==> q > p
    {
      assert q == p ==> Cmp(Field(f, p), s) == 0;
      assert p < q ==> Cmp(Field(f, p), Field(f, q)) <= 0;
      assert q < p ==> Cmp(Field(f, q), Field(f, p)) <= 0;
      CmpOpposite(Field(f, q), Field(f, p));
    }
  }

  /** What a read of n characters from offset leaves in the buffer: where the file ends before
      that, the rest stays as it was. */
  function Filled(b: seq<int>, f: File, n: nat, offset: nat): (r: seq<int>)
    requires n <= |b| && offset <= |f|
    ensures |r| == |b|
    ensures forall k | 0 <= k < |b| :: r[k] == if k < n && offset + k < |f| then f[offset + k] else b[k]
  {
    var m := if offset + n <= |f| then n else |f| - offset;
    f[offset..offset + m] + b[m..]
  }

  method Fread(f: File, n: nat, offset: nat, b: array<int>)
    requires n <= b.Length && offset <= |f|
    modifies b
    ensures b[..] == Filled(old(b[..]), f, n, offset)
  {
    forall k | 0 <= k < n && offset + k < |f| {
      b[k] := f[offset + k];
    }
  }

  /** The first newline in the window at or after from, or its size. */
  method Scan(b: array<int>, n: nat, from: nat) returns (i: nat)
    requires from <= n <= b.Length
    ensures from <= i <= n && FirstFrom(b[..], n, from, i)
  {
    i := from;
    while i < n && b[i] != NEWLINE
      invariant from <= i <= n && forall k | from <= k < i :: b[k] != NEWLINE
    {
      i := i + 1;
    }
  }

  /** There is no newline from there up to i, and one at i unless that is n. */
  ghost predicate FirstFrom(b: seq<int>, n: nat, from: nat, i: nat) {
    from <= i <= n <= |b| && (forall k | from <= k < i :: b[k] != NEWLINE) && (i < n ==> b[i] == NEWLINE)
  }

  /** How far the second scan has come: to the newline, or to the last character of the window. */
  function Looked(i: nat, n: nat): int {
    if i < n then i else n - 1
  }

  /** Where a window is put between l and h. */
  function Place(l: int, h: int, n: nat): int {
    if l + (h - l) / 2 - n / 2 < l then l else l + (h - l) / 2 - n / 2
  }

  /** The window shows the file from offset on, and j is the first newline in it. */
  ghost predicate Window(f: File, n: nat, l: int, h: int, b: seq<int>, j: nat) {
    && 0 <= l < h <= |f| && 2 <= n <= |b| && Short(f, n / 2)
    && (forall k | 0 <= k < n && Place(l, h, n) + k < |f| :: b[k] == f[Place(l, h, n) + k])
    && FirstFrom(b, n, 0, j)
  }

  lemma FirstNewline(f: File, n: nat, l: int, h: int, b: seq<int>, j: nat)
    requires Window(f, n, l, h, b, j)
    ensures var offset := Place(l, h, n);
      j < n / 2 && offset + j < |f| && f[offset + j] == NEWLINE &&
      (forall q | offset <= q < offset + j :: f[q] != NEWLINE) &&
      (offset > l ==> offset + j < h && offset + n / 2 + n / 2 < |f|)
  {
    var offset := Place(l, h, n);
    assert NewlineNear(f, offset, n / 2);
    var p :| offset <= p < offset + n / 2 && p < |f| && f[p] == NEWLINE;
    assert b[p - offset] == f[p];
    forall q | offset <= q < offset + j
      ensures f[q] != NEWLINE
    {
      assert b[q - offset] == f[q];
    }
  }

  /** When the first newline is not before h, or ends the file, no line in question is left. */
  lemma NothingHere(f: File, n: nat, s: Text, l: int, h: int, b: seq<int>, j: nat)
    requires Window(f, n, l, h, b, j) && Within(f, s, l, h)
    requires Place(l, h, n) + j >= h || Place(l, h, n) + j == |f| - 1
    ensures forall p :: !Hit(f, s, p)
  {
    hide Short, Field, Window;
    WindowBounds(f, n, l, h, b, j);
    FirstNewline(f, n, l, h, b, j);
  }

  lemma WindowBounds(f: File, n: nat, l: int, h: int, b: seq<int>, j: nat)
    requires Window(f, n, l, h, b, j)
    ensures 0 <= l < h <= |f| && 2 <= n <= |b| && l <= Place(l, h, n) < h && Short(f, n / 2)
  {
    hide Short;
  }

  /** The line after the first newline is in the window with its end. */
  lemma LineInside(f: File, n: nat, l: int, h: int, b: seq<int>, j: nat, i: nat)
    requires Window(f, n, l, h, b, j) && Named(f) && IsLine(f, Place(l, h, n) + j)
    requires j < i && FirstFrom(b, n, j + 1, i)
    ensures var offset := Place(l, h, n);
      i < n / 2 + n / 2 && offset + i < |f| && f[offset + i] == NEWLINE &&
      (forall q | offset + j < q < offset + i :: f[q] != NEWLINE) &&
      Spells(b, j + 1, Field(f, offset + j)) && SPACE !in Field(f, offset + j)
  {
    hide Named, Window, Name;
    var offset := Place(l, h, n);
    WindowBounds(f, n, l, h, b, j);
    FirstNewline(f, n, l, h, b, j);
    NextNear(f, n, l, h, b, j, i);
    FieldInside(f, n, l, h, b, j, i);
  }

  lemma NextNear(f: File, n: nat, l: int, h: int, b: seq<int>, j: nat, i: nat)
    requires Window(f, n, l, h, b, j) && IsLine(f, Place(l, h, n) + j) && j < n / 2
    requires j < i && FirstFrom(b, n, j + 1, i)
    ensures var offset := Place(l, h, n);
      i < n / 2 + n / 2 && offset + i < |f| && f[offset + i] == NEWLINE &&
      forall q | offset + j < q < offset + i :: f[q] != NEWLINE
  {
    var offset := Place(l, h, n);
    var p := offset + j;
    assert NewlineNear(f, p + 1, n / 2);
    var e :| p + 1 <= e < p + 1 + n / 2 && e < |f| && f[e] == NEWLINE;
    assert b[e - offset] == f[e];
    forall q | offset + j < q < offset + i
      ensures f[q] != NEWLINE
    {
      assert b[q - offset] == f[q];
    }
  }

  lemma FieldInside(f: File, n: nat, l: int, h: int, b: seq<int>, j: nat, i: nat)
    requires Window(f, n, l, h, b, j) && Named(f) && IsLine(f, Place(l, h, n) + j)
    requires j < i < n && Place(l, h, n) + i < |f| && f[Place(l, h, n) + i] == NEWLINE
    ensures Spells(b, j + 1, Field(f, Place(l, h, n) + j)) && SPACE !in Field(f, Place(l, h, n) + j)
  {
    hide Short, FirstFrom, Name, Place;
    WindowBounds(f, n, l, h, b, j);
    var offset := Place(l, h, n);
    var p := offset + j;
    var t := Field(f, p);
    assert f[p + 1..p + 1 + |t|] == t && f[p + 1 + |t|] == SPACE;
    forall q | p + 1 <= q < p + 1 + |t|
      ensures f[q] in t
    {
      InSlice(f, p + 1, t, q);
    }
    assert p + 1 + |t| < offset + i;
    forall k | j + 1 <= k <= j + 1 + |t|
      ensures b[k] == f[offset + k]
    {
    }
    assert b[j + 1..j + 1 + |t|] == f[p + 1..p + 1 + |t|];
  }

  /** No line in question begins between the first newline and the second. */
  lemma SkipLine(f: File, s: Text, p: int, q: int, h: int)
    requires 0 <= p && Within(f, s, p + 1, h) && forall k | p < k < q && k < |f| :: f[k] != NEWLINE
    ensures Within(f, s, q, h)
  {
  }

  // Behind the last newline of the file the window shows what has been left over there.

  ghost predicate OnlyLine(f: File, p: int) {
    IsLine(f, p) && forall q | IsLine(f, q) :: q == p
  }

  /** When a name that is not there is found all the same, at the newline that ends the file: the
      file has but a first line and the name stands in the buffer, initially, where the file will
      end; or the file has one line more, with a lesser name, and the first line is the name with
      one character in front of it. */
  ghost predicate Misled(f: File, s: Text, b: seq<int>) {
    && |f| > 0
    && if exists p :: IsLine(f, p) then
         Spells(f, 1, s) && exists p :: OnlyLine(f, p) && Cmp(Field(f, p), s) < 0
       else Spells(b, |f|, s)
  }

  /** What is known of the buffer between two turns, b0 being its contents before the first. */
  ghost predicate Track(f: File, s: Text, b0: seq<int>, b: seq<int>, l: int, h: int) {
    && |b| == |b0|
    && (0 < l < |f| ==> f[l] == NEWLINE && exists p :: IsLine(f, p) && p < l)
    && (l == 0 && h == |f| ==> b == b0)
    && (0 < l == |f| - 1 && h == |f| ==> (Spells(b, 1, s) <==> Misled(f, s, b0)))
    && (h < |f| || l >= |f| ==> !Misled(f, s, b0))
  }

  lemma TrackStart(f: File, s: Text, b0: seq<int>)
    ensures Track(f, s, b0, b0, 0, |f|)
  {
    hide Spells;
  }

  /** The line compared has a greater name. */
  lemma TrackDown(f: File, s: Text, b0: seq<int>, b: seq<int>, b': seq<int>, l: int, h: int, p: int)
    requires Track(f, s, b0, b, l, h) && |b'| == |b| && l <= p < h <= |f| && IsLine(f, p) && Cmp(Field(f, p), s) > 0
    ensures Track(f, s, b0, b', l, p)
  {
    hide Spells, Field;
  }

  /** The line compared has a lesser name. */
  lemma TrackUp(f: File, n: nat, s: Text, b0: seq<int>, b: seq<int>, b': seq<int>, l: int, h: int, j: nat, i: nat)
    requires NameOk(s) && Named(f) && Track(f, s, b0, b, l, h) && Window(f, n, l, h, b', j) && n <= |b|
    requires b' == Filled(b, f, n, Place(l, h, n))
    requires IsLine(f, Place(l, h, n) + j) && j < i && FirstFrom(b', n, j + 1, i)
    requires Cmp(Field(f, Place(l, h, n) + j), s) < 0
    ensures Track(f, s, b0, b', Place(l, h, n) + i, h)
  {
    hide Spells, Field, Window, FirstFrom, Misled, Named;
    var offset := Place(l, h, n);
    WindowBounds(f, n, l, h, b', j);
    FirstNewline(f, n, l, h, b', j);
    LineInside(f, n, l, h, b', j, i);
    if offset + i == |f| - 1 && h == |f| {
      assert offset == l;
      if l == 0 {
        TwoLines(f, s, b0, b', j);
      } else {
        assert j == 0;
        ManyLines(f, s, b0, l);
        if Spells(b', 1, s) {
          SpellsOne(b', 1, s, Field(f, l));
          CmpOpposite(s, s);
        }
      }
    }
  }

  /** The whole file has been read, and it is two lines. */
  lemma TwoLines(f: File, s: Text, b0: seq<int>, b: seq<int>, p: int)
    requires NameOk(s) && IsLine(f, p) && f[|f| - 1] == NEWLINE && |f| <= |b| && b[..|f|] == f
    requires forall q | 0 <= q < |f| - 1 && q != p :: f[q] != NEWLINE
    requires Cmp(Field(f, p), s) < 0
    ensures Spells(b, 1, s) <==> Misled(f, s, b0)
  {
    hide Spells, Field;
    assert OnlyLine(f, p);
    assert Spells(b, 1, s) <==> Spells(f, 1, s) by {
      SpellsBefore(f, b, s);
    }
  }

  lemma SamePart(f: File, b: seq<int>, m: nat)
    requires |f| <= |b| && b[..|f|] == f && 1 <= m <= |f|
    ensures f[1..m] == b[1..m] && (m < |f| ==> f[m] == b[m])
  {
    forall k | 0 <= k < |f|
      ensures f[k] == b[k]
    {
      assert b[..|f|][k] == b[k];
    }
  }

  lemma SpellsBefore(f: File, b: seq<int>, s: Text)
    requires NameOk(s) && |f| > 1 && f[|f| - 1] == NEWLINE && |f| <= |b| && b[..|f|] == f
    ensures Spells(b, 1, s) <==> Spells(f, 1, s)
  {
    assert b[|f| - 1] == NEWLINE;
    if Spells(b, 1, s) {
      forall q | 1 <= q < 1 + |s|
        ensures b[q] in s
      {
        InSlice(b, 1, s, q);
      }
      SamePart(f, b, 1 + |s|);
    }
    if Spells(f, 1, s) {
      SamePart(f, b, 1 + |s|);
    }
  }

  lemma ManyLines(f: File, s: Text, b0: seq<int>, l: int)
    requires IsLine(f, l) && exists p :: IsLine(f, p) && p < l
    ensures !Misled(f, s, b0)
  {
  }

  /** The newline that ends the file is the first in the window. */
  lemma TrackEnd(f: File, n: nat, s: Text, b0: seq<int>, b: seq<int>, b': seq<int>, l: int, h: int, j: nat)
    requires NameOk(s) && Track(f, s, b0, b, l, h) && Window(f, n, l, h, b', j) && n <= |b|
    requires b' == Filled(b, f, n, Place(l, h, n)) && Place(l, h, n) + j == |f| - 1 < h
    ensures Spells(b', j + 1, s) <==> Misled(f, s, b0)
    ensures !Misled(f, s, b0) ==> Track(f, s, b0, b', l, |f| - 1)
    ensures !Misled(f, s, b0) ==> forall k | k >= |f| :: Track(f, s, b0, b', k, h)
  {
    hide Spells, Window, Filled, Misled;
    WindowBounds(f, n, l, h, b', j);
    FirstNewline(f, n, l, h, b', j);
    assert h == |f| && Place(l, h, n) == l;
    if l == 0 {
      OneLine(f, n, s, b, b');
    } else {
      assert j == 0 && l == |f| - 1;
      SameBehind(b, b', f, n, s);
    }
  }

  lemma OneLine(f: File, n: nat, s: Text, b: seq<int>, b': seq<int>)
    requires 0 < |f| <= n <= |b| && b' == Filled(b, f, n, 0) && forall q | 0 <= q < |f| - 1 :: f[q] != NEWLINE
    ensures Spells(b', |f|, s) <==> Misled(f, s, b)
  {
    assert |f| + |s| < |b| ==> b'[|f|..|f| + |s|] == b[|f|..|f| + |s|];
  }

  lemma SameBehind(b: seq<int>, b': seq<int>, f: File, n: nat, s: Text)
    requires 0 < |f| && 2 <= n <= |b| && b' == Filled(b, f, n, |f| - 1)
    ensures Spells(b', 1, s) <==> Spells(b, 1, s)
  {
    assert 1 + |s| < |b| ==> b'[1..1 + |s|] == b[1..1 + |s|];
  }

  /** bsrch: the newline before the line with the name s, if there is one after the first line. If
      there is none, -1, except that leftover characters can make it the end of the file. */
  method Bsrch(f: File, n: nat, s: Text, b: array<int>) returns (at: int)
    requires NameOk(s) && Named(f) && Sorted(f) && n >= 2 && Short(f, n / 2) && b.Length >= n + |s|
    modifies b
    ensures if exists p :: Hit(f, s, p) then Hit(f, s, at)
            else at == if Misled(f, s, old(b[..])) then |f| - 1 else -1
  {
    hide *;
    ghost var b0 := b[..];
    var l, h := 0, |f|;
    AllWithin(f, s);
    TrackStart(f, s, b0);
    while l < h
      invariant 0 <= l && h <= |f| && Within(f, s, l, h) && Track(f, s, b0, b[..], l, h)
      decreases h - l
    {
      ghost var was := b[..];
      var offset := l + (h - l) / 2 - n / 2;
      if offset < l {
        offset := l;
      }
      PlaceIs(l, h, n, offset);
      Fread(f, n, offset, b);
      var j := Scan(b, n, 0);
      InWindow(f, n, l, h, was, b[..], j);
      FirstNewline(f, n, l, h, b[..], j);
      if offset + j >= h {
        NothingHere(f, n, s, l, h, b[..], j);
        NotMisled(f, s, b0, b[..], was, l, h);
        return -1;
      }
      var i := Scan(b, n, j + 1);
      var r := Probe(f, n, s, l, h, b, j, i, b0, was);
      if r < 0 {
        h := offset + j;
      } else if r > 0 {
        l := offset + Looked(i, n);
      } else {
        return offset + j;
      }
    }
    NoneWithin(f, s, l, h);
    NotMisled(f, s, b0, b[..], b[..], l, h);
    at := -1;
  }

  lemma AllWithin(f: File, s: Text)
    ensures Within(f, s, 0, |f|)
  {
  }

  lemma NoneWithin(f: File, s: Text, l: int, h: int)
    requires Within(f, s, l, h) && l >= h
    ensures forall p :: !Hit(f, s, p)
  {
  }

  lemma NotMisled(f: File, s: Text, b0: seq<int>, b: seq<int>, was: seq<int>, l: int, h: int)
    requires Track(f, s, b0, was, l, h) && (h < |f| || l >= h == |f|)
    ensures !Misled(f, s, b0)
  {
    hide Misled;
  }

  lemma PlaceIs(l: int, h: int, n: nat, offset: int)
    requires l < h && offset == if l + (h - l) / 2 - n / 2 < l then l else l + (h - l) / 2 - n / 2
    ensures offset == Place(l, h, n) && l <= offset < h
  {
  }

  lemma InWindow(f: File, n: nat, l: int, h: int, was: seq<int>, b: seq<int>, j: nat)
    requires 0 <= l < h <= |f| && 2 <= n <= |was| && Short(f, n / 2) && l <= Place(l, h, n) < h
    requires b == Filled(was, f, n, Place(l, h, n)) && FirstFrom(b, n, 0, j)
    ensures Window(f, n, l, h, b, j)
  {
    hide Short, Place, FirstFrom, Filled;
  }

  /** Compares the line after the first newline in the window, and what follows from that. */
  method Probe(ghost f: File, ghost n: nat, s: Text, ghost l: int, ghost h: int, b: array<int>, j: nat, ghost i: nat,
               ghost b0: seq<int>, ghost was: seq<int>)
    returns (r: int)
    requires NameOk(s) && Named(f) && Sorted(f) && n <= |was| && b.Length >= n + |s|
    requires Window(f, n, l, h, b[..], j) && Within(f, s, l, h) && Track(f, s, b0, was, l, h)
    requires l <= Place(l, h, n) < h && b[..] == Filled(was, f, n, Place(l, h, n))
    requires Place(l, h, n) + j < h && j < i && FirstFrom(b[..], n, j + 1, i)
    ensures r == 0 ==>
      var p := Place(l, h, n) + j;
      Hit(f, s, p) || (p == |f| - 1 && Misled(f, s, b0) && forall q :: !Hit(f, s, q))
    ensures r < 0 ==> Within(f, s, l, Place(l, h, n) + j) && Track(f, s, b0, b[..], l, Place(l, h, n) + j)
    ensures r > 0 ==>
      var q := Place(l, h, n) + Looked(i, n);
      q > l && Within(f, s, q, h) && Track(f, s, b0, b[..], q, h)
  {
    hide Short, Named, Sorted, Window, Within, Field, Track, Misled, Spells, FirstFrom, Filled, Place;
    WindowBounds(f, n, l, h, b[..], j);
    FirstNewline(f, n, l, h, b[..], j);
    ghost var p := Place(l, h, n) + j;
    ghost var t := if IsLine(f, p) then Field(f, p) else s;
    r := Compare(b, j, s, t);
    if IsLine(f, p) {
      LineInside(f, n, l, h, b[..], j, i);
      Elsewhere(f, s, l, h, p);
      CmpOpposite(Field(f, p), s);
      if r < 0 {
        TrackDown(f, s, b0, was, b[..], l, h, p);
      } else if r > 0 {
        SkipLine(f, s, p, Place(l, h, n) + i, h);
        TrackUp(f, n, s, b0, was, b[..], l, h, j, i);
      }
    } else {
      NothingHere(f, n, s, l, h, b[..], j);
      WithinNone(f, s);
      TrackEnd(f, n, s, b0, was, b[..], l, h, j);
    }
  }

  lemma WithinNone(f: File, s: Text)
    requires forall p :: !Hit(f, s, p)
    ensures forall l, h :: Within(f, s, l, h)
  {
  }

  // "azz 1" and "b 1", each with its newline.
  const TWO_LINES: File := [97, 122, 122, SPACE, 49, NEWLINE, 98, SPACE, 49, NEWLINE]
  const ZZ: Text := [122, 122]

  /** In a file of two lines, of which the first is azz, a search finds zz, whatever is in the
      buffer at first. */
  lemma AbsentFound(b: seq<int>)
    ensures NameOk(ZZ) && Named(TWO_LINES) && Sorted(TWO_LINES) && Short(TWO_LINES, 6)
    ensures Misled(TWO_LINES, ZZ, b) && forall p :: !Hit(TWO_LINES, ZZ, p)
  {
    hide Cmp;
    var f := TWO_LINES;
    assert forall p :: IsLine(f, p) <==> p == 5;
    assert Name(f, 7) == [] && Name(f, 6) == [98];
    CmpAt([98], ZZ, 0);
    assert OnlyLine(f, 5) && Field(f, 5) == [98];
    assert f[1..3] == ZZ;
    forall i | 0 <= i < |f|
      ensures NewlineNear(f, i, 6)
    {
      if i <= 5 {
        assert f[5] == NEWLINE;
      } else {
        assert f[9] == NEWLINE;
      }
    }
  }
}
