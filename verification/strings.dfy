/** C strings and how strcmp orders them. */
module Strings {
  // The characters before the NUL.
  type Text = seq<int>

  /** A literal, in ASCII. */
  function Codes(s: string): (b: Text)
    ensures |b| == |s| && forall i | 0 <= i < |s| :: b[i] == s[i] as int
  {
    seq(|s|, i requires 0 <= i < |s| => s[i] as int)
  }

  /** strcmp, by sign. */
  function Cmp(a: Text, b: Text): int {
    if a == [] then (if b == [] then 0 else -1)
    else if b == [] then 1
    else if a[0] != b[0] then (if a[0] < b[0] then -1 else 1)
    else Cmp(a[1..], b[1..])
  }

  lemma {:induction false} CmpOpposite(a: Text, b: Text)
    ensures Cmp(a, b) == -Cmp(b, a) && (Cmp(a, b) == 0 <==> a == b)
  {
    if a != [] && b != [] && a[0] == b[0] {
      CmpOpposite(a[1..], b[1..]);
      assert a == [a[0]] + a[1..] && b == [b[0]] + b[1..];
    }
  }

  lemma {:induction false} CmpTransitive(a: Text, b: Text, c: Text)
    requires Cmp(a, b) <= 0 && Cmp(b, c) <= 0
    ensures Cmp(a, c) <= 0 && (Cmp(a, b) < 0 || Cmp(b, c) < 0 ==> Cmp(a, c) < 0)
  {
    if a != [] && b != [] && c != [] && a[0] == b[0] && b[0] == c[0] {
      CmpTransitive(a[1..], b[1..], c[1..]);
    }
  }

  /** a comes before b: it is a beginning of b, or at the first place where they differ its character
      is the lesser. */
  ghost predicate Precedes(a: Text, b: Text) {
    a < b || exists k :: 0 <= k < |a| && k < |b| && a[..k] == b[..k] && a[k] < b[k]
  }

  /** strcmp tells which of two strings comes first. */
  lemma {:induction false} CmpIsOrder(a: Text, b: Text)
    ensures Cmp(a, b) < 0 <==> Precedes(a, b)
    ensures Cmp(a, b) > 0 <==> Precedes(b, a)
    ensures Cmp(a, b) == 0 <==> a == b
  {
    if a != [] && b != [] {
      CmpIsOrder(a[1..], b[1..]);
      CmpOpposite(a, b);
      if a[0] == b[0] {
        PrecedesTail(a, b);
        PrecedesTail(b, a);
      } else {
        assert a[..0] == b[..0];
        FirstDiffers(a, b);
        FirstDiffers(b, a);
      }
    }
  }

  lemma FirstDiffers(a: Text, b: Text)
    requires a != [] && b != [] && a[0] != b[0]
    ensures Precedes(a, b) <==> a[0] < b[0]
  {
    if a[0] < b[0] {
      assert a[..0] == b[..0];
    }
    if k :| 0 <= k < |a| && k < |b| && a[..k] == b[..k] && a[k] < b[k] {
      if k > 0 {
        assert a[..k][0] == b[..k][0];
      }
    }
  }

  lemma PrecedesTail(a: Text, b: Text)
    requires a != [] && b != [] && a[0] == b[0]
    ensures Precedes(a, b) <==> Precedes(a[1..], b[1..])
  {
    hide *;
    var c, d := a[1..], b[1..];
    assert a == [a[0]] + c && b == [b[0]] + d;
    if Precedes(c, d) {
      PrecedesBehind(a[0], c, d);
    }
    if Precedes(a, b) {
      BehindPrecedes(a[0], c, d);
    }
  }

  lemma PrecedesBehind(x: int, c: Text, d: Text)
    requires Precedes(c, d)
    ensures Precedes([x] + c, [x] + d)
  {
    var a, b := [x] + c, [x] + d;
    if !(c < d) {
      var k :| 0 <= k < |c| && k < |d| && c[..k] == d[..k] && c[k] < d[k];
      assert a[..k + 1] == [x] + c[..k] && b[..k + 1] == [x] + d[..k];
      assert a[k + 1] < b[k + 1];
    }
  }

  lemma BehindPrecedes(x: int, c: Text, d: Text)
    requires Precedes([x] + c, [x] + d)
    ensures Precedes(c, d)
  {
    var a, b := [x] + c, [x] + d;
    if a < b {
      assert c == a[1..] && d[..|c|] == b[..|a|][1..];
    } else {
      var k :| 0 <= k < |a| && k < |b| && a[..k] == b[..k] && a[k] < b[k];
      assert c[..k - 1] == a[..k][1..] && d[..k - 1] == b[..k][1..];
    }
  }
}
