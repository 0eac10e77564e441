/** 4014's plot coordinates: sendpt leaves out the bytes that the terminal still has in its registers. */
module TekPoints {

  const GS := 29

  datatype Point = Point(x: int, y: int)

  /** What can be seen of a point: the low twelve bits of the coordinates, none of them negative. */
  function Seen(p: Point): Point {
    Point(p.x % 4096, (if p.y < 0 then 0 else p.y) % 4096)
  }

  // The terminal.

  /** The registers, whether a low-Y byte has come since the last point, and the points so far. */
  datatype Screen = Screen(hy: int, xb: int, ly: int, hx: int, low: bool, points: seq<Point>)

  /** The two high bytes share a tag, and so do the extra byte and low Y: what came before decides. */
  function Take(s: Screen, c: int): Screen {
    if c == GS then s.(low := false)
    else if 32 <= c < 64 then
      if s.low then s.(hx := c - 32) else s.(hy := c - 32)
    else if 96 <= c < 128 then
      if s.low then s.(xb := s.ly % 16, ly := c - 96) else s.(ly := c - 96, low := true)
    else if 64 <= c < 96 then
      s.(low := false, points := s.points +
        [Point(s.hx * 128 + (c - 64) * 4 + s.xb % 4, s.hy * 128 + s.ly * 4 + s.xb / 4 % 4)])
    else s
  }

  function Feed(s: Screen, out: seq<int>): Screen {
    if out == [] then s else Take(Feed(s, out[..|out| - 1]), out[|out| - 1])
  }

  lemma FeedSnoc(s: Screen, out: seq<int>, c: int)
    ensures Feed(s, out + [c]) == Take(Feed(s, out), c)
  {
    assert (out + [c])[..|out|] == out;
  }

  function AllSeen(ps: seq<Point>): (r: seq<Point>)
    ensures |r| == |ps| && forall i | 0 <= i < |ps| :: r[i] == Seen(ps[i])
  {
    if ps == [] then [] else AllSeen(ps[..|ps| - 1]) + [Seen(ps[|ps| - 1])]
  }

  lemma LowBits(x: int)
    ensures x / 4 % 32 * 4 + x % 4 == x % 128
  {
    var q := x / 4;
    assert x == 128 * (q / 32) + (q % 32 * 4 + x % 4);
  }

  lemma HighBits(x: int)
    ensures x / 128 % 32 * 128 + x % 128 == x % 4096
  {
    var q := x / 128;
    assert x == 4096 * (q / 32) + (q % 32 * 128 + x % 128);
  }

  /** Five bits, five bits and two bits make up twelve again. */
  lemma Bits(x: int)
    ensures 0 <= x / 128 % 32 < 32 && 0 <= x / 4 % 32 < 32 && 0 <= x % 4 < 4
    ensures x / 128 % 32 * 128 + x / 4 % 32 * 4 + x % 4 == x % 4096
  {
    LowBits(x);
    HighBits(x);
  }

  /** The extra byte carries the two lowest bits of each. */
  lemma Extra(x: int, z: int)
    ensures 0 <= (x % 4 + z * 4 % 16) % 16 < 16
    ensures (x % 4 + z * 4 % 16) % 16 % 4 == x % 4 && (x % 4 + z * 4 % 16) % 16 / 4 % 4 == z % 4
  {
    assert z * 4 == 16 * (z / 4) + 4 * (z % 4);
  }

  /** The bytes for a first point: GS, then high Y, extra byte, low Y, high X and low X, each with its tag. */
  function Opening(p: Point): seq<int> {
    var y := if p.y < 0 then 0 else p.y;
    [29, 0x20 + y / 128 % 32, 0x60 + p.x % 4 + y % 4 * 4, 0x60 + y / 4 % 32, 0x20 + p.x / 128 % 32, 0x40 + p.x / 4 % 32]
  }

  lemma OpeningIs(p: Point, y: int)
    requires y == if p.y < 0 then 0 else p.y
    ensures Opening(p) == [GS] + [32 + y / 128 % 32, 96 + (p.x % 4 + y * 4 % 16) % 16, 96 + y / 4 % 32,
                                  32 + p.x / 128 % 32] + [64 + p.x / 4 % 32]
  {
    ExtraBits(p.x % 4, y, y % 4, y / 4);
  }

  lemma ExtraBits(x: int, y: int, low: int, high: int)
    requires 0 <= x < 4 && 0 <= low < 4 && y == 4 * high + low
    ensures (x + y * 4 % 16) % 16 == x + low * 4
  {
  }

  class Plotter {
    var ohx: int
    var oxb: int
    var ohy: int
    var oly: int
    var out: seq<int>

    constructor ()
      ensures out == [] && Fresh() && forall s :: Agrees(s)
    {
      ohx, oxb, ohy, oly := -1, -1, -1, -1;
      out := [];
    }

    /** What has been sent before is what the terminal has. */
    predicate Agrees(s: Screen)
      reads this
    {
      && (ohx == -1 || s.hx == ohx) && (oxb == -1 || s.xb == oxb)
      && (ohy == -1 || s.hy == ohy) && (oly == -1 || s.ly == oly)
    }

    /** Nothing has been sent yet. */
    predicate Fresh()
      reads this
    {
      ohx == oxb == ohy == oly == -1
    }

    method Putchar(c: int, ghost s: Screen)
      modifies this`out
      ensures out == old(out) + [c] && Feed(s, out) == Take(old(Feed(s, out)), c)
    {
      FeedSnoc(s, out, c);
      out := out + [c];
    }

    method High(v: int, ghost s: Screen)
      requires 0 <= v < 32
      modifies this`out
      ensures Feed(s, out) == var t := old(Feed(s, out)); if t.low then t.(hx := v) else t.(hy := v)
      ensures out == old(out) + [32 + v]
    {
      Putchar(32 + v, s);
    }

    method Low(v: int, ghost s: Screen)
      requires 0 <= v < 32
      modifies this`out
      ensures Feed(s, out) == var t := old(Feed(s, out));
        if t.low then t.(xb := t.ly % 16, ly := v) else t.(ly := v, low := true)
      ensures out == old(out) + [96 + v]
    {
      Putchar(96 + v, s);
    }

    /** The bytes before the last bring the registers up to date. */
    method Registers(hy: int, xb: int, ly: int, hx: int, ghost s: Screen)
      requires 0 <= hy < 32 && 0 <= xb < 16 && 0 <= ly < 32 && 0 <= hx < 32
      requires Agrees(Feed(s, out)) && !Feed(s, out).low
      modifies this`out
      ensures Feed(s, out).(low := false) == old(Feed(s, out)).(hy := hy, xb := xb, ly := ly, hx := hx)
      ensures old(out) <= out
      ensures old(Fresh()) ==> out == old(out) + [32 + hy, 96 + xb, 96 + ly, 32 + hx]
    {
      hide Feed, Take;
      if hy != ohy {
        High(hy, s);
      }
      if xb != oxb {
        Low(xb, s);
      }
      if ly != oly || hx != ohx || xb != oxb {
        Low(ly, s);
      }
      if hx != ohx {
        High(hx, s);
      }
    }

    /** sendpt. */
    method Sendpt(p: Point, ghost s: Screen)
      requires Agrees(Feed(s, out))
      modifies this
      ensures Agrees(Feed(s, out))
      ensures Feed(s, out).points == old(Feed(s, out)).points + [Seen(p)]
      ensures old(out) <= out && (old(Fresh()) ==> out == old(out) + Opening(p))
    {
      hide Feed, Opening;
      var zz := if p.y < 0 then 0 else p.y;
      var hy := zz / 128 % 32;
      var xb := (p.x % 4 + zz * 4 % 16) % 16;
      var ly := zz / 4 % 32;
      var hx := p.x / 128 % 32;
      var lx := p.x / 4 % 32;
      Bits(p.x);
      Bits(zz);
      Extra(p.x, zz);
      OpeningIs(p, zz);
      Putchar(GS, s);
      Registers(hy, xb, ly, hx, s);
      Putchar(64 + lx, s);
      ohy, oxb, oly, ohx := hy, xb, ly, hx;
    }
  }

  /** From any terminal, whatever its registers held: the points arrive. */
  method Plot(ps: seq<Point>, ghost s: Screen) returns (out: seq<int>)
    ensures Feed(s, out).points == s.points + AllSeen(ps)
    ensures ps != [] ==> Opening(ps[0]) <= out
  {
    var plotter := new Plotter();
    var i := 0;
    while i < |ps|
      invariant 0 <= i <= |ps|
      invariant if i > 0 then Opening(ps[0]) <= plotter.out else plotter.out == [] && plotter.Fresh()
      invariant plotter.Agrees(Feed(s, plotter.out))
      invariant Feed(s, plotter.out).points == s.points + AllSeen(ps[..i])
    {
      plotter.Sendpt(ps[i], s);
      assert ps[..i + 1][..i] == ps[..i];
      i := i + 1;
    }
    assert ps[..i] == ps;
    out := plotter.out;
  }
}
