/**
 Sampling of the rough surface over an element's footprint.

 The source computes `nX = floor((maxX-minX)/sX)` and `nY = floor((maxY-minY)/sY)`
 and then runs `for (int u = 0; u <= nX; u++) for (int u = 0; u < nY; u++)`: the
 inner loop declares its own `u`, hiding the outer one. So the outer loop only
 repeats the inner one nX+1 times, and the inner one walks the diagonal
 `(minX + u*sX, minY + u*sY)` for u in [0, nY). The surface height function is
 supplied by the caller.
 */
module Sampler {
  import opened Tolerance
  import opened Geometry

  /** `sX` and `sY`: 0.05e-6. */
  const STEP: real := 0.00000005

  datatype Point = Point(x: real, y: real)

  /** `(int)floor(delta/STEP)` for a reduced range (the int width is not modelled). */
  function Steps(r: Range): int
  {
    ((r.hi - r.lo) / STEP).Floor
  }

  function Max0(n: int): nat
  {
    if n > 0 then n else 0
  }

  /** The u-th point of the diagonal walk. */
  function DiagonalPoint(b: Box, u: nat): Point
  {
    Point(b.xs.lo + (u as real) * STEP, b.ys.lo + (u as real) * STEP)
  }

  /** One run of the inner loop: u = 0 .. nY-1. */
  function Diagonal(b: Box): seq<Point>
  {
    seq(Max0(Steps(b.ys)), u requires 0 <= u => DiagonalPoint(b, u))
  }

  /** m back-to-back copies of s. */
  function Repeat<T>(s: seq<T>, m: nat): seq<T>
    decreases m
  {
    if m == 0 then [] else Repeat(s, m - 1) + s
  }

  /** Every point the nested loops hand to the surface, in order. */
  function SampleTrace(b: Box): seq<Point>
  {
    Repeat(Diagonal(b), Max0(Steps(b.xs) + 1))
  }

  /** The surface heights at the given points, in order. */
  function Heights(pts: seq<Point>, surface: (real, real) -> real): seq<real>
  {
    seq(|pts|, k requires 0 <= k < |pts| => surface(pts[k].x, pts[k].y))
  }

  /** `minZ` / `maxZ` after the sampling loops. */
  function SampledRange(b: Box, surface: (real, real) -> real): Range
  {
    Hull(Heights(SampleTrace(b), surface))
  }

  /** `deltaZ = |maxZ - minZ|`. */
  function Amplitude(r: Range): real
  {
    Abs(r.hi - r.lo)
  }

  lemma HeightsSnoc(pts: seq<Point>, p: Point, surface: (real, real) -> real)
    ensures Heights(pts + [p], surface) == Heights(pts, surface) + [surface(p.x, p.y)]
  {
  }

  /**
   The sampling loops as written, with the shadowed loop variable. Returns the
   reduced height range and the points sampled, in order.
   */
  method SampleRange(b: Box, surface: (real, real) -> real) returns (range: Range, trace: seq<Point>)
    ensures trace == SampleTrace(b)
    ensures range == Hull(Heights(trace, surface))
  {
    var nX := Steps(b.xs);
    var nY := Steps(b.ys);
    var diag := Diagonal(b);
    range, trace := Sentinels, [];
    var u := 0;
    while u <= nX
      invariant 0 <= u <= Max0(nX + 1)
      invariant trace == Repeat(diag, u)
      invariant range == Hull(Heights(trace, surface))
      decreases nX - u
    {
      ghost var done := trace;
      {
        var u := 0;
        while u < nY
          invariant 0 <= u <= Max0(nY)
          invariant trace == done + diag[..u]
          invariant range == Hull(Heights(trace, surface))
          decreases nY - u
        {
          var p := DiagonalPoint(b, u);  // (minX + u*sX, minY + u*sY)
          var z := surface(p.x, p.y);
          SampleOne(trace, range, p, surface);
          if range.lo > z { range := range.(lo := z); }
          if range.hi < z { range := range.(hi := z); }
          ExtendBySlice(done, diag, u);
          trace := trace + [p];
          u := u + 1;
        }
        assert diag[..u] == diag;
      }
      u := u + 1;
    }
  }

  lemma ExtendBySlice<T>(done: seq<T>, s: seq<T>, u: nat)
    requires u < |s|
    ensures done + s[..u] + [s[u]] == done + s[..u + 1]
  {
    assert s[..u + 1] == s[..u] + [s[u]];
  }

  /** One sample extends the trace by its point and the running range by its height. */
  lemma SampleOne(trace: seq<Point>, range: Range, p: Point, surface: (real, real) -> real)
    requires range == Hull(Heights(trace, surface))
    ensures Include(range, surface(p.x, p.y)) == Hull(Heights(trace + [p], surface))
  {
    HeightsSnoc(trace, p, surface);
    HullSnoc(Heights(trace, surface), surface(p.x, p.y));
  }

  /** The trace holds the diagonal points only, each of them nX+1 times. */
  lemma {:induction false} RepeatCount<T>(s: seq<T>, m: nat, p: T)
    ensures multiset(Repeat(s, m))[p] == m * multiset(s)[p]
    decreases m
  {
    if m > 0 {
      RepeatCount(s, m - 1, p);
      assert multiset(Repeat(s, m)) == multiset(Repeat(s, m - 1)) + multiset(s);
      assert m * multiset(s)[p] == (m - 1) * multiset(s)[p] + multiset(s)[p];
    }
  }

  lemma {:induction false} RepeatMembers<T>(s: seq<T>, m: nat, p: T)
    ensures p in Repeat(s, m) <==> m > 0 && p in s
    decreases m
  {
    if m > 0 {
      RepeatMembers(s, m - 1, p);
      assert p in Repeat(s, m) <==> p in Repeat(s, m - 1) || p in s;
    }
  }

  /** Distinct diagonal steps give distinct points, since the step is positive. */
  lemma {:induction false} DiagonalCount(b: Box, n: nat, u: nat)
    requires u < n
    ensures multiset(seq(n, k requires 0 <= k => DiagonalPoint(b, k)))[DiagonalPoint(b, u)] == 1
    decreases n
  {
    var s := seq(n, k requires 0 <= k => DiagonalPoint(b, k));
    var s' := seq(n - 1, k requires 0 <= k => DiagonalPoint(b, k));
    assert s == s' + [DiagonalPoint(b, n - 1)];
    if u < n - 1 {
      DiagonalCount(b, n - 1, u);
      assert DiagonalPoint(b, n - 1) != DiagonalPoint(b, u);
    } else {
      assert DiagonalPoint(b, u) !in s' by {
        forall k | 0 <= k < n - 1 ensures s'[k] != DiagonalPoint(b, u) {
          assert (k as real) * STEP < (u as real) * STEP;
        }
      }
    }
  }

  /**
   What the nested loops sample: exactly the diagonal points u = 0 .. nY-1, and
   nothing at all when nX < 0 or nY <= 0.
   */
  lemma SampledPoints(b: Box, p: Point)
    ensures p in SampleTrace(b) <==>
              Steps(b.xs) >= 0 && exists u :: 0 <= u < Steps(b.ys) && p == DiagonalPoint(b, u)
  {
    var d := Diagonal(b);
    RepeatMembers(d, Max0(Steps(b.xs) + 1), p);
    if p in d {
      var u :| 0 <= u < |d| && d[u] == p;
    }
    if exists u :: 0 <= u < Steps(b.ys) && p == DiagonalPoint(b, u) {
      var u :| 0 <= u < Steps(b.ys) && p == DiagonalPoint(b, u);
      assert d[u] == p;
    }
  }

  /** Each diagonal point is sampled once per pass of the outer loop: nX+1 times. */
  lemma SampledMultiplicity(b: Box, u: nat)
    requires u < Steps(b.ys)
    ensures multiset(SampleTrace(b))[DiagonalPoint(b, u)] == Max0(Steps(b.xs) + 1)
  {
    var d := Diagonal(b);
    RepeatCount(d, Max0(Steps(b.xs) + 1), DiagonalPoint(b, u));
    assert d == seq(|d|, k requires 0 <= k => DiagonalPoint(b, k));
    DiagonalCount(b, |d|, u);
  }

  /** On a flat surface the sampled range is the surface height itself. */
  lemma FlatSurface(b: Box, c: real, surface: (real, real) -> real)
    requires Finite(c)
    requires forall x, y :: surface(x, y) == c
    requires Steps(b.xs) >= 0 && Steps(b.ys) > 0
    ensures SampledRange(b, surface) == Range(c, c)
    ensures Amplitude(SampledRange(b, surface)) == 0.0
  {
    var hs := Heights(SampleTrace(b), surface);
    SampledPoints(b, DiagonalPoint(b, 0));
    assert |hs| > 0;
    HullAttained(hs);
  }

  /**
   A footprint less than one step deep in y samples nothing: minZ and maxZ keep
   their sentinels and the amplitude is 2*max, above any finite limit.
   */
  lemma ThinFootprintKeepsSentinels(b: Box, surface: (real, real) -> real)
    requires Steps(b.ys) <= 0
    ensures SampleTrace(b) == []
    ensures SampledRange(b, surface) == Sentinels
    ensures Amplitude(SampledRange(b, surface)) == 2.0 * BIG
  {
    RepeatEmpty<Point>(Max0(Steps(b.xs) + 1));
  }

  lemma {:induction false} RepeatEmpty<T>(m: nat)
    ensures Repeat<T>([], m) == []
    decreases m
  {
    if m > 0 {
      RepeatEmpty<T>(m - 1);
    }
  }
}
