/** Walking on the carved map: 4-connected paths of walkable cells, the
    straight segments a tunnel lays down, and reachability between cells. */
module Paths {
  import opened Common
  import opened Tiles
  import opened Carving

  type Point = (int, int)

  /** Two cells sharing a side. */
  predicate Adjacent(p: Point, q: Point) {
    || (p.0 == q.0 && (p.1 == q.1 + 1 || q.1 == p.1 + 1))
    || (p.1 == q.1 && (p.0 == q.0 + 1 || q.0 == p.0 + 1))
  }

  /** Consecutive cells share a side. */
  predicate IsPath(path: seq<Point>) {
    forall i | 0 <= i < |path| - 1 :: Adjacent(path[i], path[i + 1])
  }

  /** A 4-connected walk from `a` to `b` over walkable cells of `m`. */
  predicate WalkablePath(m: Grid, path: seq<Point>, a: Point, b: Point)
    requires ValidMap(m)
  {
    && |path| > 0 && path[0] == a && path[|path| - 1] == b
    && IsPath(path)
    && forall i | 0 <= i < |path| :: Floor(m, path[i].0, path[i].1)
  }

  /** `b` can be reached from `a` by walking on floor, one side at a time. */
  ghost predicate Connected(m: Grid, a: Point, b: Point)
    requires ValidMap(m)
  {
    exists path :: WalkablePath(m, path, a, b)
  }

  /** The cells (x, y) from x0 to x1 inclusive, in walking order. */
  function HSeg(x0: int, x1: int, y: int): (p: seq<Point>)
    ensures |p| > 0 && p[0] == (x0, y) && p[|p| - 1] == (x1, y)
    ensures IsPath(p)
    ensures forall i | 0 <= i < |p| :: p[i].1 == y && Min(x0, x1) <= p[i].0 <= Max(x0, x1)
    decreases if x0 <= x1 then x1 - x0 else x0 - x1
  {
    if x0 == x1 then [(x0, y)]
    else
      var rest := HSeg(if x0 < x1 then x0 + 1 else x0 - 1, x1, y);
      assert forall i | 1 <= i < |rest| + 1 :: ([(x0, y)] + rest)[i] == rest[i - 1];
      [(x0, y)] + rest
  }

  /** The cells (x, y) from y0 to y1 inclusive, in walking order. */
  function VSeg(x: int, y0: int, y1: int): (p: seq<Point>)
    ensures |p| > 0 && p[0] == (x, y0) && p[|p| - 1] == (x, y1)
    ensures IsPath(p)
    ensures forall i | 0 <= i < |p| :: p[i].0 == x && Min(y0, y1) <= p[i].1 <= Max(y0, y1)
    decreases if y0 <= y1 then y1 - y0 else y0 - y1
  {
    if y0 == y1 then [(x, y0)]
    else
      var rest := VSeg(x, if y0 < y1 then y0 + 1 else y0 - 1, y1);
      assert forall i | 1 <= i < |rest| + 1 :: ([(x, y0)] + rest)[i] == rest[i - 1];
      [(x, y0)] + rest
  }

  /** A horizontal tunnel makes its whole segment walkable. */
  lemma HTunnelIsWalkable(x0: int, x1: int, y: int, m: Grid)
    requires ValidMap(m) && InBounds(x0, y) && InBounds(x1, y)
    ensures WalkablePath(CreateHTunnel(x0, x1, y, m), HSeg(x0, x1, y), (x0, y), (x1, y))
  {
  }

  /** A vertical tunnel makes its whole segment walkable. */
  lemma VTunnelIsWalkable(y0: int, y1: int, x: int, m: Grid)
    requires ValidMap(m) && InBounds(x, y0) && InBounds(x, y1)
    ensures WalkablePath(CreateVTunnel(y0, y1, x, m), VSeg(x, y0, y1), (x, y0), (x, y1))
  {
  }

  /** A walk stays a walk on any map that keeps every walkable cell. */
  lemma WalkableKept(m: Grid, r: Grid, path: seq<Point>, a: Point, b: Point)
    requires ValidMap(m) && ValidMap(r) && NoNewWalls(m, r)
    requires WalkablePath(m, path, a, b)
    ensures WalkablePath(r, path, a, b)
  {
    forall i | 0 <= i < |path|
      ensures Floor(r, path[i].0, path[i].1)
    {
      assert Floor(m, path[i].0, path[i].1);
    }
  }

  /** Two walks sharing an end form one walk. */
  lemma JoinWalkable(m: Grid, p: seq<Point>, q: seq<Point>, a: Point, b: Point, c: Point)
    requires ValidMap(m)
    requires WalkablePath(m, p, a, b) && WalkablePath(m, q, b, c)
    ensures WalkablePath(m, p + q[1..], a, c)
  {
    var j := p + q[1..];
    assert forall i | |p| <= i < |j| :: j[i] == q[i - |p| + 1];
    forall i | 0 <= i < |j| - 1
      ensures Adjacent(j[i], j[i + 1])
    {
      if i < |p| - 1 {
        assert j[i] == p[i] && j[i + 1] == p[i + 1];
      } else {
        assert j[i] == q[i - |p| + 1] && j[i + 1] == q[i - |p| + 2];
      }
    }
  }

  /** The same walk in the opposite direction. */
  function Reverse(p: seq<Point>): (r: seq<Point>)
    ensures |r| == |p|
    ensures forall i | 0 <= i < |p| :: r[i] == p[|p| - 1 - i]
  {
    seq(|p|, i requires 0 <= i < |p| => p[|p| - 1 - i])
  }

  lemma ReverseWalkable(m: Grid, p: seq<Point>, a: Point, b: Point)
    requires ValidMap(m) && WalkablePath(m, p, a, b)
    ensures WalkablePath(m, Reverse(p), b, a)
  {
    var r := Reverse(p);
    forall i | 0 <= i < |r| - 1
      ensures Adjacent(r[i], r[i + 1])
    {
      assert Adjacent(p[|p| - 2 - i], p[|p| - 1 - i]);
    }
    forall i | 0 <= i < |r|
      ensures Floor(m, r[i].0, r[i].1)
    {
      assert r[i] == p[|p| - 1 - i];
    }
  }

  /** Reachability is symmetric. */
  lemma ConnectedSymmetric(m: Grid, a: Point, b: Point)
    requires ValidMap(m) && Connected(m, a, b)
    ensures Connected(m, b, a)
  {
    var p :| WalkablePath(m, p, a, b);
    ReverseWalkable(m, p, a, b);
  }

  /** Reachability is transitive. */
  lemma ConnectedTransitive(m: Grid, a: Point, b: Point, c: Point)
    requires ValidMap(m) && Connected(m, a, b) && Connected(m, b, c)
    ensures Connected(m, a, c)
  {
    var p :| WalkablePath(m, p, a, b);
    var q :| WalkablePath(m, q, b, c);
    JoinWalkable(m, p, q, a, b, c);
  }

  /** Carving that adds no walls keeps every reachable pair reachable. */
  lemma ConnectedKept(m: Grid, r: Grid, a: Point, b: Point)
    requires ValidMap(m) && ValidMap(r) && NoNewWalls(m, r)
    requires Connected(m, a, b)
    ensures Connected(r, a, b)
  {
    var p :| WalkablePath(m, p, a, b);
    WalkableKept(m, r, p, a, b);
  }
}
