/** Room rectangles: construction, centre, overlap test and the centre ordering
    used to sort rooms before they are joined by tunnels. */
module Rects {

  /** A room. `connections` is the tunnel counter of the game; see Dungeon. */
  datatype Rect = Rect(x1: int, y1: int, x2: int, y2: int, connections: int)

  /** `Rect::new(x, y, w, h)`: the corners are (x, y) and (x + w, y + h). */
  function NewRect(x: int, y: int, w: int, h: int): (r: Rect)
    ensures r.x1 == x && r.y1 == y
    ensures r.x2 - r.x1 == w && r.y2 - r.y1 == h
    ensures r.connections == 0
  {
    Rect(x, y, x + w, y + h, 0)
  }

  /** Signed 32-bit division by two, which truncates toward zero. */
  function HalfTowardZero(n: int): (h: int)
    ensures n >= 0 ==> 0 <= 2 * h <= n <= 2 * h + 1
    ensures n < 0 ==> 2 * h - 1 <= n <= 2 * h <= 0
  {
    if n >= 0 then n / 2 else -((-n) / 2)
  }

  /** `Rect::center`: the midpoint of each side, rounded toward zero. */
  function Center(r: Rect): (c: (int, int))
    ensures 0 <= r.x1 <= r.x2 ==> r.x1 <= c.0 <= r.x2
    ensures 0 <= r.y1 <= r.y2 ==> r.y1 <= c.1 <= r.y2
    ensures 0 <= r.x1 && r.x1 + 2 <= r.x2 ==> r.x1 < c.0 < r.x2
    ensures 0 <= r.y1 && r.y1 + 2 <= r.y2 ==> r.y1 < c.1 < r.y2
    ensures r.x1 + r.x2 >= 0 ==> 2 * c.0 <= r.x1 + r.x2 <= 2 * c.0 + 1
    ensures r.y1 + r.y2 >= 0 ==> 2 * c.1 <= r.y1 + r.y2 <= 2 * c.1 + 1
    ensures r.x1 + r.x2 < 0 ==> 2 * c.0 - 1 <= r.x1 + r.x2 <= 2 * c.0
    ensures r.y1 + r.y2 < 0 ==> 2 * c.1 - 1 <= r.y1 + r.y2 <= 2 * c.1
  {
    (HalfTowardZero(r.x1 + r.x2), HalfTowardZero(r.y1 + r.y2))
  }

  /** The closed rectangle contains the cell (x, y). */
  predicate Contains(r: Rect, x: int, y: int) {
    r.x1 <= x <= r.x2 && r.y1 <= y <= r.y2
  }

  /** `Rect::intersects_with`: overlap of the closed intervals on both axes. */
  predicate IntersectsWith(a: Rect, b: Rect) {
    a.x1 <= b.x2 && a.x2 >= b.x1 && a.y1 <= b.y2 && a.y2 >= b.y1
  }

  predicate Proper(r: Rect) {
    r.x1 <= r.x2 && r.y1 <= r.y2
  }

  /** The overlap test is symmetric. */
  lemma IntersectsSymmetric(a: Rect, b: Rect)
    ensures IntersectsWith(a, b) <==> IntersectsWith(b, a)
  {
  }

  /** Two proper rectangles intersect exactly when some cell lies in both. */
  lemma IntersectsIffShareCell(a: Rect, b: Rect)
    requires Proper(a) && Proper(b)
    ensures IntersectsWith(a, b) <==> exists x, y :: Contains(a, x, y) && Contains(b, x, y)
  {
    if IntersectsWith(a, b) {
      var x, y := if a.x1 <= b.x1 then b.x1 else a.x1, if a.y1 <= b.y1 then b.y1 else a.y1;
      assert Contains(a, x, y) && Contains(b, x, y);
    }
  }

  /** Rectangles that do not intersect have different centres. */
  lemma DisjointRectsHaveDistinctCenters(a: Rect, b: Rect)
    requires 0 <= a.x1 <= a.x2 && 0 <= a.y1 <= a.y2
    requires 0 <= b.x1 <= b.x2 && 0 <= b.y1 <= b.y2
    requires !IntersectsWith(a, b)
    ensures Center(a) != Center(b)
  {
    var c, d := Center(a), Center(b);
    assert Contains(a, c.0, c.1) && Contains(b, d.0, d.1);
  }

  /** Lexicographic order on (centre y, centre x). */
  predicate CenterLess(a: Rect, b: Rect) {
    var (acx, acy) := Center(a);
    var (bcx, bcy) := Center(b);
    acy < bcy || (acy == bcy && acx < bcx)
  }

  datatype Ordering = Less | Equal | Greater

  /** The comparator passed to `rooms.sort_by` in `make_map`, branch for branch. */
  function CompareCenters(a: Rect, b: Rect): (o: Ordering)
    ensures o == Less <==> CenterLess(a, b)
    ensures o == Equal <==> Center(a) == Center(b)
    ensures o == Greater <==> CenterLess(b, a)
  {
    var (acx, acy) := Center(a);
    var (bcx, bcy) := Center(b);
    if acy < bcy then Less
    else if acy == bcy && acx == bcx then Equal
    else if acy == bcy && acx < bcx then Less
    else Greater
  }

  /** Non-decreasing by centre. */
  predicate SortedByCenter(rs: seq<Rect>) {
    forall i, j | 0 <= i < j < |rs| :: !CenterLess(rs[j], rs[i])
  }

  /** Strictly increasing by centre. */
  predicate StrictlySortedByCenter(rs: seq<Rect>) {
    forall i, j | 0 <= i < j < |rs| :: CenterLess(rs[i], rs[j])
  }

  /** Putting a room no greater than every element in front keeps the order. */
  lemma ConsSorted(h: Rect, t: seq<Rect>)
    requires SortedByCenter(t) && forall k | 0 <= k < |t| :: !CenterLess(t[k], h)
    ensures SortedByCenter([h] + t)
  {
    var s := [h] + t;
    forall i, j | 0 <= i < j < |s|
      ensures !CenterLess(s[j], s[i])
    {
      assert s[j] == t[j - 1];
      if i > 0 { assert s[i] == t[i - 1]; }
    }
  }

  /** Every element of a permutation of `r` and the tail of a sorted `rs` is
      no less than `rs[0]`, when `r` is greater than it. */
  lemma InsertedNotBelow(r: Rect, rs: seq<Rect>, tail: seq<Rect>)
    requires |rs| > 0 && SortedByCenter(rs) && CenterLess(rs[0], r)
    requires multiset(tail) == multiset(rs[1..]) + multiset{r}
    ensures forall k | 0 <= k < |tail| :: !CenterLess(tail[k], rs[0])
  {
    forall k | 0 <= k < |tail|
      ensures !CenterLess(tail[k], rs[0])
    {
      assert tail[k] in multiset(tail);
      if tail[k] != r {
        assert tail[k] in rs[1..];
        var j :| 0 <= j < |rs[1..]| && rs[1..][j] == tail[k];
        assert rs[j + 1] == tail[k];
      }
    }
  }

  /** Inserts `r` in front of the first element it does not compare Greater
      than, so that equal elements keep their original order. */
  function InsertByCenter(r: Rect, rs: seq<Rect>): (s: seq<Rect>)
    requires SortedByCenter(rs)
    ensures SortedByCenter(s)
    ensures multiset(s) == multiset(rs) + multiset{r}
    ensures |s| == |rs| + 1
  {
    if |rs| == 0 then [r]
    else if CompareCenters(r, rs[0]) == Greater then
      var tail := InsertByCenter(r, rs[1..]);
      InsertedNotBelow(r, rs, tail);
      ConsSorted(rs[0], tail);
      assert rs == [rs[0]] + rs[1..];
      [rs[0]] + tail
    else
      assert forall k | 0 <= k < |rs| :: !CenterLess(rs[k], r) by {
        forall k | 0 <= k < |rs|
          ensures !CenterLess(rs[k], r)
        {
          if k > 0 { assert !CenterLess(rs[k], rs[0]); }
        }
      }
      ConsSorted(r, rs);
      [r] + rs
  }

  /** A stable sort of the rooms by `CompareCenters`, as `sort_by` is. */
  function SortByCenter(rs: seq<Rect>): (s: seq<Rect>)
    ensures SortedByCenter(s)
    ensures multiset(s) == multiset(rs)
    ensures |s| == |rs|
  {
    if |rs| == 0 then []
    else
      assert rs == [rs[0]] + rs[1..];
      InsertByCenter(rs[0], SortByCenter(rs[1..]))
  }

  /** Rooms whose centres are pairwise distinct are strictly ordered once sorted. */
  lemma SortedDistinctIsStrict(rs: seq<Rect>)
    requires SortedByCenter(rs)
    requires forall i, j | 0 <= i < j < |rs| :: Center(rs[i]) != Center(rs[j])
    ensures StrictlySortedByCenter(rs)
  {
  }

  /** In a strictly sorted sequence every element other than the head lies above it. */
  lemma HeadIsLeast(s: seq<Rect>, x: Rect)
    requires StrictlySortedByCenter(s)
    requires x in multiset(s)
    ensures x == s[0] || CenterLess(s[0], x)
  {
    var k :| 0 <= k < |s| && s[k] == x;
    assert k == 0 || CenterLess(s[0], s[k]);
  }

  /** Two strictly sorted arrangements of the same non-empty collection
      start with the same room. */
  lemma SameHead(a: seq<Rect>, b: seq<Rect>)
    requires StrictlySortedByCenter(a) && StrictlySortedByCenter(b)
    requires multiset(a) == multiset(b) && |a| > 0
    ensures |b| > 0 && a[0] == b[0]
  {
    assert a[0] in multiset(a);
    assert |b| > 0;
    assert b[0] in multiset(b);
    HeadIsLeast(b, a[0]);
    HeadIsLeast(a, b[0]);
  }

  lemma TailMultiset<T>(a: seq<T>)
    requires |a| > 0
    ensures multiset(a[1..]) == multiset(a) - multiset{a[0]}
  {
    assert a == [a[0]] + a[1..];
  }

  /** There is only one strictly sorted arrangement of a collection of rooms,
      so any correct sort, stable or not, produces the same sequence. */
  lemma {:induction false} StrictSortIsUnique(a: seq<Rect>, b: seq<Rect>)
    requires StrictlySortedByCenter(a) && StrictlySortedByCenter(b)
    requires multiset(a) == multiset(b)
    ensures a == b
  {
    if |a| == 0 {
      assert |multiset(b)| == 0;
    } else {
      SameHead(a, b);
      TailMultiset(a);
      TailMultiset(b);
      StrictSortIsUnique(a[1..], b[1..]);
      assert a == [a[0]] + a[1..];
      assert b == [b[0]] + b[1..];
    }
  }

  /** No two rooms of the sequence overlap. */
  predicate PairwiseDisjoint(rs: seq<Rect>) {
    forall i, j | 0 <= i < j < |rs| :: !IntersectsWith(rs[i], rs[j])
  }

  /** Putting in front a room that overlaps none of a disjoint sequence
      keeps it disjoint. */
  lemma ConsDisjoint(h: Rect, t: seq<Rect>)
    requires PairwiseDisjoint(t) && forall k | 0 <= k < |t| :: !IntersectsWith(h, t[k])
    ensures PairwiseDisjoint([h] + t)
  {
    var s := [h] + t;
    forall i, j | 0 <= i < j < |s|
      ensures !IntersectsWith(s[i], s[j])
    {
      assert s[j] == t[j - 1];
      if i > 0 { assert s[i] == t[i - 1]; }
    }
  }

  /** The first room of a disjoint sequence overlaps nothing in a permutation
      of its tail and a room that does not overlap it. */
  lemma HeadDisjointFromInserted(r: Rect, rs: seq<Rect>, tail: seq<Rect>)
    requires |rs| > 0 && PairwiseDisjoint(rs) && !IntersectsWith(r, rs[0])
    requires multiset(tail) == multiset(rs[1..]) + multiset{r}
    ensures forall k | 0 <= k < |tail| :: !IntersectsWith(rs[0], tail[k])
  {
    forall k | 0 <= k < |tail|
      ensures !IntersectsWith(rs[0], tail[k])
    {
      assert tail[k] in multiset(tail);
      if tail[k] == r {
        IntersectsSymmetric(r, rs[0]);
      } else {
        assert tail[k] in multiset(rs[1..]);
        var j :| 0 <= j < |rs[1..]| && rs[1..][j] == tail[k];
        assert rs[j + 1] == tail[k];
      }
    }
  }

  /** Inserting a room that overlaps none of a disjoint sequence keeps it disjoint. */
  lemma {:induction false} InsertKeepsDisjoint(r: Rect, rs: seq<Rect>)
    requires SortedByCenter(rs) && PairwiseDisjoint(rs)
    requires forall x | x in rs :: !IntersectsWith(r, x)
    ensures PairwiseDisjoint(InsertByCenter(r, rs))
  {
    if |rs| == 0 {
    } else if CompareCenters(r, rs[0]) == Greater {
      var tail := InsertByCenter(r, rs[1..]);
      InsertKeepsDisjoint(r, rs[1..]);
      assert rs[0] in rs;
      HeadDisjointFromInserted(r, rs, tail);
      ConsDisjoint(rs[0], tail);
      assert InsertByCenter(r, rs) == [rs[0]] + tail;
    } else {
      assert forall k | 0 <= k < |rs| :: rs[k] in rs;
      ConsDisjoint(r, rs);
      assert InsertByCenter(r, rs) == [r] + rs;
    }
  }

  /** Sorting keeps a collection of rooms pairwise disjoint. */
  lemma {:induction false} SortKeepsDisjoint(rs: seq<Rect>)
    requires PairwiseDisjoint(rs)
    ensures PairwiseDisjoint(SortByCenter(rs))
  {
    if |rs| > 0 {
      var sorted := SortByCenter(rs[1..]);
      assert PairwiseDisjoint(rs[1..]);
      SortKeepsDisjoint(rs[1..]);
      forall x | x in sorted
        ensures !IntersectsWith(rs[0], x)
      {
        assert x in multiset(sorted);
        var j :| 0 <= j < |rs[1..]| && rs[1..][j] == x;
        assert rs[j + 1] == x;
      }
      InsertKeepsDisjoint(rs[0], sorted);
    }
  }
}
