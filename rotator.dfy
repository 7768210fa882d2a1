/** The planar rotator: Rotate90 turns each of the three planes of a tensor a
    quarter turn clockwise, in place, by cycling the four cells of every orbit
    of the quarter turn. */
module Rotator {
  import opened Layout

  /** Every plane of t turned a quarter turn clockwise: the cell in row y,
      column x of plane c receives the value from row s-1-x, column y of the
      same plane.  Cells past the three planes are kept. */
  function Rotated<T>(s: nat, t: seq<T>): (r: seq<T>)
    requires |t| >= 3 * s * s
    ensures |r| == |t|
    ensures forall k | 3 * s * s <= k < |t| :: r[k] == t[k]
  {
    if s == 0 then t
    else
      seq(|t|, k requires 0 <= k < |t| =>
        if k < 3 * s * s then
          DecodeInRange(s, k);
          t[PlaneIndex(s, Plane(s, k), s - 1 - Col(s, k), Row(s, k))]
        else t[k])
  }

  /** The value a cell receives from the quarter turn. */
  lemma RotatedAt<T>(s: nat, t: seq<T>, c: nat, y: nat, x: nat)
    requires |t| >= 3 * s * s && c < 3 && y < s && x < s
    ensures Rotated(s, t)[PlaneIndex(s, c, y, x)] == t[PlaneIndex(s, c, s - 1 - x, y)]
  {
    PlaneIndexDecodes(s, c, y, x);
  }

  /** Four quarter turns give back the tensor: values are moved, never changed. */
  lemma FourTurnsRestore<T>(s: nat, t: seq<T>)
    requires |t| >= 3 * s * s
    ensures Rotated(s, Rotated(s, Rotated(s, Rotated(s, t)))) == t
  {
    var r4 := Rotated(s, Rotated(s, Rotated(s, Rotated(s, t))));
    forall k | 0 <= k < |t|
      ensures r4[k] == t[k]
    {
      if k < 3 * s * s {
        DecodeInRange(s, k);
        FourTurnsRestoreCell(s, t, Plane(s, k), Row(s, k), Col(s, k));
      }
    }
  }

  /** Following one cell through four quarter turns. */
  lemma FourTurnsRestoreCell<T>(s: nat, t: seq<T>, c: nat, y: nat, x: nat)
    requires |t| >= 3 * s * s && c < 3 && y < s && x < s
    ensures Rotated(s, Rotated(s, Rotated(s, Rotated(s, t))))[PlaneIndex(s, c, y, x)] == t[PlaneIndex(s, c, y, x)]
  {
    var r1 := Rotated(s, t);
    var r2 := Rotated(s, r1);
    var r3 := Rotated(s, r2);
    // the cell each turn takes the value from, going back one turn at a time
    var y1, x1 := s - 1 - x, y;
    var y2, x2 := s - 1 - x1, y1;
    var y3, x3 := s - 1 - x2, y2;
    assert s - 1 - x3 == y && y3 == x;
    RotatedAt(s, r3, c, y, x);
    RotatedAt(s, r2, c, y1, x1);
    RotatedAt(s, r1, c, y2, x2);
    RotatedAt(s, t, c, y3, x3);
  }

  /** t after n quarter turns. */
  function RotatedN<T>(s: nat, t: seq<T>, n: nat): (r: seq<T>)
    requires |t| >= 3 * s * s
    ensures |r| == |t|
  {
    if n == 0 then t else Rotated(s, RotatedN(s, t, n - 1))
  }

  /** Turning is periodic with period four. */
  lemma {:induction false} RotatedNPeriodic<T>(s: nat, t: seq<T>, n: nat)
    requires |t| >= 3 * s * s
    ensures RotatedN(s, t, n + 4) == RotatedN(s, t, n)
  {
    if n == 0 {
      var r1 := RotatedN(s, t, 1);
      var r2 := RotatedN(s, t, 2);
      var r3 := RotatedN(s, t, 3);
      assert r1 == Rotated(s, t);
      assert r2 == Rotated(s, r1);
      assert r3 == Rotated(s, r2);
      assert RotatedN(s, t, 4) == Rotated(s, r3);
      FourTurnsRestore(s, t);
    } else {
      RotatedNPeriodic(s, t, n - 1);
      assert RotatedN(s, t, n + 4) == Rotated(s, RotatedN(s, t, n + 3));
    }
  }

  /** The cells of plane c of t, in row-major order. */
  function PlaneOf<T>(s: nat, t: seq<T>, c: nat): (p: seq<T>)
    requires |t| >= 3 * s * s && c < 3
    ensures |p| == s * s
  {
    PlaneEndsInTensor(s, c);
    t[PlaneStart(s, c) .. PlaneStart(s, c) + s * s]
  }

  /** Row and column of the top-left-quadrant cell whose orbit under the
      quarter turn holds cell (i, j); the orbit of (y, x) is (y, x),
      (x, s-1-y), (s-1-y, s-1-x) and (s-1-x, y). */
  function QuadrantRow(s: nat, i: nat, j: nat): (y: nat)
    requires s % 2 == 0 && i < s && j < s
    ensures y < s / 2
  {
    var h := s / 2;
    if i < h && j < h then i
    else if i < h then s - 1 - j
    else if h <= j then s - 1 - i
    else j
  }

  function QuadrantCol(s: nat, i: nat, j: nat): (x: nat)
    requires s % 2 == 0 && i < s && j < s
    ensures x < s / 2
  {
    var h := s / 2;
    if i < h && j < h then j
    else if i < h then i
    else if h <= j then s - 1 - j
    else s - 1 - i
  }

  /** For even s the quadrant loops visit every cell exactly once: each cell
      lies in the orbit of its quadrant cell, and in no other orbit. */
  lemma OrbitsPartitionPlane(s: nat, i: nat, j: nat, y: nat, x: nat)
    requires s % 2 == 0 && i < s && j < s && y < s / 2 && x < s / 2
    ensures var qy, qx := QuadrantRow(s, i, j), QuadrantCol(s, i, j);
      (i, j) in {(qy, qx), (qx, s - 1 - qy), (s - 1 - qy, s - 1 - qx), (s - 1 - qx, qy)}
    ensures (i, j) in {(y, x), (x, s - 1 - y), (s - 1 - y, s - 1 - x), (s - 1 - x, y)} <==>
      QuadrantRow(s, i, j) == y && QuadrantCol(s, i, j) == x
  {
  }

  /** The cell (i, j) of plane c' has been handled once the loops have passed
      its quadrant cell, when they are about to handle (y, x) of plane c. */
  ghost predicate Handled(s: nat, c': nat, i: nat, j: nat, c: nat, y: nat, x: nat)
    requires s % 2 == 0 && i < s && j < s
  {
    c' < c ||
    (c' == c &&
      (QuadrantRow(s, i, j) < y || (QuadrantRow(s, i, j) == y && QuadrantCol(s, i, j) < x)))
  }

  /** Every handled cell of cur holds its rotated value, taken from the cell
      of t a quarter turn back; every other cell its value in t.  The trigger
      is the read of the cell in cur alone, so that the reads of t in the body
      do not instantiate the quantifier again. */
  ghost predicate CellsAt<T>(s: nat, cur: seq<T>, t: seq<T>, c: nat, y: nat, x: nat)
    requires s % 2 == 0 && |t| >= 3 * s * s && |cur| == |t|
  {
    forall c': nat, i: nat, j: nat {:trigger cur[PlaneIndex(s, c', i, j)]}
      | c' < 3 && i < s && j < s ::
      cur[PlaneIndex(s, c', i, j)] ==
        if Handled(s, c', i, j, c, y, x) then t[PlaneIndex(s, c', s - 1 - j, i)]
        else t[PlaneIndex(s, c', i, j)]
  }

  /** The state of Rotate90 about to handle (y, x) of plane c, starting from t:
      handled cells hold their rotated value, the others their old value, each
      plane holds the same values as before, and nothing past the planes moved. */
  ghost predicate Progress<T>(s: nat, cur: seq<T>, t: seq<T>, c: nat, y: nat, x: nat)
    requires s % 2 == 0 && |t| >= 3 * s * s
  {
    && |cur| == |t|
    && cur[3 * s * s ..] == t[3 * s * s ..]
    && CellsAt(s, cur, t, c, y, x)
    && (forall c': nat | c' < 3 :: multiset(PlaneOf(s, cur, c')) == multiset(PlaneOf(s, t, c')))
  }

  /** The four assignments of one inner iteration of Rotate90: the value at i0
      moves to i1, i1 to i2, i2 to i3 and i3 to i0. */
  function Cycle4<T>(p: seq<T>, i0: nat, i1: nat, i2: nat, i3: nat): (r: seq<T>)
    requires i0 < |p| && i1 < |p| && i2 < |p| && i3 < |p|
    ensures |r| == |p|
  {
    var v0, v1, v2, v3 := p[i0], p[i1], p[i2], p[i3];
    p[i1 := v0][i2 := v1][i3 := v2][i0 := v3]
  }

  function Swap<T>(p: seq<T>, i: nat, j: nat): (r: seq<T>)
    requires i < |p| && j < |p|
    ensures |r| == |p|
  {
    p[i := p[j]][j := p[i]]
  }

  /** Swapping two cells of a slice keeps the multiset of the slice. */
  lemma SwapInSlice<T>(p: seq<T>, i: nat, j: nat, lo: nat, hi: nat)
    requires lo <= i < hi && lo <= j < hi && hi <= |p|
    ensures multiset(Swap(p, i, j)[lo..hi]) == multiset(p[lo..hi])
  {
    assert Swap(p, i, j)[lo..hi] == Swap(p[lo..hi], i - lo, j - lo);
  }

  /** A 4-cycle of distinct cells inside [lo, hi) is three swaps, so it keeps
      the multiset of the slice. */
  lemma Cycle4InSlice<T>(p: seq<T>, i0: nat, i1: nat, i2: nat, i3: nat, lo: nat, hi: nat)
    requires lo <= i0 < hi && lo <= i1 < hi && lo <= i2 < hi && lo <= i3 < hi && hi <= |p|
    requires i0 != i1 && i0 != i2 && i0 != i3 && i1 != i2 && i1 != i3 && i2 != i3
    ensures multiset(Cycle4(p, i0, i1, i2, i3)[lo..hi]) == multiset(p[lo..hi])
  {
    var p1 := Swap(p, i0, i1);
    var p2 := Swap(p1, i0, i2);
    assert Cycle4(p, i0, i1, i2, i3) == Swap(p2, i0, i3);
    SwapInSlice(p, i0, i1, lo, hi);
    SwapInSlice(p1, i0, i2, lo, hi);
    SwapInSlice(p2, i0, i3, lo, hi);
  }

  /** A 4-cycle outside [lo, hi) leaves the slice alone. */
  lemma Cycle4OutsideSlice<T>(p: seq<T>, i0: nat, i1: nat, i2: nat, i3: nat, lo: nat, hi: nat)
    requires i0 < |p| && i1 < |p| && i2 < |p| && i3 < |p| && lo <= hi <= |p|
    requires !(lo <= i0 < hi) && !(lo <= i1 < hi) && !(lo <= i2 < hi) && !(lo <= i3 < hi)
    ensures Cycle4(p, i0, i1, i2, i3)[lo..hi] == p[lo..hi]
  {
  }

  /** The flat indices of the orbit of quadrant cell (y, x) in plane c, in the
      order Rotate90 names them offset0 .. offset3: the plane's start plus the
      cell's place in the plane. */
  function OrbitIndex(s: nat, c: nat, y: nat, x: nat, n: nat): nat
    requires y < s && x < s
  {
    PlaneStart(s, c) +
      if n == 0 then RowStart(s, y) + x
      else if n == 1 then RowStart(s, x) + (s - 1 - y)
      else if n == 2 then RowStart(s, s - 1 - y) + (s - 1 - x)
      else RowStart(s, s - 1 - x) + y
  }

  /** The orbit of (y, x) is the cells (y, x), (x, s-1-y), (s-1-y, s-1-x) and
      (s-1-x, y) of plane c. */
  lemma OrbitCells(s: nat, c: nat, y: nat, x: nat)
    requires y < s && x < s
    ensures OrbitIndex(s, c, y, x, 0) == PlaneIndex(s, c, y, x)
    ensures OrbitIndex(s, c, y, x, 1) == PlaneIndex(s, c, x, s - 1 - y)
    ensures OrbitIndex(s, c, y, x, 2) == PlaneIndex(s, c, s - 1 - y, s - 1 - x)
    ensures OrbitIndex(s, c, y, x, 3) == PlaneIndex(s, c, s - 1 - x, y)
  {
  }

  /** The state after the inner iteration for (y, x) of plane c. */
  function CycleOrbit<T>(s: nat, cur: seq<T>, c: nat, y: nat, x: nat): (r: seq<T>)
    requires c < 3 && y < s && x < s && |cur| >= 3 * s * s
    ensures |r| == |cur|
  {
    OrbitCells(s, c, y, x);
    Cycle4(cur, OrbitIndex(s, c, y, x, 0), OrbitIndex(s, c, y, x, 1),
                OrbitIndex(s, c, y, x, 2), OrbitIndex(s, c, y, x, 3))
  }

  /** The four orbit cells of a quadrant cell are distinct cells of plane c. */
  lemma OrbitDistinct(s: nat, c: nat, y: nat, x: nat)
    requires s % 2 == 0 && c < 3 && y < s / 2 && x < s / 2
    ensures forall n: nat, m: nat | n < m < 4 :: OrbitIndex(s, c, y, x, n) != OrbitIndex(s, c, y, x, m)
  {
    OrbitCells(s, c, y, x);
    PlaneIndexInjective(s, c, y, x, c, x, s - 1 - y);
    PlaneIndexInjective(s, c, y, x, c, s - 1 - y, s - 1 - x);
    PlaneIndexInjective(s, c, y, x, c, s - 1 - x, y);
    PlaneIndexInjective(s, c, x, s - 1 - y, c, s - 1 - y, s - 1 - x);
    PlaneIndexInjective(s, c, x, s - 1 - y, c, s - 1 - x, y);
    PlaneIndexInjective(s, c, s - 1 - y, s - 1 - x, c, s - 1 - x, y);
  }

  /** The offsets Rotate90 computes for quadrant cell (y, x) of plane c are
      the orbit of (y, x), inside the tensor. */
  lemma OrbitOffsets(s: nat, c: nat, y: nat, x: nat, baseOffset: nat,
                     offset0: nat, offset1: nat, offset2: nat, offset3: nat)
    requires s % 2 == 0 && c < 3 && y < s / 2 && x < s / 2 && baseOffset == PlaneStart(s, c)
    requires offset0 == RowStart(s, y) + x && offset1 == RowStart(s, x) + (s - 1 - y)
    requires offset2 == RowStart(s, s - 1 - y) + (s - 1 - x) && offset3 == RowStart(s, s - 1 - x) + y
    ensures offset0 + baseOffset == OrbitIndex(s, c, y, x, 0) < 3 * s * s
    ensures offset1 + baseOffset == OrbitIndex(s, c, y, x, 1) < 3 * s * s
    ensures offset2 + baseOffset == OrbitIndex(s, c, y, x, 2) < 3 * s * s
    ensures offset3 + baseOffset == OrbitIndex(s, c, y, x, 3) < 3 * s * s
  {
    OrbitCells(s, c, y, x);
  }

  /** One inner iteration moves every orbit cell to its rotated value and
      leaves every other cell alone. */
  lemma CycleStepCells<T>(s: nat, t: seq<T>, before: seq<T>, c: nat, y: nat, x: nat)
    requires s % 2 == 0 && |t| >= 3 * s * s && |before| == |t|
    requires c < 3 && y < s / 2 && x < s / 2
    requires CellsAt(s, before, t, c, y, x)
    ensures CellsAt(s, CycleOrbit(s, before, c, y, x), t, c, y, x + 1)
  {
    var after := CycleOrbit(s, before, c, y, x);
    forall c': nat, i: nat, j: nat {:trigger after[PlaneIndex(s, c', i, j)]}
      | c' < 3 && i < s && j < s
      ensures after[PlaneIndex(s, c', i, j)] ==
        if Handled(s, c', i, j, c, y, x + 1) then t[PlaneIndex(s, c', s - 1 - j, i)]
        else t[PlaneIndex(s, c', i, j)]
    {
      HandledStep(s, c', i, j, c, y, x);
      if c' == c && QuadrantRow(s, i, j) == y && QuadrantCol(s, i, j) == x {
        CycleTurnsOrbitCell(s, before, c, y, x, i, j);
        OrbitsPartitionPlane(s, s - 1 - j, i, y, x);
        assert !Handled(s, c, s - 1 - j, i, c, y, x);
      } else {
        CycleKeepsOthers(s, before, c, y, x, c', i, j);
      }
    }
  }

  /** A cell of the orbit of (y, x) receives, through its cycle, the value of
      the cell a quarter turn back. */
  lemma CycleTurnsOrbitCell<T>(s: nat, before: seq<T>, c: nat, y: nat, x: nat, i: nat, j: nat)
    requires s % 2 == 0 && |before| >= 3 * s * s && c < 3 && y < s / 2 && x < s / 2
    requires i < s && j < s && QuadrantRow(s, i, j) == y && QuadrantCol(s, i, j) == x
    ensures CycleOrbit(s, before, c, y, x)[PlaneIndex(s, c, i, j)] == before[PlaneIndex(s, c, s - 1 - j, i)]
  {
    var n := OrbitPosition(s, c, i, j, y, x);
    CycleMovesOrbit(s, before, c, y, x, n);
  }

  /** A cell whose quadrant cell is (y, x) is orbit member n of (y, x), and the
      cell a quarter turn back from it is member n - 1, cyclically. */
  lemma OrbitPosition(s: nat, c: nat, i: nat, j: nat, y: nat, x: nat) returns (n: nat)
    requires s % 2 == 0 && i < s && j < s && y < s / 2 && x < s / 2
    requires QuadrantRow(s, i, j) == y && QuadrantCol(s, i, j) == x
    ensures n < 4 && PlaneIndex(s, c, i, j) == OrbitIndex(s, c, y, x, n)
    ensures PlaneIndex(s, c, s - 1 - j, i) == OrbitIndex(s, c, y, x, (n + 3) % 4)
  {
    OrbitsPartitionPlane(s, i, j, y, x);
    OrbitCells(s, c, y, x);
    if i == y && j == x {
      n := 0;
    } else if i == x && j == s - 1 - y {
      n := 1;
    } else if i == s - 1 - y && j == s - 1 - x {
      n := 2;
    } else {
      n := 3;
    }
  }

  /** Handling (y, x) of plane c adds exactly the orbit of (y, x) to the
      handled cells. */
  lemma HandledStep(s: nat, c': nat, i: nat, j: nat, c: nat, y: nat, x: nat)
    requires s % 2 == 0 && i < s && j < s
    ensures Handled(s, c', i, j, c, y, x + 1) <==>
      Handled(s, c', i, j, c, y, x) ||
      (c' == c && QuadrantRow(s, i, j) == y && QuadrantCol(s, i, j) == x)
  {
  }

  /** Cells outside the orbit of (y, x) keep their value through its cycle. */
  lemma CycleKeepsOthers<T>(s: nat, before: seq<T>, c: nat, y: nat, x: nat, c': nat, i: nat, j: nat)
    requires s % 2 == 0 && |before| >= 3 * s * s && c < 3 && y < s / 2 && x < s / 2
    requires c' < 3 && i < s && j < s
    requires !(c' == c && QuadrantRow(s, i, j) == y && QuadrantCol(s, i, j) == x)
    ensures CycleOrbit(s, before, c, y, x)[PlaneIndex(s, c', i, j)] == before[PlaneIndex(s, c', i, j)]
  {
    OrbitCells(s, c, y, x);
    OrbitsPartitionPlane(s, i, j, y, x);
    PlaneIndexInjective(s, c', i, j, c, y, x);
    PlaneIndexInjective(s, c', i, j, c, x, s - 1 - y);
    PlaneIndexInjective(s, c', i, j, c, s - 1 - y, s - 1 - x);
    PlaneIndexInjective(s, c', i, j, c, s - 1 - x, y);
  }

  /** Each orbit cell receives the value of the orbit cell before it. */
  lemma CycleMovesOrbit<T>(s: nat, before: seq<T>, c: nat, y: nat, x: nat, n: nat)
    requires s % 2 == 0 && |before| >= 3 * s * s && c < 3 && y < s / 2 && x < s / 2 && n < 4
    ensures OrbitIndex(s, c, y, x, n) < |before| && OrbitIndex(s, c, y, x, (n + 3) % 4) < |before|
    ensures CycleOrbit(s, before, c, y, x)[OrbitIndex(s, c, y, x, n)] ==
      before[OrbitIndex(s, c, y, x, (n + 3) % 4)]
  {
    OrbitCells(s, c, y, x);
    OrbitDistinct(s, c, y, x);
  }

  /** One inner iteration keeps the values of every plane and the cells past
      the planes. */
  lemma CycleStepPlanes<T>(s: nat, t: seq<T>, before: seq<T>, c: nat, y: nat, x: nat)
    requires s % 2 == 0 && |t| >= 3 * s * s && |before| == |t|
    requires c < 3 && y < s / 2 && x < s / 2
    requires before[3 * s * s ..] == t[3 * s * s ..]
    requires forall c': nat | c' < 3 :: multiset(PlaneOf(s, before, c')) == multiset(PlaneOf(s, t, c'))
    ensures CycleOrbit(s, before, c, y, x)[3 * s * s ..] == t[3 * s * s ..]
    ensures forall c': nat | c' < 3 ::
      multiset(PlaneOf(s, CycleOrbit(s, before, c, y, x), c')) == multiset(PlaneOf(s, t, c'))
  {
    OrbitCells(s, c, y, x);
    Cycle4OutsideSlice(before, OrbitIndex(s, c, y, x, 0), OrbitIndex(s, c, y, x, 1),
      OrbitIndex(s, c, y, x, 2), OrbitIndex(s, c, y, x, 3), 3 * s * s, |before|);
    forall c': nat | c' < 3
      ensures multiset(PlaneOf(s, CycleOrbit(s, before, c, y, x), c')) == multiset(PlaneOf(s, t, c'))
    {
      CycleKeepsPlane(s, before, c, y, x, c');
    }
  }

  /** The cycle of an orbit of plane c keeps the multiset of every plane. */
  lemma CycleKeepsPlane<T>(s: nat, before: seq<T>, c: nat, y: nat, x: nat, c': nat)
    requires s % 2 == 0 && |before| >= 3 * s * s
    requires c < 3 && y < s / 2 && x < s / 2 && c' < 3
    ensures multiset(PlaneOf(s, CycleOrbit(s, before, c, y, x), c')) == multiset(PlaneOf(s, before, c'))
  {
    if c' == c {
      CycleKeepsOwnPlane(s, before, c, y, x);
    } else {
      CycleKeepsOtherPlane(s, before, c, y, x, c');
    }
  }

  lemma CycleKeepsOwnPlane<T>(s: nat, before: seq<T>, c: nat, y: nat, x: nat)
    requires s % 2 == 0 && |before| >= 3 * s * s
    requires c < 3 && y < s / 2 && x < s / 2
    ensures multiset(PlaneOf(s, CycleOrbit(s, before, c, y, x), c)) == multiset(PlaneOf(s, before, c))
  {
    PlaneEndsInTensor(s, c);
    OrbitCells(s, c, y, x);
    OrbitDistinct(s, c, y, x);
    var i0, i1 := OrbitIndex(s, c, y, x, 0), OrbitIndex(s, c, y, x, 1);
    var i2, i3 := OrbitIndex(s, c, y, x, 2), OrbitIndex(s, c, y, x, 3);
    assert i0 != i1 && i0 != i2 && i0 != i3 && i1 != i2 && i1 != i3 && i2 != i3;
    var lo, hi := PlaneStart(s, c), PlaneStart(s, c) + s * s;
    Cycle4InSlice(before, i0, i1, i2, i3, lo, hi);
    assert CycleOrbit(s, before, c, y, x) == Cycle4(before, i0, i1, i2, i3);
    assert PlaneOf(s, CycleOrbit(s, before, c, y, x), c) == Cycle4(before, i0, i1, i2, i3)[lo..hi];
    assert PlaneOf(s, before, c) == before[lo..hi];
  }

  lemma CycleKeepsOtherPlane<T>(s: nat, before: seq<T>, c: nat, y: nat, x: nat, c': nat)
    requires s % 2 == 0 && |before| >= 3 * s * s
    requires c < 3 && y < s / 2 && x < s / 2 && c' < 3 && c' != c
    ensures PlaneOf(s, CycleOrbit(s, before, c, y, x), c') == PlaneOf(s, before, c')
  {
    PlaneEndsInTensor(s, c');
    OrbitCells(s, c, y, x);
    if c' < c {
      PlaneStartsOrdered(s, c', c);
    } else {
      PlaneStartsOrdered(s, c, c');
    }
    Cycle4OutsideSlice(before, OrbitIndex(s, c, y, x, 0), OrbitIndex(s, c, y, x, 1),
      OrbitIndex(s, c, y, x, 2), OrbitIndex(s, c, y, x, 3), PlaneStart(s, c'), PlaneStart(s, c') + s * s);
  }

  /** Planes are laid out in order, without overlap. */
  lemma {:induction false} PlaneStartsOrdered(s: nat, c: nat, c': nat)
    requires c < c'
    ensures PlaneStart(s, c) + s * s <= PlaneStart(s, c')
  {
    if c + 1 < c' {
      PlaneStartsOrdered(s, c, c' - 1);
    }
  }

  /** The loop invariant of the inner loop is kept by one iteration. */
  lemma CycleStep<T>(s: nat, t: seq<T>, before: seq<T>, c: nat, y: nat, x: nat)
    requires s % 2 == 0 && |t| >= 3 * s * s
    requires c < 3 && y < s / 2 && x < s / 2
    requires Progress(s, before, t, c, y, x)
    ensures Progress(s, CycleOrbit(s, before, c, y, x), t, c, y, x + 1)
  {
    CycleStepCells(s, t, before, c, y, x);
    CycleStepPlanes(s, t, before, c, y, x);
  }

  /** Finishing a row of quadrant cells is starting the next row. */
  lemma NextRow<T>(s: nat, t: seq<T>, cur: seq<T>, c: nat, y: nat)
    requires s % 2 == 0 && |t| >= 3 * s * s
    requires Progress(s, cur, t, c, y, s / 2)
    ensures Progress(s, cur, t, c, y + 1, 0)
  {
    forall c': nat, i: nat, j: nat | c' < 3 && i < s && j < s
      ensures Handled(s, c', i, j, c, y, s / 2) == Handled(s, c', i, j, c, y + 1, 0)
    {
    }
  }

  /** Finishing the quadrant of a plane is starting the next plane. */
  lemma NextPlane<T>(s: nat, t: seq<T>, cur: seq<T>, c: nat)
    requires s % 2 == 0 && |t| >= 3 * s * s
    requires Progress(s, cur, t, c, s / 2, 0)
    ensures Progress(s, cur, t, c + 1, 0, 0)
  {
    forall c': nat, i: nat, j: nat | c' < 3 && i < s && j < s
      ensures Handled(s, c', i, j, c, s / 2, 0) == Handled(s, c', i, j, c + 1, 0, 0)
    {
    }
  }

  /** Once all three planes are handled the state is the quarter turn of t. */
  lemma Finished<T>(s: nat, t: seq<T>, cur: seq<T>)
    requires s > 0 && s % 2 == 0 && |t| >= 3 * s * s
    requires Progress(s, cur, t, 3, 0, 0)
    ensures cur == Rotated(s, t)
  {
    forall k | 0 <= k < |t|
      ensures cur[k] == Rotated(s, t)[k]
    {
      if k < 3 * s * s {
        DecodeInRange(s, k);
        RotatedAt(s, t, Plane(s, k), Row(s, k), Col(s, k));
        assert Handled(s, Plane(s, k), Row(s, k), Col(s, k), 3, 0, 0);
      } else {
        assert cur[k] == cur[3 * s * s ..][k - 3 * s * s];
      }
    }
  }

  /** Rotate90: for each plane, for each cell (y, x) of its top-left quadrant,
      cycle the four cells of the orbit of (y, x) one step clockwise. */
  method Rotate90<T>(s: nat, data: array<T>)
    requires s > 0 && s % 2 == 0 && data.Length >= 3 * s * s
    modifies data
    ensures data[..] == Rotated(s, old(data[..]))
    ensures forall c | 0 <= c < 3 ::
      multiset(PlaneOf(s, data[..], c)) == multiset(PlaneOf(s, old(data[..]), c))
  {
    ghost var t := data[..];
    for c := 0 to 3
      invariant Progress(s, data[..], t, c, 0, 0)
    {
      var baseOffset := PlaneStart(s, c);
      for y := 0 to s / 2
        invariant Progress(s, data[..], t, c, y, 0)
      {
        for x := 0 to s / 2
          invariant Progress(s, data[..], t, c, y, x)
        {
          var yi := s - 1 - y;
          var xi := s - 1 - x;
          var offset0 := RowStart(s, y) + x;
          var offset1 := RowStart(s, x) + yi;
          var offset2 := RowStart(s, yi) + xi;
          var offset3 := RowStart(s, xi) + y;
          OrbitOffsets(s, c, y, x, baseOffset, offset0, offset1, offset2, offset3);
          ghost var before := data[..];
          var v0 := data[offset0 + baseOffset];
          var v1 := data[offset1 + baseOffset];
          var v2 := data[offset2 + baseOffset];
          var v3 := data[offset3 + baseOffset];
          data[offset1 + baseOffset] := v0;
          data[offset2 + baseOffset] := v1;
          data[offset3 + baseOffset] := v2;
          data[offset0 + baseOffset] := v3;
          assert data[..] == Cycle4(before, offset0 + baseOffset, offset1 + baseOffset, offset2 + baseOffset, offset3 + baseOffset);
          CycleStep(s, t, before, c, y, x);
        }
        NextRow(s, t, data[..], c, y);
      }
      NextPlane(s, t, data[..], c);
    }
    Finished(s, t, data[..]);
  }
}
