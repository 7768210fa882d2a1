/** Index arithmetic shared by the tensor packer and the planar rotator.

    A canvas of side s holds s*s pixels, row-major, four interleaved bytes per
    pixel (colour channels 0, 1 and 2, then alpha at byte 3).  A planar tensor
    of side s holds three s*s planes one after the other (channel 0, then 1,
    then 2), each row-major.

    The starts of rows and planes are defined by repeated addition and proved
    equal to the products y*s and c*s*s; the operations and their proofs then
    only ever add offsets, and the products are dealt with once, here. */
module Layout {

  /** Index of the first cell of row y within a plane of side s (y*s). */
  function RowStart(s: nat, y: nat): nat
  {
    if y == 0 then 0 else RowStart(s, y - 1) + s
  }

  /** Index of the first cell of plane c in a tensor of side s (c*s*s). */
  function PlaneStart(s: nat, c: nat): nat
  {
    if c == 0 then 0 else PlaneStart(s, c - 1) + s * s
  }

  lemma {:induction false} RowStartIsProduct(s: nat, y: nat)
    ensures RowStart(s, y) == y * s
  {
    if y > 0 {
      RowStartIsProduct(s, y - 1);
      assert y * s == (y - 1) * s + s;
    }
  }

  lemma {:induction false} PlaneStartIsProduct(s: nat, c: nat)
    ensures PlaneStart(s, c) == c * (s * s)
  {
    if c > 0 {
      PlaneStartIsProduct(s, c - 1);
      assert c * (s * s) == (c - 1) * (s * s) + s * s;
    }
  }

  /** A row of an s*s plane ends inside the plane. */
  lemma RowEndsInPlane(s: nat, y: nat)
    ensures y < s ==> RowStart(s, y) + s <= s * s
  {
    if y < s {
      RowStartIsProduct(s, y);
      MulMonotone(y + 1, s, s);
    }
  }

  /** The three planes fill a tensor of 3*s*s cells. */
  lemma TensorSize(s: nat)
    ensures PlaneStart(s, 3) == 3 * s * s
  {
    PlaneStartIsProduct(s, 3);
  }

  /** Planes 0, 1 and 2 end inside a tensor of 3*s*s cells. */
  lemma PlaneEndsInTensor(s: nat, c: nat)
    ensures c < 3 ==> PlaneStart(s, c) + s * s <= 3 * s * s
  {
    assert 3 * s * s == s * s + s * s + s * s;
    assert PlaneStart(s, 1) == s * s;
    assert PlaneStart(s, 2) == PlaneStart(s, 1) + s * s;
  }

  /** Flat index of the cell in row y, column x of plane c. */
  function PlaneIndex(s: nat, c: nat, y: nat, x: nat): (k: nat)
    ensures y < s && x < s ==> PlaneStart(s, c) <= k < PlaneStart(s, c) + s * s
    ensures c < 3 && y < s && x < s ==> k < 3 * s * s
  {
    RowEndsInPlane(s, y);
    PlaneEndsInTensor(s, c);
    PlaneStart(s, c) + RowStart(s, y) + x
  }

  /** Byte offset of the pixel in row y, column x of an interleaved canvas. */
  function PixelOffset(s: nat, y: nat, x: nat): (k: nat)
    ensures y < s && x < s ==> k + 3 < 4 * s * s
  {
    RowEndsInPlane(s, y);
    (RowStart(s, y) + x) * 4
  }

  /** The plane, row and column that a flat tensor index falls in. */
  function Plane(s: nat, k: nat): nat
    requires s > 0
  {
    k / (s * s)
  }

  function Row(s: nat, k: nat): nat
    requires s > 0
  {
    (k % (s * s)) / s
  }

  function Col(s: nat, k: nat): nat
    requires s > 0
  {
    (k % (s * s)) % s
  }

  /** Euclidean division is determined by quotient and remainder. */
  lemma DivModUnique(n: int, d: int, q: int, r: int)
    requires 0 <= r < d && n == q * d + r
    ensures n / d == q && n % d == r
  {
    var q', r' := n / d, n % d;
    assert n == q' * d + r' && 0 <= r' < d;
    if q' > q {
      MulMonotone(q + 1, q', d);
    } else if q' < q {
      MulMonotone(q' + 1, q, d);
    }
  }

  lemma MulMonotone(a: int, b: int, d: int)
    requires a <= b && d >= 0
    ensures a * d <= b * d
  {
    assert b * d - a * d == (b - a) * d;
  }

  /** Decoding the flat index of a cell gives back its plane, row and column. */
  lemma PlaneIndexDecodes(s: nat, c: nat, y: nat, x: nat)
    requires y < s && x < s
    ensures Plane(s, PlaneIndex(s, c, y, x)) == c
    ensures Row(s, PlaneIndex(s, c, y, x)) == y
    ensures Col(s, PlaneIndex(s, c, y, x)) == x
  {
    var k := PlaneIndex(s, c, y, x);
    RowEndsInPlane(s, y);
    RowStartIsProduct(s, y);
    PlaneStartIsProduct(s, c);
    assert k == c * (s * s) + (y * s + x);
    DivModUnique(k, s * s, c, y * s + x);
    DivModUnique(y * s + x, s, y, x);
  }

  /** Distinct cells have distinct flat indices. */
  lemma PlaneIndexInjective(s: nat, c: nat, y: nat, x: nat, c': nat, y': nat, x': nat)
    requires y < s && x < s && y' < s && x' < s
    ensures PlaneIndex(s, c, y, x) == PlaneIndex(s, c', y', x') ==> c == c' && y == y' && x == x'
  {
    PlaneIndexDecodes(s, c, y, x);
    PlaneIndexDecodes(s, c', y', x');
  }

  /** Dividing n below b*d by d leaves a quotient below b and a remainder below d. */
  lemma QuotientBelow(n: int, d: int, b: int)
    requires d > 0 && 0 <= n < b * d
    ensures 0 <= n / d < b && 0 <= n % d < d && n == (n / d) * d + n % d
  {
    if n / d >= b {
      MulMonotone(b, n / d, d);
    }
    if n / d < 0 {
      MulMonotone(n / d, -1, d);
    }
  }

  /** Every flat index below 3*s*s decodes to a cell of the three planes
      whose flat index it is (PlaneIndexInjective makes that cell unique). */
  lemma DecodeInRange(s: nat, k: nat)
    requires s > 0 && k < 3 * s * s
    ensures Plane(s, k) < 3 && Row(s, k) < s && Col(s, k) < s
    ensures PlaneIndex(s, Plane(s, k), Row(s, k), Col(s, k)) == k
  {
    MulMonotone(1, s, s);
    QuotientBelow(k, s * s, 3);
    QuotientBelow(k % (s * s), s, s);
    RowStartIsProduct(s, Row(s, k));
    PlaneStartIsProduct(s, Plane(s, k));
  }
}
