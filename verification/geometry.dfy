/** Points, axis-aligned boxes and the octant subdivision used by every part
    of the octree engine. Coordinates are exact reals; the single-precision
    rounding of the original is not modelled. */
module Geometry {

  datatype Vec3 = Vec3(x: real, y: real, z: real)

  /** An axis-aligned box given by its minimum and maximum corner (the
      `posMin`/`posMax` pair of an octree node). Nothing forces lo <= hi. */
  datatype Box = Box(lo: Vec3, hi: Vec3)

  function Add(a: Vec3, b: Vec3): Vec3 { Vec3(a.x + b.x, a.y + b.y, a.z + b.z) }

  function Sub(a: Vec3, b: Vec3): Vec3 { Vec3(a.x - b.x, a.y - b.y, a.z - b.z) }

  /** Component-wise product, as `glm::vec3 * glm::vec3`. */
  function Mul(a: Vec3, b: Vec3): Vec3 { Vec3(a.x * b.x, a.y * b.y, a.z * b.z) }

  function Scale(a: Vec3, s: real): Vec3 { Vec3(a.x * s, a.y * s, a.z * s) }

  /** Component-wise a <= b. */
  predicate Leq(a: Vec3, b: Vec3) { a.x <= b.x && a.y <= b.y && a.z <= b.z }

  /** A box whose minimum corner is below its maximum corner on every axis. */
  predicate Proper(b: Box) { Leq(b.lo, b.hi) }

  /** Closed membership of a point in a box. */
  predicate InBox(p: Vec3, b: Box) { Leq(b.lo, p) && Leq(p, b.hi) }

  /** `inner` lies inside `outer`. */
  predicate Within(inner: Box, outer: Box) { Leq(outer.lo, inner.lo) && Leq(inner.hi, outer.hi) }

  function Extent(b: Box): Vec3 { Sub(b.hi, b.lo) }

  /** Product of the side lengths (negative or zero for improper boxes). */
  function BoxVolume(b: Box): real
  {
    var e := Extent(b);
    e.x * e.y * e.z
  }

  /** A box moved by `t` after being scaled about the origin by `s`; the two
      re-decoding transforms of the modeller (translate and scale) are the
      cases s == 1 and t == 0. */
  function Affine(b: Box, s: real, t: Vec3): Box
  {
    Box(Add(Scale(b.lo, s), t), Add(Scale(b.hi, s), t))
  }

  /** Index of one of the eight children of a node. */
  type Octant = i: int | 0 <= i < 8

  /** Offset of octant i in units of half the parent's extent:
      (i % 2, (i / 2) % 2, i / 4). */
  function OctantOffset(i: Octant): (o: Vec3)
    ensures o.x == 0.0 || o.x == 1.0
    ensures o.y == 0.0 || o.y == 1.0
    ensures o.z == 0.0 || o.z == 1.0
  {
    Vec3((i % 2) as real, ((i / 2) % 2) as real, (i / 4) as real)
  }

  /** Start of one axis of a child: the parent's start, moved by half the
      parent's extent when the child is in the upper half on that axis. */
  function HalfStart(lo: real, hi: real, upper: bool): real
  {
    if upper then lo + (hi - lo) / 2.0 else lo
  }

  /** The box of child i of a node with box b (`subdivide`): half the
      parent's extent on every axis, starting at the parent's minimum moved
      by the octant's offset times that half extent. */
  function Child(b: Box, i: Octant): (c: Box)
    ensures Extent(c) == Scale(Extent(b), 0.5)
    ensures i == 0 ==> c.lo == b.lo
    ensures i == 7 ==> c.hi == b.hi
    ensures Proper(b) ==> Proper(c) && Within(c, b)
  {
    var half := Vec3((b.hi.x - b.lo.x) / 2.0, (b.hi.y - b.lo.y) / 2.0, (b.hi.z - b.lo.z) / 2.0);
    var lo := Vec3(HalfStart(b.lo.x, b.hi.x, i % 2 == 1),
                   HalfStart(b.lo.y, b.hi.y, (i / 2) % 2 == 1),
                   HalfStart(b.lo.z, b.hi.z, i / 4 == 1));
    Box(lo, Add(lo, half))
  }

  /** The child's minimum corner is the parent's minimum plus the octant
      offset times half the parent's extent, component-wise. */
  lemma ChildOffset(b: Box, i: Octant)
    ensures var half := Scale(Extent(b), 0.5);
            Child(b, i).lo == Add(b.lo, Mul(OctantOffset(i), half))
  {
    var o := OctantOffset(i);
    assert o.x == (if i % 2 == 1 then 1.0 else 0.0);
    assert o.y == (if (i / 2) % 2 == 1 then 1.0 else 0.0);
    assert o.z == (if i / 4 == 1 then 1.0 else 0.0);
  }

  /** The octant of b that holds point p: on each axis the upper half is
      chosen when p is at or above the midpoint. */
  function OctantOf(b: Box, p: Vec3): Octant
  {
    (if p.x >= (b.lo.x + b.hi.x) / 2.0 then 1 else 0)
    + (if p.y >= (b.lo.y + b.hi.y) / 2.0 then 2 else 0)
    + (if p.z >= (b.lo.z + b.hi.z) / 2.0 then 4 else 0)
  }

  /** The eight children cover their parent: every point of the parent lies
      in the child OctantOf picks. */
  lemma ChildrenCover(b: Box, p: Vec3)
    requires InBox(p, b)
    ensures InBox(p, Child(b, OctantOf(b, p)))
  {
    var i := OctantOf(b, p);
    var o := OctantOffset(i);
    assert o.x == (if p.x >= (b.lo.x + b.hi.x) / 2.0 then 1.0 else 0.0);
    assert o.y == (if p.y >= (b.lo.y + b.hi.y) / 2.0 then 1.0 else 0.0);
    assert o.z == (if p.z >= (b.lo.z + b.hi.z) / 2.0 then 1.0 else 0.0);
  }

  /** Each child has an eighth of its parent's volume, so the eight children
      add up to the parent exactly. */
  lemma ChildVolume(b: Box, i: Octant)
    ensures 8.0 * BoxVolume(Child(b, i)) == BoxVolume(b)
  {
    var e := Extent(b);
    var c := Extent(Child(b, i));
    assert c == Vec3(e.x * 0.5, e.y * 0.5, e.z * 0.5);
    assert (e.x * 0.5) * (e.y * 0.5) * (e.z * 0.5) * 8.0 == e.x * e.y * e.z;
  }

  /** One axis of ChildAffine: the child interval of a scaled and shifted
      interval is the scaled and shifted child interval. */
  lemma AxisAffine(lo: real, hi: real, o: real, s: real, t: real)
    ensures var h := (hi - lo) / 2.0;
            var h' := ((hi * s + t) - (lo * s + t)) / 2.0;
            && (lo * s + t) + o * h' == (lo + o * h) * s + t
            && (lo * s + t) + o * h' + h' == ((lo + o * h) + h) * s + t
  {
    var h := (hi - lo) / 2.0;
    var h' := ((hi * s + t) - (lo * s + t)) / 2.0;
    assert h' == h * s;
    assert o * (h * s) == (o * h) * s;
  }

  /** Subdividing commutes with scaling and translation: children of the
      transformed box are the transformed children. */
  lemma ChildAffine(b: Box, i: Octant, s: real, t: Vec3)
    ensures Child(Affine(b, s, t), i) == Affine(Child(b, i), s, t)
  {
    var o := OctantOffset(i);
    AxisAffine(b.lo.x, b.hi.x, o.x, s, t.x);
    AxisAffine(b.lo.y, b.hi.y, o.y, s, t.y);
    AxisAffine(b.lo.z, b.hi.z, o.z, s, t.z);
  }
}
