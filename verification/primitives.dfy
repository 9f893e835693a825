/** Box tests of the parametric primitives (`isCollidingAABB_*` and the
    `classify` overloads), the starting boxes the modeller builds for each
    primitive (`createNodeFor*`) and the starting cube of a mesh
    (`buildInitialBoundingBox`). Orientation fields are carried but, as in
    the original, take no part in any test. */
module Primitives {
  import opened Geometry
  import opened Octree

  datatype Sphere = Sphere(center: Vec3, radius: real)
  datatype Block = Block(center: Vec3, dims: Vec3, orientation: Vec3)
  datatype Cylinder = Cylinder(center: Vec3, radius: real, height: real, orientation: Vec3)
  datatype Cone = Cone(center: Vec3, radius: real, height: real, orientation: Vec3)

  function Min(a: real, b: real): real { if a <= b then a else b }
  function Max(a: real, b: real): real { if a >= b then a else b }

  /** `std::max(lo, std::min(v, hi))`: the point of [lo, hi] nearest to v. */
  function Clamp(v: real, lo: real, hi: real): (r: real)
    ensures lo <= hi ==> lo <= r <= hi
  {
    Max(lo, Min(v, hi))
  }

  function Sq(a: real): real { a * a }

  /** Squared distance from c to the nearest point of the box in the XY plane. */
  function ClampDistXY(b: Box, c: Vec3): real
  {
    Sq(Clamp(c.x, b.lo.x, b.hi.x) - c.x) + Sq(Clamp(c.y, b.lo.y, b.hi.y) - c.y)
  }

  /** Squared distance from c to the nearest point of the box. */
  function ClampDist(b: Box, c: Vec3): real
  {
    ClampDistXY(b, c) + Sq(Clamp(c.z, b.lo.z, b.hi.z) - c.z)
  }

  function DistSq(p: Vec3, c: Vec3): real
  {
    Sq(p.x - c.x) + Sq(p.y - c.y) + Sq(p.z - c.z)
  }

  // ---------------------------------------------------------------------
  // The box tests

  /** `isCollidingAABB_Sphere`: the box's nearest point to the centre is
      within the radius. */
  predicate SphereTouches(s: Sphere, b: Box)
  {
    ClampDist(b, s.center) <= Sq(s.radius)
  }

  /** `isCollidingAABB_Block`: closed overlap on all three axes with the
      block's centred half-dimensions. */
  predicate BlockTouches(k: Block, b: Box)
  {
    && b.lo.x <= k.center.x + k.dims.x / 2.0 && b.hi.x >= k.center.x - k.dims.x / 2.0
    && b.lo.y <= k.center.y + k.dims.y / 2.0 && b.hi.y >= k.center.y - k.dims.y / 2.0
    && b.lo.z <= k.center.z + k.dims.z / 2.0 && b.hi.z >= k.center.z - k.dims.z / 2.0
  }

  /** `isCollidingAABB_Cylinder`: XY nearest point within the radius and the
      box's z-range meets [z, z + height]. */
  predicate CylinderTouches(c: Cylinder, b: Box)
  {
    && ClampDistXY(b, c.center) <= Sq(c.radius)
    && b.lo.z <= c.center.z + c.height && b.hi.z >= c.center.z
  }

  /** `isCollidingAABB_Cone`: as the cylinder, with the radius taken at the
      box's top face, r * (1 - (maxZ - z) / height). */
  predicate ConeTouches(c: Cone, b: Box)
    requires c.height != 0.0
  {
    && ClampDistXY(b, c.center) <= Sq(ConeRadiusAt(c, b.hi.z))
    && b.lo.z <= c.center.z + c.height && b.hi.z >= c.center.z
  }

  /** The `classify(primitive, node)` overloads: GREY when the box test
      holds, WHITE otherwise; never BLACK. */
  function ClassifyBy(touches: Box -> bool, b: Box): (r: NodeCode)
    ensures r != Black
    ensures r == Grey <==> touches(b)
  {
    if touches(b) then Grey else White
  }

  // ---------------------------------------------------------------------
  // Starting boxes

  /** `createNodeForSphere`: the cube of side 2r centred on the sphere. */
  function SphereBox(s: Sphere): (b: Box)
    ensures Extent(b) == Vec3(2.0 * s.radius, 2.0 * s.radius, 2.0 * s.radius)
    ensures s.radius >= 0.0 ==> Proper(b) && InBox(s.center, b)
  {
    Box(Vec3(s.center.x - s.radius, s.center.y - s.radius, s.center.z - s.radius),
        Vec3(s.center.x + s.radius, s.center.y + s.radius, s.center.z + s.radius))
  }

  /** The region a block occupies: its centre plus or minus half of each
      dimension. */
  function BlockExtent(k: Block): Box
  {
    Box(Vec3(k.center.x - k.dims.x / 2.0, k.center.y - k.dims.y / 2.0, k.center.z - k.dims.z / 2.0),
        Vec3(k.center.x + k.dims.x / 2.0, k.center.y + k.dims.y / 2.0, k.center.z + k.dims.z / 2.0))
  }

  /** `createNodeForBlock`: the cube centred on the block whose side is the
      block's largest dimension; it always holds the block's own region. */
  function BlockBox(k: Block): (b: Box)
    ensures var m := Max(Max(k.dims.x, k.dims.y), k.dims.z);
            Extent(b) == Vec3(m, m, m)
    ensures Within(BlockExtent(k), b)
  {
    var m := Max(Max(k.dims.x, k.dims.y), k.dims.z);
    Box(Vec3(k.center.x - m / 2.0, k.center.y - m / 2.0, k.center.z - m / 2.0),
        Vec3(k.center.x + m / 2.0, k.center.y + m / 2.0, k.center.z + m / 2.0))
  }

  /** `createNodeForCylinder`: the square of side 2r around the axis in XY,
      from the base z up to z + height. */
  function CylinderBox(c: Cylinder): (b: Box)
    ensures Extent(b) == Vec3(2.0 * c.radius, 2.0 * c.radius, c.height)
    ensures b.lo.z == c.center.z
    ensures c.radius >= 0.0 && c.height >= 0.0 ==> Proper(b) && InBox(c.center, b)
  {
    Box(Vec3(c.center.x - c.radius, c.center.y - c.radius, c.center.z),
        Vec3(c.center.x + c.radius, c.center.y + c.radius, c.center.z + c.height))
  }

  /** `createNodeForCone`: the same box as for a cylinder of the same
      radius and height. */
  function ConeBox(c: Cone): (b: Box)
    ensures b == CylinderBox(Cylinder(c.center, c.radius, c.height, c.orientation))
  {
    Box(Vec3(c.center.x - c.radius, c.center.y - c.radius, c.center.z),
        Vec3(c.center.x + c.radius, c.center.y + c.radius, c.center.z + c.height))
  }

  // ---------------------------------------------------------------------
  // Initial bounding box of a mesh

  /** Component-wise running maximum of the vertices, seeded with -9999. */
  function MaxCorner(vs: seq<Vec3>): Vec3
  {
    if |vs| == 0 then Vec3(-9999.0, -9999.0, -9999.0)
    else
      var m := MaxCorner(vs[..|vs| - 1]);
      var v := vs[|vs| - 1];
      Vec3(Max(m.x, v.x), Max(m.y, v.y), Max(m.z, v.z))
  }

  /** Component-wise running minimum of the vertices, seeded with 9999. */
  function MinCorner(vs: seq<Vec3>): Vec3
  {
    if |vs| == 0 then Vec3(9999.0, 9999.0, 9999.0)
    else
      var m := MinCorner(vs[..|vs| - 1]);
      var v := vs[|vs| - 1];
      Vec3(Min(m.x, v.x), Min(m.y, v.y), Min(m.z, v.z))
  }

  /** Every vertex lies between the running minimum and maximum. */
  lemma {:induction false} CornersBound(vs: seq<Vec3>)
    ensures forall k :: 0 <= k < |vs| ==> Leq(MinCorner(vs), vs[k]) && Leq(vs[k], MaxCorner(vs))
  {
    if |vs| > 0 {
      var init := vs[..|vs| - 1];
      CornersBound(init);
      assert forall k :: 0 <= k < |init| ==> init[k] == vs[k];
    }
  }

  /** The greatest side of the box from lo to hi. */
  function GreatestSide(lo: Vec3, hi: Vec3): real
  {
    Max(Max(hi.x - lo.x, hi.y - lo.y), hi.z - lo.z)
  }

  /** `buildInitialBoundingBox`: the cube centred on the vertices' bounding
      box whose side is that box's greatest extent. */
  method InitialBoundingBox(vs: seq<Vec3>) returns (b: Box)
    ensures var side := GreatestSide(MinCorner(vs), MaxCorner(vs));
            Extent(b) == Vec3(side, side, side)
    ensures Add(b.lo, b.hi) == Add(MinCorner(vs), MaxCorner(vs))
    ensures forall k :: 0 <= k < |vs| ==> InBox(vs[k], b)
    ensures |vs| == 0 ==> b == Box(Vec3(9999.0, 9999.0, 9999.0), Vec3(-9999.0, -9999.0, -9999.0))
  {
    var hi := Vec3(-9999.0, -9999.0, -9999.0);
    var lo := Vec3(9999.0, 9999.0, 9999.0);
    var k := 0;
    while k < |vs|
      invariant 0 <= k <= |vs|
      invariant hi == MaxCorner(vs[..k]) && lo == MinCorner(vs[..k])
    {
      var v := vs[k];
      assert vs[..k + 1][..k] == vs[..k];
      if v.x > hi.x { hi := hi.(x := v.x); }
      if v.y > hi.y { hi := hi.(y := v.y); }
      if v.z > hi.z { hi := hi.(z := v.z); }
      if v.x < lo.x { lo := lo.(x := v.x); }
      if v.y < lo.y { lo := lo.(y := v.y); }
      if v.z < lo.z { lo := lo.(z := v.z); }
      k := k + 1;
    }
    assert vs[..k] == vs;
    var center := Vec3((lo.x + hi.x) / 2.0, (lo.y + hi.y) / 2.0, (lo.z + hi.z) / 2.0);
    var side := Max(hi.x - lo.x, hi.y - lo.y);
    side := Max(side, hi.z - lo.z);
    var half := side / 2.0;
    b := Box(Vec3(center.x - half, center.y - half, center.z - half),
             Vec3(center.x + half, center.y + half, center.z + half));
    CornersBound(vs);
  }

  // ---------------------------------------------------------------------
  // What the tests mean

  /** On one axis the clamped coordinate is at least as near to c as any
      point of the interval. */
  lemma ClampNearest(c: real, lo: real, hi: real, p: real)
    requires lo <= p <= hi
    ensures Sq(Clamp(c, lo, hi) - c) <= Sq(p - c)
  {
    var q := Clamp(c, lo, hi);
    if c < lo {
      assert q == lo;
      assert Sq(p - c) - Sq(q - c) == (p - q) * (p + q - 2.0 * c);
    } else if c > hi {
      assert q == hi;
      assert Sq(p - c) - Sq(q - c) == (q - p) * (2.0 * c - p - q);
    } else {
      assert q == c;
    }
  }

  /** The sphere test is exact for proper boxes, first direction: when it
      holds, the nearest point of the box is a point of the box inside the
      sphere. */
  lemma SphereTouchesWitness(s: Sphere, b: Box)
    requires Proper(b) && SphereTouches(s, b)
    ensures var p := Vec3(Clamp(s.center.x, b.lo.x, b.hi.x), Clamp(s.center.y, b.lo.y, b.hi.y),
                          Clamp(s.center.z, b.lo.z, b.hi.z));
            InBox(p, b) && DistSq(p, s.center) <= Sq(s.radius)
  {
  }

  /** Second direction: if any point of the box is inside the sphere, the
      test holds. */
  lemma SphereTouchesAny(s: Sphere, b: Box, p: Vec3)
    requires InBox(p, b) && DistSq(p, s.center) <= Sq(s.radius)
    ensures SphereTouches(s, b)
  {
    ClampNearest(s.center.x, b.lo.x, b.hi.x, p.x);
    ClampNearest(s.center.y, b.lo.y, b.hi.y, p.y);
    ClampNearest(s.center.z, b.lo.z, b.hi.z, p.z);
  }

  /** A box holding the sphere's centre is always GREY. */
  lemma SphereCenterInside(s: Sphere, b: Box)
    requires InBox(s.center, b)
    ensures SphereTouches(s, b)
  {
    SphereTouchesAny(s, b, s.center);
  }

  /** Enlarging a box the sphere test accepts keeps it accepted. */
  lemma SphereMonotone(s: Sphere, b: Box, big: Box)
    requires Proper(b) && Within(b, big) && SphereTouches(s, b)
    ensures SphereTouches(s, big)
  {
    SphereTouchesWitness(s, b);
    var p := Vec3(Clamp(s.center.x, b.lo.x, b.hi.x), Clamp(s.center.y, b.lo.y, b.hi.y),
                  Clamp(s.center.z, b.lo.z, b.hi.z));
    SphereTouchesAny(s, big, p);
  }

  /** The block test is exactly "the box and the block's region share a
      point" (for a proper box and non-negative dimensions), both ways. */
  lemma BlockTouchesExact(k: Block, b: Box, p: Vec3)
    requires Proper(b) && Leq(Vec3(0.0, 0.0, 0.0), k.dims)
    ensures InBox(p, b) && InBox(p, BlockExtent(k)) ==> BlockTouches(k, b)
    ensures BlockTouches(k, b) ==>
              var q := Vec3(Clamp(k.center.x, b.lo.x, b.hi.x), Clamp(k.center.y, b.lo.y, b.hi.y),
                            Clamp(k.center.z, b.lo.z, b.hi.z));
              InBox(q, b) && InBox(q, BlockExtent(k))
  {
  }

  /** A box holding the block's centre is GREY when the dimensions are
      non-negative. */
  lemma BlockCenterInside(k: Block, b: Box)
    requires InBox(k.center, b) && Leq(Vec3(0.0, 0.0, 0.0), k.dims)
    ensures BlockTouches(k, b)
  {
  }

  /** Enlarging a box the block test accepts keeps it accepted. */
  lemma BlockMonotone(k: Block, b: Box, big: Box)
    requires Within(b, big) && BlockTouches(k, b)
    ensures BlockTouches(k, big)
  {
  }

  /** The cylinder test holds of any box that holds a point of the solid
      cylinder, and a box holding the base centre is GREY. */
  lemma CylinderTouchesAny(c: Cylinder, b: Box, p: Vec3)
    requires InBox(p, b)
    requires Sq(p.x - c.center.x) + Sq(p.y - c.center.y) <= Sq(c.radius)
    requires c.center.z <= p.z <= c.center.z + c.height
    ensures CylinderTouches(c, b)
  {
    ClampNearest(c.center.x, b.lo.x, b.hi.x, p.x);
    ClampNearest(c.center.y, b.lo.y, b.hi.y, p.y);
  }

  /** Second direction, for proper boxes and a non-negative height: when the
      cylinder test holds, the box holds a point of the solid cylinder. */
  lemma CylinderTouchesWitness(c: Cylinder, b: Box)
    requires Proper(b) && c.height >= 0.0 && CylinderTouches(c, b)
    ensures var p := Vec3(Clamp(c.center.x, b.lo.x, b.hi.x), Clamp(c.center.y, b.lo.y, b.hi.y),
                          Max(b.lo.z, c.center.z));
            && InBox(p, b)
            && Sq(p.x - c.center.x) + Sq(p.y - c.center.y) <= Sq(c.radius)
            && c.center.z <= p.z <= c.center.z + c.height
  {
  }

  /** Enlarging a box the cylinder test accepts keeps it accepted. */
  lemma CylinderMonotone(c: Cylinder, b: Box, big: Box)
    requires Proper(b) && Within(b, big) && CylinderTouches(c, b)
    ensures CylinderTouches(c, big)
  {
    var px := Clamp(c.center.x, b.lo.x, b.hi.x);
    var py := Clamp(c.center.y, b.lo.y, b.hi.y);
    ClampNearest(c.center.x, big.lo.x, big.hi.x, px);
    ClampNearest(c.center.y, big.lo.y, big.hi.y, py);
  }

  /** Each primitive's own starting box passes its own test, so the root of
      every primitive build is GREY. */
  lemma OwnBoxIsGrey(s: Sphere, k: Block, c: Cylinder, n: Cone)
    ensures s.radius >= 0.0 ==> ClassifyBy(b => SphereTouches(s, b), SphereBox(s)) == Grey
    ensures Leq(Vec3(0.0, 0.0, 0.0), k.dims) ==> ClassifyBy(b => BlockTouches(k, b), BlockBox(k)) == Grey
    ensures c.radius >= 0.0 && c.height >= 0.0 ==>
              ClassifyBy(b => CylinderTouches(c, b), CylinderBox(c)) == Grey
    ensures n.radius >= 0.0 && n.height > 0.0 ==>
              ClassifyBy(b => ConeTouches(n, b), ConeBox(n)) == Grey
  {
    if s.radius >= 0.0 {
      SphereCenterInside(s, SphereBox(s));
    }
    if c.radius >= 0.0 && c.height >= 0.0 {
      CylinderTouchesAny(c, CylinderBox(c), c.center);
    }
    if n.radius >= 0.0 && n.height > 0.0 {
      var b := ConeBox(n);
      assert Clamp(n.center.x, b.lo.x, b.hi.x) == n.center.x;
      assert Clamp(n.center.y, b.lo.y, b.hi.y) == n.center.y;
    }
  }

  // ---------------------------------------------------------------------
  // The cone test reads the radius at the top of the box

  /** Radius of the solid cone at height z. */
  function ConeRadiusAt(c: Cone, z: real): real
    requires c.height != 0.0
  {
    c.radius * (1.0 - (z - c.center.z) / c.height)
  }

  /** A point of the solid cone: between base and apex, and within the
      radius at its height. */
  predicate InCone(c: Cone, p: Vec3)
    requires c.height != 0.0
  {
    && c.center.z <= p.z <= c.center.z + c.height
    && Sq(p.x - c.center.x) + Sq(p.y - c.center.y) <= Sq(ConeRadiusAt(c, p.z))
  }

  /** As written, a box that holds a point of the cone can still be WHITE:
      the box [0.4, 0.5] x [0, 0.1] x [0, 1] holds (0.4, 0, 0), inside the
      unit cone at the origin, but its top face is at the apex height, where
      the radius is 0. */
  lemma ConeMissesSolid(c: Cone, b: Box, p: Vec3)
    requires c.center == Vec3(0.0, 0.0, 0.0) && c.radius == 1.0 && c.height == 1.0
    requires b == Box(Vec3(0.4, 0.0, 0.0), Vec3(0.5, 0.1, 1.0))
    requires p == Vec3(0.4, 0.0, 0.0)
    ensures InBox(p, b) && InCone(c, p) && !ConeTouches(c, b)
  {
    assert ConeRadiusAt(c, p.z) == 1.0;
    assert Sq(1.0) == 1.0;
    assert Sq(p.x - c.center.x) == Sq(0.4);
    assert Sq(0.4) == 0.16;
    assert Sq(p.y - c.center.y) == Sq(0.0);
    assert Clamp(c.center.x, b.lo.x, b.hi.x) == 0.4;
    assert Clamp(c.center.y, b.lo.y, b.hi.y) == 0.0;
    assert ClampDistXY(b, c.center) == Sq(0.4) + Sq(0.0);
    assert ConeRadiusAt(c, b.hi.z) == 0.0;
  }

  /** The corrected cone test: the radius is taken at the lowest height of
      the box that lies on the cone, where the cone is widest. */
  predicate ConeTouchesFixed(c: Cone, b: Box)
    requires c.height != 0.0
  {
    && ClampDistXY(b, c.center) <= Sq(ConeRadiusAt(c, Max(b.lo.z, c.center.z)))
    && b.lo.z <= c.center.z + c.height && b.hi.z >= c.center.z
  }

  /** The corrected test is exact for proper boxes and a proper cone, first
      direction: any box holding a point of the cone passes. */
  lemma ConeFixedTouchesAny(c: Cone, b: Box, p: Vec3)
    requires c.height > 0.0 && c.radius >= 0.0
    requires InBox(p, b) && InCone(c, p)
    ensures ConeTouchesFixed(c, b)
  {
    var zl := Max(b.lo.z, c.center.z);
    var rl := ConeRadiusAt(c, zl);
    var rp := ConeRadiusAt(c, p.z);
    RadiusShrinks(c, zl, p.z);
    assert 0.0 <= rp <= rl;
    assert Sq(rp) <= Sq(rl) by {
      assert Sq(rl) - Sq(rp) == (rl - rp) * (rl + rp);
    }
    ClampNearest(c.center.x, b.lo.x, b.hi.x, p.x);
    ClampNearest(c.center.y, b.lo.y, b.hi.y, p.y);
  }

  /** Second direction: when the corrected test passes, the box holds a
      point of the cone. */
  lemma ConeFixedWitness(c: Cone, b: Box)
    requires c.height > 0.0 && Proper(b) && ConeTouchesFixed(c, b)
    ensures var p := Vec3(Clamp(c.center.x, b.lo.x, b.hi.x), Clamp(c.center.y, b.lo.y, b.hi.y),
                          Max(b.lo.z, c.center.z));
            InBox(p, b) && InCone(c, p)
  {
  }

  /** Between base and apex the radius does not grow with height and stays
      non-negative. */
  lemma RadiusShrinks(c: Cone, z1: real, z2: real)
    requires c.height > 0.0 && c.radius >= 0.0
    requires c.center.z <= z1 <= z2 <= c.center.z + c.height
    ensures 0.0 <= ConeRadiusAt(c, z2) <= ConeRadiusAt(c, z1)
  {
    var h := c.height;
    var f1 := (z1 - c.center.z) / h;
    var f2 := (z2 - c.center.z) / h;
    assert f1 * h == z1 - c.center.z;
    assert f2 * h == z2 - c.center.z;
    assert f1 <= f2 <= 1.0;
    assert c.radius * (1.0 - f1) - c.radius * (1.0 - f2) == c.radius * (f2 - f1);
  }

  /** Enlarging a box the corrected test accepts keeps it accepted. */
  lemma ConeFixedMonotone(c: Cone, b: Box, big: Box)
    requires c.height > 0.0 && c.radius >= 0.0
    requires Proper(b) && Within(b, big) && ConeTouchesFixed(c, b)
    ensures ConeTouchesFixed(c, big)
  {
    ConeFixedWitness(c, b);
    var p := Vec3(Clamp(c.center.x, b.lo.x, b.hi.x), Clamp(c.center.y, b.lo.y, b.hi.y),
                  Max(b.lo.z, c.center.z));
    ConeFixedTouchesAny(c, big, p);
  }
}
