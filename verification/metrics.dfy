/** What the modeller reads off a finished octree: its volume
    (`getOctreeVolume`), its BLACK nodes (`getOctreeBlackNodes`) and the
    triangle mesh it draws (`populateFromOctree`). Every walk visits the
    children in index order. */
module Metrics {
  import opened Geometry
  import opened Octree

  // ---------------------------------------------------------------------
  // BLACK nodes

  /** `getOctreeBlackNodes`: the BLACK nodes met in a depth-first walk that
      stops at WHITE and BLACK nodes. */
  function BlackNodes(t: Node): (ns: seq<Node>)
    ensures forall k :: 0 <= k < |ns| ==> ns[k].code == Black
    ensures t.code == Black ==> ns == [t]
    decreases t, 1
  {
    if t.code == White then []
    else if t.code == Black then [t]
    else BlackKids(t, 0)
  }

  /** The BLACK nodes under children k.. of t, in index order. */
  function BlackKids(t: Node, k: nat): (ns: seq<Node>)
    requires k <= |t.children|
    ensures forall j :: 0 <= j < |ns| ==> ns[j].code == Black
    decreases t, 0, |t.children| - k
  {
    if k == |t.children| then [] else BlackNodes(t.children[k]) + BlackKids(t, k + 1)
  }

  /** `getOctreeBlackNodes` collects exactly the BLACK leaves of a
      well-formed tree: a node is collected if and only if some path from
      the root ends on it at a BLACK leaf. */
  lemma BlackNodesExact(t: Node, n: Node)
    requires Valid(t)
    ensures n in BlackNodes(t) <==>
              exists path :: Reaches(t, path) && Solid(t, path) && LeafAt(t, path) == n
  {
    if n in BlackNodes(t) {
      BlackNodesSound(t, n);
    }
    if exists path :: Reaches(t, path) && Solid(t, path) && LeafAt(t, path) == n {
      var path :| Reaches(t, path) && Solid(t, path) && LeafAt(t, path) == n;
      BlackNodesComplete(t, path);
    }
  }

  /** Every BLACK leaf a path reaches is collected. */
  lemma {:induction false} BlackNodesComplete(t: Node, path: seq<Octant>)
    requires Valid(t) && Reaches(t, path) && Solid(t, path)
    ensures LeafAt(t, path) in BlackNodes(t)
    decreases t
  {
    if t.code == Grey {
      var i := path[0];
      BlackNodesComplete(t.children[i], path[1..]);
      KidsContain(t, 0, i);
    }
  }

  /** The BLACK nodes under child i are among those under children k.. when
      k <= i. */
  lemma {:induction false} KidsContain(t: Node, k: nat, i: nat)
    requires k <= i < |t.children|
    ensures forall n :: n in BlackNodes(t.children[i]) ==> n in BlackKids(t, k)
    decreases |t.children| - k
  {
    if k < i {
      KidsContain(t, k + 1, i);
    }
  }

  /** Every collected node is the BLACK leaf at the end of some path. */
  lemma {:induction false} BlackNodesSound(t: Node, n: Node)
    requires Valid(t) && n in BlackNodes(t)
    ensures exists path :: Reaches(t, path) && Solid(t, path) && LeafAt(t, path) == n
    decreases t, 1
  {
    if t.code == Black {
      var path: seq<Octant> := [];
      assert Reaches(t, path) && Solid(t, path) && LeafAt(t, path) == n;
    } else {
      KidsSound(t, 0, n);
    }
  }

  lemma {:induction false} KidsSound(t: Node, k: nat, n: Node)
    requires Valid(t) && t.code == Grey && k <= 8 && n in BlackKids(t, k)
    ensures exists path :: Reaches(t, path) && Solid(t, path) && LeafAt(t, path) == n
    decreases t, 0, 8 - k
  {
    var c := t.children[k];
    if n in BlackNodes(c) {
      BlackNodesSound(c, n);
      var p :| Reaches(c, p) && Solid(c, p) && LeafAt(c, p) == n;
      var path := [k as Octant] + p;
      assert path[0] == k && path[1..] == p;
      assert Reaches(t, path) && Solid(t, path) && LeafAt(t, path) == n;
    } else {
      KidsSound(t, k + 1, n);
    }
  }

  // ---------------------------------------------------------------------
  // Volume

  /** The volume of one BLACK node: the product of its extents, or the
      sentinel -99999 when its box is inverted on some axis. */
  function LeafVolume(b: Box): (v: real)
    ensures Proper(b) ==> v == BoxVolume(b)
    ensures !Proper(b) ==> v == -99999.0
  {
    var e := Extent(b);
    if e.x < 0.0 || e.y < 0.0 || e.z < 0.0 then -99999.0 else e.x * e.y * e.z
  }

  /** `getOctreeVolume`: WHITE nodes count nothing, BLACK nodes their own
      volume, and any other node the sum of its children. */
  function Volume(t: Node): real
    decreases t, 1
  {
    if t.code == White then 0.0
    else if t.code == Black then LeafVolume(t.box)
    else VolumeKids(t, 0)
  }

  function VolumeKids(t: Node, k: nat): real
    requires k <= |t.children|
    decreases t, 0, |t.children| - k
  {
    if k == |t.children| then 0.0 else Volume(t.children[k]) + VolumeKids(t, k + 1)
  }

  /** The summed volumes of a list of BLACK nodes. */
  function LeafSum(ns: seq<Node>): real
  {
    if |ns| == 0 then 0.0 else LeafVolume(ns[0].box) + LeafSum(ns[1..])
  }

  lemma {:induction false} LeafSumAppend(a: seq<Node>, b: seq<Node>)
    ensures LeafSum(a + b) == LeafSum(a) + LeafSum(b)
  {
    if |a| > 0 {
      assert (a + b)[1..] == a[1..] + b;
      LeafSumAppend(a[1..], b);
    } else {
      assert a + b == b;
    }
  }

  /** The volume of a tree is the summed volume of the BLACK nodes
      `getOctreeBlackNodes` collects from it. */
  lemma {:induction false} VolumeOfBlackNodes(t: Node)
    ensures Volume(t) == LeafSum(BlackNodes(t))
    decreases t, 1
  {
    if t.code == Grey {
      KidsVolumeOfBlackNodes(t, 0);
    }
  }

  lemma {:induction false} KidsVolumeOfBlackNodes(t: Node, k: nat)
    requires k <= |t.children|
    ensures VolumeKids(t, k) == LeafSum(BlackKids(t, k))
    decreases t, 0, |t.children| - k
  {
    if k < |t.children| {
      VolumeOfBlackNodes(t.children[k]);
      KidsVolumeOfBlackNodes(t, k + 1);
      LeafSumAppend(BlackNodes(t.children[k]), BlackKids(t, k + 1));
    }
  }

  lemma ProductNonNegative(x: real, y: real, z: real)
    requires 0.0 <= x && 0.0 <= y && 0.0 <= z
    ensures 0.0 <= x * y * z
  {
    assert 0.0 <= x * y;
  }

  /** In a well-formed tree over a proper box the volume is between zero
      and the volume of the outer box. */
  lemma {:induction false} VolumeBounds(t: Node)
    requires Valid(t) && Boxed(t) && Proper(t.box)
    ensures 0.0 <= Volume(t) <= BoxVolume(t.box)
    decreases t, 1
  {
    var e := Extent(t.box);
    ProductNonNegative(e.x, e.y, e.z);
    if t.code == Grey {
      KidsVolumeBounds(t, 0);
      TimesIsProduct(8, BoxVolume(t.box) / 8.0);
    }
  }

  lemma {:induction false} KidsVolumeBounds(t: Node, k: nat)
    requires Valid(t) && Boxed(t) && Proper(t.box) && t.code == Grey && k <= 8
    ensures 0.0 <= VolumeKids(t, k) <= Times(8 - k, BoxVolume(t.box) / 8.0)
    decreases t, 0, 8 - k
  {
    if k < 8 {
      var c := t.children[k];
      assert 0.0 <= Volume(c) <= BoxVolume(t.box) / 8.0 by {
        assert c.box == Child(t.box, k) && Valid(c) && Boxed(c);
        VolumeBounds(c);
        ChildVolume(t.box, k);
      }
      KidsVolumeBounds(t, k + 1);
    }
  }

  /** n copies of w added up. */
  function Times(n: nat, w: real): real
  {
    if n == 0 then 0.0 else w + Times(n - 1, w)
  }

  lemma {:induction false} TimesIsProduct(n: nat, w: real)
    ensures Times(n, w) == n as real * w
  {
    if n > 0 {
      TimesIsProduct(n - 1, w);
    }
  }

  // ---------------------------------------------------------------------
  // Mesh export

  /** `uint32_t` arithmetic wraps modulo 2^32. */
  const U32: nat := 0x1_0000_0000

  /** The number of one of the eight corners of a cube. */
  type CornerIndex = i: nat | i < 8

  /** The twelve triangles of a cube over its eight corners, two per face. */
  const CubeIndices: seq<CornerIndex> := [0, 1, 2, 0, 2, 3,
                                   4, 5, 6, 4, 6, 7,
                                   0, 1, 5, 0, 5, 4,
                                   2, 3, 7, 2, 7, 6,
                                   0, 3, 7, 0, 7, 4,
                                   1, 2, 6, 1, 6, 5]

  /** The eight corners of a box: the lower face counter-clockwise from the
      minimum corner, then the upper face. */
  function Corners(b: Box): (vs: seq<Vec3>)
    ensures |vs| == 8 && vs[0] == b.lo && vs[6] == b.hi
    ensures Proper(b) ==> forall k :: 0 <= k < 8 ==> InBox(vs[k], b)
  {
    var lo := b.lo;
    var hi := b.hi;
    [Vec3(lo.x, lo.y, lo.z), Vec3(hi.x, lo.y, lo.z), Vec3(hi.x, hi.y, lo.z), Vec3(lo.x, hi.y, lo.z),
     Vec3(lo.x, lo.y, hi.z), Vec3(hi.x, lo.y, hi.z), Vec3(hi.x, hi.y, hi.z), Vec3(lo.x, hi.y, hi.z)]
  }

  /** (x mod 2^32 + y) mod 2^32 == (x + y) mod 2^32. */
  lemma WrapAdd(x: nat, y: nat)
    ensures (x % U32 + y) % U32 == (x + y) % U32
  {
    var q := x / U32;
    assert x == q * U32 + x % U32;
    assert x + y == q * U32 + (x % U32 + y);
  }

  /** `populateFromOctree` starting at vertex number `cur`: the vertices and
      indices appended and the vertex number after them. A BLACK node
      appends its eight corners and the 36 indices of its triangles shifted
      by `cur`; the per-vertex colours are not modelled. */
  function Export(t: Node, cur: nat): (r: (seq<Vec3>, seq<nat>, nat))
    requires cur < U32
    ensures |r.0| == 8 * |BlackNodes(t)| && |r.1| == 36 * |BlackNodes(t)|
    ensures r.2 == (cur + |r.0|) % U32
    decreases t, 1
  {
    if t.code == White then ([], [], cur)
    else if t.code == Black then
      (Corners(t.box), seq(36, i requires 0 <= i < 36 => (cur + CubeIndices[i]) % U32), (cur + 8) % U32)
    else ExportKids(t, 0, cur)
  }

  function ExportKids(t: Node, k: nat, cur: nat): (r: (seq<Vec3>, seq<nat>, nat))
    requires k <= |t.children| && cur < U32
    ensures |r.0| == 8 * |BlackKids(t, k)| && |r.1| == 36 * |BlackKids(t, k)|
    ensures r.2 == (cur + |r.0|) % U32
    decreases t, 0, |t.children| - k
  {
    if k == |t.children| then ([], [], cur)
    else
      var r1 := Export(t.children[k], cur);
      var r2 := ExportKids(t, k + 1, r1.2);
      WrapAdd(cur + |r1.0|, |r2.0|);
      (r1.0 + r2.0, r1.1 + r2.1, r2.2)
  }

  /** The corners of a list of BLACK nodes, node after node. */
  function AllCorners(ns: seq<Node>): (vs: seq<Vec3>)
    ensures |vs| == 8 * |ns|
  {
    if |ns| == 0 then [] else Corners(ns[0].box) + AllCorners(ns[1..])
  }

  lemma {:induction false} AllCornersAppend(a: seq<Node>, b: seq<Node>)
    ensures AllCorners(a + b) == AllCorners(a) + AllCorners(b)
  {
    if |a| > 0 {
      assert (a + b)[1..] == a[1..] + b;
      AllCornersAppend(a[1..], b);
    } else {
      assert a + b == b;
    }
  }

  /** The exported vertices are the corners of the BLACK nodes
      `getOctreeBlackNodes` collects, in the same order. */
  lemma {:induction false} ExportVertices(t: Node, cur: nat)
    requires cur < U32
    ensures Export(t, cur).0 == AllCorners(BlackNodes(t))
    decreases t, 1
  {
    if t.code == Black {
      assert AllCorners([t]) == Corners(t.box) + AllCorners([]);
    } else if t.code == Grey {
      KidsExportVertices(t, 0, cur);
    }
  }

  lemma {:induction false} KidsExportVertices(t: Node, k: nat, cur: nat)
    requires k <= |t.children| && cur < U32
    ensures ExportKids(t, k, cur).0 == AllCorners(BlackKids(t, k))
    decreases t, 0, |t.children| - k
  {
    if k < |t.children| {
      var r1 := Export(t.children[k], cur);
      ExportVertices(t.children[k], cur);
      KidsExportVertices(t, k + 1, r1.2);
      AllCornersAppend(BlackNodes(t.children[k]), BlackKids(t, k + 1));
    }
  }

  /** Every index of an export names one of its vertices, numbered from
      `cur`. */
  predicate IndicesWithin(r: (seq<Vec3>, seq<nat>, nat), cur: nat)
  {
    forall j :: 0 <= j < |r.1| ==> cur <= r.1[j] < cur + |r.0|
  }

  /** Index j of an export is corner `CubeIndices[j % 36]` of the
      (j / 36)-th BLACK node, whose eight vertices are numbered from
      cur + 8 * (j / 36): every node's triangles use its own vertices. */
  predicate PerNodeIndices(r: (seq<Vec3>, seq<nat>, nat), cur: nat)
  {
    forall j :: 0 <= j < |r.1| ==> r.1[j] == NodeIndex(cur, j)
  }

  /** The vertex number index j of an export should carry. */
  function NodeIndex(cur: nat, j: nat): nat
  {
    cur + 8 * (j / 36) + CubeIndices[j % 36]
  }

  /** Within the first node, index j is the node's corner number shifted by
      cur. */
  lemma NodeIndexFirst(cur: nat, j: nat)
    requires j < 36
    ensures NodeIndex(cur, j) == cur + CubeIndices[j]
  {
  }

  /** Shifting an index by m whole nodes shifts the vertex numbering by m
      nodes' vertices. */
  lemma NodeIndexShift(cur: nat, j: nat, m: nat)
    ensures NodeIndex(cur + 8 * m, j) == NodeIndex(cur, j + 36 * m)
  {
    var q := j / 36;
    var r := j % 36;
    assert j + 36 * m == 36 * (q + m) + r;
    assert (j + 36 * m) / 36 == q + m;
    assert (j + 36 * m) % 36 == r;
  }

  /** Per-node numbering implies that every index names a vertex of the
      export. */
  lemma PerNodeWithin(r: (seq<Vec3>, seq<nat>, nat), cur: nat, n: nat)
    requires |r.0| == 8 * n && |r.1| == 36 * n && PerNodeIndices(r, cur)
    ensures IndicesWithin(r, cur)
  {
    forall j | 0 <= j < |r.1|
      ensures cur <= r.1[j] < cur + |r.0|
    {
      var q := j / 36;
      assert q < n by {
        assert j == 36 * q + j % 36;
      }
      assert 8 * q + 8 <= 8 * n;
    }
  }

  /** Per-node numbering of two consecutive exports, the first of m nodes,
      is per-node numbering of both together. */
  lemma PerNodeAppend(r: (seq<Vec3>, seq<nat>, nat), r1: (seq<Vec3>, seq<nat>, nat),
                      r2: (seq<Vec3>, seq<nat>, nat), cur: nat, m: nat)
    requires r.1 == r1.1 + r2.1 && |r1.1| == 36 * m
    requires PerNodeIndices(r1, cur) && PerNodeIndices(r2, cur + 8 * m)
    ensures PerNodeIndices(r, cur)
  {
    forall j | 0 <= j < |r.1|
      ensures r.1[j] == NodeIndex(cur, j)
    {
      if j >= |r1.1| {
        var j2 := j - 36 * m;
        assert r.1[j] == r2.1[j2];
        NodeIndexShift(cur, j2, m);
      }
    }
  }

  /** Each BLACK node's 36 indices name its own eight vertices, numbered
      after those of the nodes exported before it. */
  lemma {:induction false} ExportNodeIndices(t: Node, cur: nat)
    requires cur + 8 * |BlackNodes(t)| < U32
    ensures PerNodeIndices(Export(t, cur), cur)
    decreases t, 1
  {
    if t.code == Black {
      var r := Export(t, cur);
      forall j | 0 <= j < |r.1|
        ensures r.1[j] == NodeIndex(cur, j)
      {
        NodeIndexFirst(cur, j);
      }
    } else if t.code == Grey {
      KidsExportNodeIndices(t, 0, cur);
    }
  }

  lemma {:induction false} KidsExportNodeIndices(t: Node, k: nat, cur: nat)
    requires k <= |t.children| && cur + 8 * |BlackKids(t, k)| < U32
    ensures PerNodeIndices(ExportKids(t, k, cur), cur)
    decreases t, 0, |t.children| - k
  {
    if k < |t.children| {
      var r := ExportKids(t, k, cur);
      var r1 := Export(t.children[k], cur);
      var m := |BlackNodes(t.children[k])|;
      ExportNodeIndices(t.children[k], cur);
      assert r1.2 == cur + 8 * m;
      var r2 := ExportKids(t, k + 1, r1.2);
      KidsExportNodeIndices(t, k + 1, r1.2);
      assert r.1 == r1.1 + r2.1 && |r1.1| == 36 * m;
      PerNodeAppend(r, r1, r2, cur, m);
    }
  }

  /** While the vertex numbers do not wrap around, every exported index
      names one of the vertices exported with it, and each BLACK node's 36
      indices name its own eight vertices. */
  lemma ExportIndices(t: Node, cur: nat)
    requires cur + 8 * |BlackNodes(t)| < U32
    ensures IndicesWithin(Export(t, cur), cur)
    ensures PerNodeIndices(Export(t, cur), cur)
  {
    ExportNodeIndices(t, cur);
    PerNodeWithin(Export(t, cur), cur, |BlackNodes(t)|);
  }
}
