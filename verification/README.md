# Octree solid modeller — Dafny model

This project models the octree engine of MAGEModeler (`MOctree.cpp` and
`MOctree.h`). The engine represents a solid as an octree over an axis-aligned
box. Each node is WHITE (empty), BLACK (solid leaf) or GREY (subdivided into
eight octants). The model covers:

- the box tests and `classify` overloads for sphere, block, cylinder and cone,
  with the mesh test left as a parameter;
- the starting boxes the modeller builds for each primitive and for a mesh;
- the five recursive `buildTree` overloads, which emit a linear code over
  `B`, `W`, `(` and `)` while they build;
- the decoder `buildTreeFromCode` / `readCodeAndPopulateTree`;
- the boolean combinator `buildTreeFromBooleanOperation` with
  `boolOperationOneIsLeaf`;
- the read-outs `getOctreeVolume`, `getOctreeBlackNodes` and
  `populateFromOctree`.

Modules follow the engine's structure:

| module | file | contents |
|---|---|---|
| `Seqs` | seqs.dfy | flattening and summing sequences |
| `Geometry` | geometry.dfy | points, boxes, `subdivide` |
| `Octree` | octree.dfy | node codes, the node tree, the linear code, errors |
| `Primitives` | primitives.dfy | box tests, primitive starting boxes, mesh bounding box |
| `Builder` | builder.dfy | the builders, with their collapse policies |
| `Codec` | codec.dfy | the decoder |
| `Combine` | combine.dfy | the combinator as written, and a corrected one |
| `Metrics` | metrics.dfy | volume, BLACK-node list, triangle export |

Model choices:

- Coordinates are exact reals.
- Trees are immutable values. A node owns a sequence of children that is
  empty for a leaf.
- Where the original reads or writes out of bounds, which is undefined
  behaviour there, the model returns a `Failure`. This covers:
  - dereferencing an iterator past the end of the code;
  - advancing an iterator that is already at the end;
  - `pop_back` on a string with too few characters.
- The five builder overloads share one function. It is parameterised by the
  solid's box test and by what a collapse does to the code:
  - `PopNine`: the mesh and sphere builders pop nine characters;
  - `LeaveOpen`: the block, cylinder and cone builders have their pops
    commented out;
  - `Replace`: the corrected behaviour, used by the round-trip theorems.
- Several places where the code does something other than what it evidently
  intends are listed under Findings. For each one the model keeps the code as
  written, proves the discrepancy on a concrete input, and proves the
  intended property of a corrected definition.

## Model

| member | source | states |
|---|---|---|
| Octree.Ordinal | MAGEModeler/MOctree.h:12 | the enumerators are numbered 0..2 and only WHITE is zero (the value the UNION rule tests) |
| Octree.DefaultNode | MAGEModeler/MOctree.h:15-24 | a freshly allocated node is WHITE with no children over the box it is given |
| Octree.CodeChar | MAGEModeler/MOctree.cpp:185-192 | `codeToChar` maps GREY, and only GREY, to G, and a leaf code to the one-character linear code of a leaf with that code (B for BLACK, W for WHITE) |
| Octree.EncodeAlphabet | MAGEModeler/MOctree.cpp:252-296 | every linear code a tree encodes to is over B, W, ( and ), with equally many '(' and ')' |
| Octree.EncodeBalanced | MAGEModeler/MOctree.cpp:264-288 | the parentheses of a tree's code are balanced: no prefix closes more than it opens, and the whole opens as many as it closes |
| Octree.LeafAt | MAGEModeler/MOctree.cpp:702-716 | the leaf a path reaches is never GREY, and it is BLACK exactly when the tree is solid along that path |
| Octree.EncodeGrey | MAGEModeler/MOctree.cpp:264-288 | a GREY node's code is '(' followed by its children's codes in index order and ')' |
| Octree.BlackEncodeAll | MAGEModeler/MOctree.cpp:257-261 | n BLACK leaves encode as n 'B's |
| Geometry.OctantOffset | MAGEModeler/MOctree.cpp:247 | each octant's offset is 0 or 1 on every axis |
| Geometry.Child | MAGEModeler/MOctree.cpp:242-250 | a child has half the parent's extent, child 0 shares the minimum corner, child 7 the maximum, and a child of a proper box lies inside it |
| Geometry.ChildOffset | MAGEModeler/MOctree.cpp:247 | child i starts at the parent's minimum plus (i%2, (i/2)%2, i/4) times half the extent |
| Geometry.ChildrenCover | MAGEModeler/MOctree.cpp:242-250 | the eight children cover the parent: every point of the parent lies in some child |
| Geometry.ChildVolume | MAGEModeler/MOctree.cpp:242-250 | each child has exactly one eighth of the parent's volume |
| Geometry.ChildAffine | MAGEModeler/MOctree.cpp:242-250 | subdividing a scaled and translated box gives the scaled and translated children |
| Primitives.ClassifyBy | MAGEModeler/MOctree.cpp:157-183 | `classify` never yields BLACK, and yields GREY exactly when the box test holds |
| Primitives.SphereTouchesWitness | MAGEModeler/MOctree.cpp:103-114 | when the sphere test passes on a proper box, the clamped point is in the box and inside the sphere |
| Primitives.SphereTouchesAny | MAGEModeler/MOctree.cpp:103-114 | any box holding a point of the sphere passes the sphere test |
| Primitives.SphereCenterInside | MAGEModeler/MOctree.cpp:103-114 | a box holding the centre passes the sphere test |
| Primitives.SphereMonotone | MAGEModeler/MOctree.cpp:103-114 | a box holding a box that passes the sphere test also passes it |
| Primitives.BlockTouchesExact | MAGEModeler/MOctree.cpp:116-124 | the block test holds exactly when the box and the block's region share a point |
| Primitives.BlockCenterInside | MAGEModeler/MOctree.cpp:116-124 | a box holding the block's centre passes the block test |
| Primitives.BlockMonotone | MAGEModeler/MOctree.cpp:116-124 | a box holding a box that passes the block test also passes it |
| Primitives.CylinderTouchesAny | MAGEModeler/MOctree.cpp:126-139 | any box holding a point of the solid cylinder passes the cylinder test |
| Primitives.CylinderTouchesWitness | MAGEModeler/MOctree.cpp:126-139 | when the cylinder test passes on a proper box, the box holds a point of the solid cylinder (the test is exact) |
| Primitives.CylinderMonotone | MAGEModeler/MOctree.cpp:126-139 | a box holding a box that passes the cylinder test also passes it |
| Primitives.ConeMissesSolid | MAGEModeler/MOctree.cpp:141-155 | as written, the cone test rejects a box that holds a point of the cone |
| Primitives.ConeFixedTouchesAny | MAGEModeler/MOctree.cpp:141-155 | the corrected cone test accepts every box that holds a point of the cone |
| Primitives.ConeFixedWitness | MAGEModeler/MOctree.cpp:141-155 | a box accepted by the corrected cone test holds a point of the cone |
| Primitives.ConeFixedMonotone | MAGEModeler/MOctree.cpp:141-155 | a box holding a box that passes the corrected cone test also passes it |
| Primitives.RadiusShrinks | MAGEModeler/MOctree.cpp:149 | between base and apex the cone's radius is non-negative and does not grow with height |
| Primitives.SphereBox | MAGEModeler/MOctree.cpp:547-556 | the sphere's starting box has side 2r on every axis and holds the centre |
| Primitives.BlockBox | MAGEModeler/MOctree.cpp:558-568 | the block's starting box is a cube with side equal to the largest dimension, and it holds the block's whole region |
| Primitives.CylinderBox | MAGEModeler/MOctree.cpp:570-579 | the cylinder's starting box is 2r by 2r by height, starts at the base and holds the base centre |
| Primitives.ConeBox | MAGEModeler/MOctree.cpp:581-590 | the cone's starting box is the box of the cylinder with the same radius and height |
| Primitives.OwnBoxIsGrey | MAGEModeler/MOctree.cpp:547-590 | the sphere's, block's, cylinder's and (for a positive height) cone's own starting box is classified GREY, so each build starts by subdividing |
| Primitives.CornersBound | MAGEModeler/MOctree.cpp:602-629 | every vertex lies between the running minimum and the running maximum |
| Primitives.InitialBoundingBox | MAGEModeler/MOctree.cpp:592-651 | the starting cube of a mesh is centred on the vertices' bounding box, its side is the greatest extent, it holds every vertex, and it is the ±9999 box when there are no vertices |
| Builder.Target | MAGEModeler/MOctree.cpp:252-296 | the intended tree is well formed over its box, and it is WHITE exactly where the box misses the solid |
| Builder.TargetShape | MAGEModeler/MOctree.cpp:252-296 | the intended tree has the subdivision's boxes and no node with eight BLACK children |
| Builder.TargetSolid | MAGEModeler/MOctree.cpp:252-296 | collapsing loses no cell and invents none: a full-depth path is solid exactly when every box along it touches the solid |
| Builder.Build | MAGEModeler/MOctree.cpp:252-296 | a build keeps the node's box, and the builders without pops never fail |
| Builder.BuildTree | MAGEModeler/MOctree.cpp:252-480 | under every collapse policy, a build that succeeds yields the intended tree |
| Builder.BuildEncodes | MAGEModeler/MOctree.cpp:252-296 | the corrected builder appends exactly the built tree's code; the original builders do so whenever no node collapses |
| Builder.BuildRoundTrip | MAGEModeler/MOctree.cpp:252-296 | the corrected builder's code decodes, over the same box, to the tree it built |
| Builder.PopNineDropsNode | MAGEModeler/MOctree.cpp:276-284 | with the nine pops, a collapsed node leaves no character in the code; the corrected collapse leaves one 'B' |
| Builder.PopNineUnderflow | MAGEModeler/MOctree.cpp:276-284 | with the nine pops, a two-level all-solid build runs past the start of the code |
| Builder.LeaveOpenUnclosed | MAGEModeler/MOctree.cpp:368-380 | without the pops, a collapsed node leaves "(BBBBBBBB", which decodes to a GREY node instead of the BLACK leaf built |
| Builder.OpenCodeDecodes | MAGEModeler/MOctree.cpp:483-512 | "(BBBBBBBB" decodes without error to a GREY root: after the eighth child the iterator moves onto the end of the code, and the decoder never checks that a ')' stood at the position it skips |
| Builder.BuildMesh | MAGEModeler/MOctree.cpp:252-296 | the mesh builder, when it succeeds, yields the intended tree for its box test |
| Builder.BuildSphere | MAGEModeler/MOctree.cpp:298-342 | the sphere builder, when it succeeds, yields the intended tree for the sphere test |
| Builder.BuildBlock | MAGEModeler/MOctree.cpp:344-388 | the block builder always succeeds and yields the intended tree for the block test |
| Builder.BuildCylinder | MAGEModeler/MOctree.cpp:390-434 | the cylinder builder always succeeds and yields the intended tree for the cylinder test |
| Builder.BuildCone | MAGEModeler/MOctree.cpp:436-480 | the cone builder always succeeds and yields the intended tree for the cone test |
| Codec.DefaultBounds | MAGEModeler/MOctree.h:45 | the decoder's default bounds are a proper box of volume 1000 |
| Codec.ReadUnit | MAGEModeler/MOctree.cpp:483-512 | reading a unit moves forward within the code and yields a well-formed node over the given box |
| Codec.ReadChildren | MAGEModeler/MOctree.cpp:500-510 | a GREY node reads exactly eight children, each well formed over its subdivision box |
| Codec.Decode | MAGEModeler/MOctree.cpp:514-545 | decoding an empty code is an error; a successful decode is a well-formed tree over the given bounds |
| Codec.DecodeDefault | MAGEModeler/MOctree.h:45 | decoding with no bounds given places the tree on the default bounds |
| Codec.ReadUnitEncoded | MAGEModeler/MOctree.cpp:483-512 | a unit placed after the iterator reads back as the tree it encodes, and the iterator stops on its last character |
| Codec.ReadChildrenEncoded | MAGEModeler/MOctree.cpp:504-509 | the codes of the remaining children read back as those children |
| Codec.DecodeEncode | MAGEModeler/MOctree.cpp:514-545 | round trip: decoding a well-formed tree's code, with any trailing input, over the tree's own box gives the tree back |
| Codec.DecodeUnknownRoot | MAGEModeler/MOctree.cpp:522-544 | a root character other than B, W or '(' gives a default WHITE leaf and the rest is ignored |
| Codec.DecodeSingleLeaves | MAGEModeler/MOctree.cpp:514-545 | "B" over the unit cube decodes to one BLACK leaf of volume 1, and "W" to one WHITE leaf |
| Codec.DecodeAffine | MAGEModeler/MAGEModeler.cpp:132-140 | re-decoding a code under translated or scaled bounds translates or scales every node of the decoded tree |
| Codec.MapPreservesShape | MAGEModeler/MOctree.cpp:242-250 | moving and scaling all the boxes keeps a tree well formed |
| Combine.OneIsLeaf | MAGEModeler/MOctree.cpp:653-675 | a neutral leaf takes the other operand's code and appends 'G'; an absorbing leaf gives WHITE for INTERSECTION and BLACK otherwise, and appends that code |
| Combine.Step | MAGEModeler/MOctree.cpp:799-834 | the new node is GREY only if an operand is; two GREY operands leave the new node unset and append nothing; at most one of B, W, G is appended, never a parenthesis |
| Combine.CopyAsWritten | MAGEModeler/MOctree.cpp:759-797 | with one operand missing, the new node takes the other operand's code over the new box |
| Combine.CopyAsWrittenMatches | MAGEModeler/MOctree.cpp:759-797 | with one operand missing, the original builds the copy of the other operand and appends exactly its code |
| Combine.Combine | MAGEModeler/MOctree.cpp:757-852 | every node of the tree the combinator builds, at every depth, holds either no children or eight |
| Combine.CombineRoots | MAGEModeler/MOctree.h:49 | the entry point with both operands present builds a tree whose every node holds either no children or eight |
| Combine.CombineBalanced | MAGEModeler/MOctree.cpp:757-852 | for operands of any shape, and either operand missing, the appended code has balanced parentheses: each '(' (lines 764, 784, 837) is closed by its ')' |
| Combine.CombineSymmetric | MAGEModeler/MOctree.cpp:826-834 | for every operation and operands of any shape, swapping the operands and their missing flags builds the same node and appends the same code |
| Combine.LeafPairs | MAGEModeler/MOctree.cpp:799-825 | for two leaves: UNION and INTERSECTION match the intended result except that two WHITE leaves intersect to BLACK; DIFFERENCE sets and appends nothing |
| Combine.NeutralLeafPrefix | MAGEModeler/MOctree.cpp:826-851 | a neutral leaf against a GREY node appends 'G' before the node's code, and that code decodes to one WHITE leaf |
| Combine.DifferenceOneLeaf | MAGEModeler/MOctree.cpp:653-664 | DIFFERENCE of a BLACK leaf and a GREY node is treated as UNION and gives BLACK, not the complement |
| Combine.BothGreyStayWhite | MAGEModeler/MOctree.cpp:835-851 | two GREY operands give a WHITE node holding eight children, which is not well formed |
| Combine.DifferenceEmptyCode | MAGEModeler/MOctree.cpp:799-825 | DIFFERENCE of eight BLACK leaves and eight WHITE leaves appends "()", which the decoder cannot read |
| Combine.UnionSameShape | MAGEModeler/MAGEModeler.cpp:155-158 | for two trees that subdivide alike, the original UNION appends exactly the code of the intended union |
| Combine.RedecodedUnion | MAGEModeler/MAGEModeler.cpp:155-158 | re-decoding that code gives a tree solid exactly where either operand is |
| Combine.Agree | MAGEModeler/MOctree.cpp:801-811 | the tree, shaped like the operands, that is BLACK on a leaf exactly where the operands' codes are equal |
| Combine.AgreeSolid | MAGEModeler/MOctree.cpp:801-811 | along every path of the operands, Agree is solid exactly when both operands are solid or both are not |
| Combine.IntersectionSameShape | MAGEModeler/MOctree.cpp:757-852 | for two trees that subdivide alike, the original INTERSECTION appends exactly the code of Agree |
| Combine.RedecodedIntersection | MAGEModeler/MOctree.cpp:757-852 | re-decoding that code succeeds and is solid exactly where the operands agree, so where both are empty it is solid, unlike the intended intersection |
| Combine.Copy | MAGEModeler/MOctree.cpp:759-797 | the copy is well formed over the new box with the same code |
| Combine.CopySolid | MAGEModeler/MOctree.cpp:759-797 | the copy is solid along exactly the same paths as the original |
| Combine.CopyEncode | MAGEModeler/MOctree.cpp:759-797 | the copy encodes to the same code as the original |
| Combine.Complement | MAGEModeler/MOctree.cpp:757-852 | the complement is well formed over the new box and GREY exactly where the original is |
| Combine.ComplementSolid | MAGEModeler/MOctree.cpp:757-852 | the complement is solid exactly where the original is not |
| Combine.CombineFixed | MAGEModeler/MOctree.cpp:757-852 | the corrected combination is a well-formed tree over the given box |
| Combine.FixedSolid | MAGEModeler/MOctree.cpp:757-852 | along every path, the corrected combination is solid exactly as the operation applied to the operands' solidity says |
| Combine.FixedRoundTrip | MAGEModeler/MOctree.cpp:757-852 | the corrected combination's code decodes back to the combination |
| Metrics.BlackNodes | MAGEModeler/MOctree.cpp:702-716 | every node collected is BLACK, and a BLACK node collects itself |
| Metrics.BlackNodesExact | MAGEModeler/MOctree.cpp:702-716 | a node is collected exactly when it is the leaf at the end of a path along which the tree is solid |
| Metrics.LeafVolume | MAGEModeler/MOctree.cpp:682-691 | a BLACK node counts its box volume, or -99999 when the box is inverted on some axis |
| Metrics.VolumeOfBlackNodes | MAGEModeler/MOctree.cpp:677-716 | the volume of a tree is the sum of the volumes of the BLACK nodes `getOctreeBlackNodes` collects |
| Metrics.VolumeBounds | MAGEModeler/MOctree.cpp:677-700 | a well-formed tree over a proper box has a volume between zero and the box's volume |
| Metrics.Corners | MAGEModeler/MOctree.cpp:200-209 | a box has eight corners, from the minimum corner (0) to the maximum corner (6), all inside the box |
| Metrics.Export | MAGEModeler/MOctree.cpp:194-239 | the export appends 8 vertices and 36 indices per BLACK node, and advances the 32-bit vertex counter by the number of vertices, wrapping around |
| Metrics.ExportVertices | MAGEModeler/MOctree.cpp:194-239 | the exported vertices are the corners of the collected BLACK nodes, in the same order |
| Metrics.ExportIndices | MAGEModeler/MOctree.cpp:217-231 | while the counter does not wrap, every exported index names one of the vertices exported with it, and the j-th index is the counter plus 8 for every earlier node plus the j-th entry of the cube's index table |

## Left out

- The mesh's separating-axis collision test (`checkCollisionSAT`) is not modelled. The mesh builder takes its box test as a parameter.
- `getOctreeArea` is not modelled. It is not part of the octree engine's contract here, and it is floating-point work on the BLACK-node list.
- The orientation fields of the primitives are carried but, as in the code, never used.
- Vertex colours in `populateFromOctree` are not modelled. They are a per-vertex division used only for rendering.
- Single-precision rounding is not modelled: coordinates are exact reals.
- Memory management is not modelled: trees are values, so the original's leaked children and aliased child nodes are not modelled.
- A collapsed builder node is a plain BLACK leaf here. In the original it still owns its eight children. The decoder, the volume, the BLACK-node walk and the export stop at a BLACK node and cannot tell the difference, and neither can UNION or DIFFERENCE, which give BLACK and stop there. INTERSECTION can: a collapsed node against a GREY node becomes GREY ('G'), and the original then recurses into the collapsed node's retained children (MOctree.cpp:835-851), appending a further 'G' for each GREY child of the other operand. The model has no children to recurse into and copies the other operand's children instead. `main` combines by UNION only (MAGEModeler.cpp:155-158).
- I/O is not modelled: reading the code from the console, `main`'s flag handling, rendering and writing the code to a file. In `MAGEModeler.cpp`, `main` calls the cylinder builder for every primitive (lines 107-127); the model provides each overload separately.
- The combinator's destination node is taken to be fresh, as it is on every recursive call and in `main`. Combining into a node that already has children is not modelled.
- The builders' depth is a natural number; a negative depth is not modelled.
- Primitives.ConeTouches: requires a non-zero height. The original divides by the height and yields infinities or NaN there, which the model cannot represent.
- Builder.BuildCone: requires a non-zero height, for the same reason.
- Primitives.CylinderTouchesWitness: requires a non-negative height. With a negative height the solid is empty, but the test can still accept a box.
- Metrics.ExportIndices: requires that the 32-bit vertex counter does not wrap. After a wrap the indices are taken modulo 2^32 and point at the wrong vertices, as they would in the original; the model states nothing about them then.
- The mesh classify skips faces with fewer than three vertices. That belongs to the mesh test, which is a parameter.

## Findings

| source | as written | input that shows it | evidently intended | confidence | as-written member | corrected member |
|---|---|---|---|---|---|---|
| MAGEModeler/MOctree.cpp:276-284 | a collapsing mesh or sphere node pops its '(' and eight child characters and appends nothing | one level, everything solid: the code gains no character for the node; two levels from an empty code: the pops run past the start | the nine characters become a single 'B' | high, not executed | Builder.PopNineDropsNode | Builder.BuildRoundTrip |
| MAGEModeler/MOctree.cpp:368-380 | a collapsing block, cylinder or cone node keeps "(" and its children's characters, with no ')' | one level, everything solid: the code is "(BBBBBBBB", which decodes to a GREY node | a single 'B' in place of the node's unit | high, not executed | Builder.LeaveOpenUnclosed | Builder.BuildRoundTrip |
| MAGEModeler/MOctree.cpp:653-675 | a neutral leaf against a GREY node appends 'G' and then the node's unit | WHITE UNION a GREY node: the code is "G(...)", which decodes to one WHITE node | the GREY node's code alone | high, not executed | Combine.NeutralLeafPrefix | Combine.FixedRoundTrip |
| MAGEModeler/MOctree.cpp:835-851 | two GREY operands never set the new node's code, so it stays WHITE while holding children | any two GREY operands | a GREY node | high, not executed | Combine.BothGreyStayWhite | Combine.FixedSolid |
| MAGEModeler/MOctree.cpp:799-825 | DIFFERENCE of two leaves has no rule and appends nothing | eight BLACK leaves minus eight WHITE leaves: the code is "()", which the decoder cannot read | BLACK minus WHITE is BLACK, and otherwise WHITE | high, not executed | Combine.DifferenceEmptyCode | Combine.FixedSolid |
| MAGEModeler/MOctree.cpp:653-664 | DIFFERENCE of a BLACK leaf and a GREY node is treated as UNION | a BLACK leaf minus any GREY node gives BLACK | the complement of the GREY node | medium, not executed | Combine.DifferenceOneLeaf | Combine.FixedSolid |
| MAGEModeler/MOctree.cpp:801-811 | INTERSECTION of two leaves gives BLACK when their codes are equal | two WHITE leaves intersect to BLACK | BLACK only when both are BLACK | high, not executed | Combine.LeafPairs | Combine.FixedSolid |
| MAGEModeler/MOctree.cpp:149 | the cone radius is taken at the box's top face, where the cone is narrowest | unit cone at the origin, box [0.4,0.5]x[0,0.1]x[0,1] holding (0.4,0,0): rejected | the radius at the lowest height of the box that lies on the cone | medium, not executed | Primitives.ConeMissesSolid | Primitives.ConeFixedTouchesAny |
