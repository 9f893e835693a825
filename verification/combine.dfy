/** The boolean combinator of two octrees (`buildTreeFromBooleanOperation`
    with `boolOperationOneIsLeaf`) as the original writes it, and a
    corrected combinator with the pointwise meaning of each operation.

    The original walks both trees together, writing into a destination node
    and appending to a code string. Here the destination is a fresh node
    (WHITE, no children) over `box`, as it is on every recursive call, and
    the result pairs the node the destination becomes with the characters
    appended. A child slot that does not exist is passed on with its flag
    set (`bAisNull`/`bBisNull`); the node in that slot is never read. */
module Combine {
  import opened Seqs
  import opened Geometry
  import opened Octree
  import opened Codec

  /** The pointwise meaning of each operation on "solid here" flags. */
  function Apply(op: Operation, x: bool, y: bool): bool
  {
    match op
    case Intersection => x && y
    case Union => x || y
    case Difference => x && !y
  }

  // ---------------------------------------------------------------------
  // As written

  /** Child slot i of t: the child, or a fresh node where t has none. */
  function Slot(t: Node, i: Octant, box: Box): (s: Node)
    ensures i < |t.children| ==> s == t.children[i]
  {
    if i < |t.children| then t.children[i] else DefaultNode(Child(box, i))
  }

  /** Every node holds either no children or eight. */
  predicate Arity(t: Node)
  {
    && (|t.children| == 0 || |t.children| == 8)
    && forall k :: 0 <= k < |t.children| ==> Arity(t.children[k])
  }

  /** `boolOperationOneIsLeaf`: one operand is a leaf. When it is the
      operation's neutral element (BLACK for INTERSECTION, WHITE otherwise)
      the new node takes the other operand's code and a 'G' is appended;
      otherwise the leaf absorbs the operation and the new node is that
      leaf: WHITE for INTERSECTION, BLACK otherwise. */
  function OneIsLeaf(leaf: Node, other: Node, op: Operation, box: Box): (r: (Node, seq<char>))
    ensures r.1 == "G" <==> (leaf.code == Black) == (op == Intersection)
    ensures r.1 == "G" ==> r.0.code == other.code
    ensures r.1 != "G" ==> r.0 == Leaf(box, if op == Intersection then White else Black)
                           && r.1 == [CodeChar(r.0.code)]
    ensures r.0.code != Grey && (other.code != Grey ==> |other.children| == 0) ==> |r.0.children| == 0
  {
    if leaf.code == Black then
      if op == Intersection then (Node(box, other.code, []), "G") else (Leaf(box, Black), "B")
    else
      if op == Intersection then (Leaf(box, White), "W") else (other, "G")
  }

  /** The part of the combinator before the subdivision: the new node's
      code from the operands' codes, and what is appended for it. When both
      operands are GREY nothing is set, and DIFFERENCE of two leaves has no
      rule. */
  function Step(op: Operation, a: Node, b: Node, box: Box): (r: (Node, seq<char>))
    ensures r.0.code == Grey ==> a.code == Grey || b.code == Grey
    ensures a.code == Grey && b.code == Grey ==> r == (DefaultNode(box), [])
    ensures Valid(a) && Valid(b) && r.0.code != Grey ==> |r.0.children| == 0
    ensures r.1 == [] || r.1 == "B" || r.1 == "W" || r.1 == "G"
  {
    if a.code != Grey && b.code != Grey then
      match op
      case Intersection =>
        if a.code == b.code then (Leaf(box, Black), "B") else (Leaf(box, White), "W")
      case Union =>
        if Ordinal(a.code) != 0 || Ordinal(b.code) != 0 then (Leaf(box, Black), "B") else (Leaf(box, White), "W")
      case Difference => (DefaultNode(box), [])
    else if a.code != Grey then OneIsLeaf(a, b, op, box)
    else if b.code != Grey then OneIsLeaf(b, a, op, box)
    else (DefaultNode(box), [])
  }

  /** The combinator with one operand missing: a copy of the other operand
      into the destination over `box`. */
  function CopyAsWritten(t: Node, box: Box): (r: (Node, seq<char>))
    requires Valid(t)
    ensures r.0.box == box && r.0.code == t.code && Arity(r.0)
  {
    if t.code == Grey then
      var rs := seq(8, i requires 0 <= i < 8 => CopyAsWritten(t.children[i], Child(box, i)));
      (Node(box, Grey, seq(8, i requires 0 <= i < 8 => rs[i].0)),
       "(" + Flatten(seq(8, i requires 0 <= i < 8 => rs[i].1)) + ")")
    else (Leaf(box, t.code), [CodeChar(t.code)])
  }

  /** `buildTreeFromBooleanOperation(a, b, newTree, op, code, aNull, bNull)`
      into a fresh node over `box`. */
  function Combine(op: Operation, a: Node, b: Node, aNull: bool, bNull: bool, box: Box): (r: (Node, seq<char>))
    requires aNull || Valid(a)
    requires bNull || Valid(b)
    requires !(aNull && bNull)
    ensures Arity(r.0)
    decreases if aNull || bNull then 0 else 1, a
  {
    if aNull then CopyAsWritten(b, box)
    else if bNull then CopyAsWritten(a, box)
    else
      var (n, out) := Step(op, a, b, box);
      if (a.code == Grey && b.code == Grey) || n.code == Grey then
        var rs := seq(8, i requires 0 <= i < 8 =>
                        Combine(op, Slot(a, i, n.box), Slot(b, i, n.box),
                                i >= |a.children|, i >= |b.children|, Child(n.box, i)));
        (Node(n.box, n.code, seq(8, i requires 0 <= i < 8 => rs[i].0)),
         out + "(" + Flatten(seq(8, i requires 0 <= i < 8 => rs[i].1)) + ")")
      else (n, out)
  }

  /** The entry point with its default flags (neither operand missing). */
  function CombineRoots(op: Operation, a: Node, b: Node, box: Box): (r: (Node, seq<char>))
    requires Valid(a) && Valid(b)
    ensures Arity(r.0)
  {
    Combine(op, a, b, false, false, box)
  }

  /** Whatever the operands' shapes, the code the combinator appends has
      balanced parentheses: every '(' it appends is closed by a ')'. */
  lemma {:induction false} CombineBalanced(op: Operation, a: Node, b: Node, aNull: bool, bNull: bool, box: Box)
    requires aNull || Valid(a)
    requires bNull || Valid(b)
    requires !(aNull && bNull)
    ensures Balanced(Combine(op, a, b, aNull, bNull, box).1)
    decreases if aNull || bNull then 0 else 1, a
  {
    if aNull {
      CopyAsWrittenMatches(b, box);
      EncodeBalanced(b);
    } else if bNull {
      CopyAsWrittenMatches(a, box);
      EncodeBalanced(a);
    } else {
      var (n, out) := Step(op, a, b, box);
      ShortBalanced(out);
      if (a.code == Grey && b.code == Grey) || n.code == Grey {
        var rs := seq(8, i requires 0 <= i < 8 =>
                        Combine(op, Slot(a, i, n.box), Slot(b, i, n.box),
                                i >= |a.children|, i >= |b.children|, Child(n.box, i)));
        var ks := seq(8, i requires 0 <= i < 8 => rs[i].1);
        forall k | 0 <= k < 8
          ensures Balanced(ks[k])
        {
          CombineBalanced(op, Slot(a, k, n.box), Slot(b, k, n.box),
                          k >= |a.children|, k >= |b.children|, Child(n.box, k));
        }
        FlattenBalanced(ks);
        BalancedWrap(Flatten(ks));
        BalancedAppend(out, "(" + Flatten(ks) + ")");
        assert out + "(" + Flatten(ks) + ")" == out + ("(" + Flatten(ks) + ")");
      }
    }
  }

  /** The combinator does not depend on the order of its operands: swapping
      them, with their flags, builds the same node and appends the same
      code, since a leaf operand is handled alike on either side. */
  lemma {:induction false} CombineSymmetric(op: Operation, a: Node, b: Node, aNull: bool, bNull: bool, box: Box)
    requires aNull || Valid(a)
    requires bNull || Valid(b)
    requires !(aNull && bNull)
    ensures Combine(op, a, b, aNull, bNull, box) == Combine(op, b, a, bNull, aNull, box)
    decreases if aNull || bNull then 0 else 1, a
  {
    if !aNull && !bNull {
      var (n, out) := Step(op, a, b, box);
      assert Step(op, b, a, box) == (n, out);
      if (a.code == Grey && b.code == Grey) || n.code == Grey {
        var rs := seq(8, i requires 0 <= i < 8 =>
                        Combine(op, Slot(a, i, n.box), Slot(b, i, n.box),
                                i >= |a.children|, i >= |b.children|, Child(n.box, i)));
        var ss := seq(8, i requires 0 <= i < 8 =>
                        Combine(op, Slot(b, i, n.box), Slot(a, i, n.box),
                                i >= |b.children|, i >= |a.children|, Child(n.box, i)));
        forall k | 0 <= k < 8
          ensures rs[k] == ss[k]
        {
          CombineSymmetric(op, Slot(a, k, n.box), Slot(b, k, n.box),
                           k >= |a.children|, k >= |b.children|, Child(n.box, k));
        }
        assert rs == ss;
      }
    }
  }

  // ---------------------------------------------------------------------
  // Corrected

  /** t with its boxes replaced by those subdividing `box`. */
  function Copy(t: Node, box: Box): (r: Node)
    requires Valid(t)
    ensures Valid(r) && Boxed(r) && r.box == box && r.code == t.code
  {
    if t.code == Grey then
      Node(box, Grey, seq(8, i requires 0 <= i < 8 => Copy(t.children[i], Child(box, i))))
    else Leaf(box, t.code)
  }

  /** t with BLACK and WHITE leaves swapped, over `box`. */
  function Complement(t: Node, box: Box): (r: Node)
    requires Valid(t)
    ensures Valid(r) && Boxed(r) && r.box == box && (r.code == Grey <==> t.code == Grey)
  {
    if t.code == Grey then
      Node(box, Grey, seq(8, i requires 0 <= i < 8 => Complement(t.children[i], Child(box, i))))
    else Leaf(box, if t.code == Black then White else Black)
  }

  /** The combinator as intended: two leaves give the leaf the operation
      gives; a leaf against a GREY node gives a constant leaf, a copy of the
      node or its complement; two GREY nodes combine child by child. */
  function CombineFixed(op: Operation, a: Node, b: Node, box: Box): (r: Node)
    requires Valid(a) && Valid(b)
    ensures Valid(r) && Boxed(r) && r.box == box
    decreases a
  {
    if a.code != Grey && b.code != Grey then
      Leaf(box, if Apply(op, a.code == Black, b.code == Black) then Black else White)
    else if a.code != Grey then
      match op
      case Intersection => if a.code == Black then Copy(b, box) else Leaf(box, White)
      case Union => if a.code == Black then Leaf(box, Black) else Copy(b, box)
      case Difference => if a.code == Black then Complement(b, box) else Leaf(box, White)
    else if b.code != Grey then
      match op
      case Intersection => if b.code == Black then Copy(a, box) else Leaf(box, White)
      case Union => if b.code == Black then Leaf(box, Black) else Copy(a, box)
      case Difference => if b.code == Black then Leaf(box, White) else Copy(a, box)
    else
      Node(box, Grey, seq(8, i requires 0 <= i < 8 => CombineFixed(op, a.children[i], b.children[i], Child(box, i))))
  }

  // ---------------------------------------------------------------------
  // The corrected combinator means what the operation says

  /** Copying keeps what is solid along every path. */
  lemma {:induction false} CopySolid(t: Node, box: Box, path: seq<Octant>)
    requires Valid(t)
    ensures Solid(Copy(t, box), path) == Solid(t, path)
    decreases t
  {
    if t.code == Grey && |path| > 0 {
      CopySolid(t.children[path[0]], Child(box, path[0]), path[1..]);
    }
  }

  /** The complement is solid exactly where t is not, along every path that
      reaches a leaf of t. */
  lemma {:induction false} ComplementSolid(t: Node, box: Box, path: seq<Octant>)
    requires Valid(t) && Reaches(t, path)
    ensures Solid(Complement(t, box), path) == !Solid(t, path)
    decreases t
  {
    if t.code == Grey {
      ComplementSolid(t.children[path[0]], Child(box, path[0]), path[1..]);
    }
  }

  /** Along every path that reaches a leaf of both operands, the corrected
      combination is solid exactly when the operation applied to the
      operands' solidity says so. */
  lemma {:induction false} FixedSolid(op: Operation, a: Node, b: Node, box: Box, path: seq<Octant>)
    requires Valid(a) && Valid(b) && Reaches(a, path) && Reaches(b, path)
    ensures Solid(CombineFixed(op, a, b, box), path) == Apply(op, Solid(a, path), Solid(b, path))
    decreases a
  {
    if a.code != Grey && b.code == Grey {
      CopySolid(b, box, path);
      ComplementSolid(b, box, path);
    } else if a.code == Grey && b.code != Grey {
      CopySolid(a, box, path);
    } else if a.code == Grey && b.code == Grey {
      var i := path[0];
      FixedSolid(op, a.children[i], b.children[i], Child(box, i), path[1..]);
    }
  }

  /** The corrected combinator's code decodes, over the same outer box, to
      the combined tree: re-decoding the code is the identity. */
  lemma FixedRoundTrip(op: Operation, a: Node, b: Node, box: Box)
    requires Valid(a) && Valid(b)
    ensures var r := CombineFixed(op, a, b, box);
            Decode(Encode(r), box) == Success(r)
  {
    var r := CombineFixed(op, a, b, box);
    DecodeEncode(r, []);
    assert Encode(r) + [] == Encode(r);
  }

  // ---------------------------------------------------------------------
  // The original against the corrected combinator

  /** The copy of the original appends exactly the code of what it copies
      and builds the corrected copy. */
  lemma {:induction false} CopyAsWrittenMatches(t: Node, box: Box)
    requires Valid(t)
    ensures CopyAsWritten(t, box) == (Copy(t, box), Encode(t))
    decreases t
  {
    if t.code == Grey {
      var rs := seq(8, i requires 0 <= i < 8 => CopyAsWritten(t.children[i], Child(box, i)));
      forall i | 0 <= i < 8
        ensures rs[i] == (Copy(t.children[i], Child(box, i)), Encode(t.children[i]))
      {
        CopyAsWrittenMatches(t.children[i], Child(box, i));
      }
      assert seq(8, i requires 0 <= i < 8 => rs[i].1) == KidCodes(t);
      assert seq(8, i requires 0 <= i < 8 => rs[i].0)
             == seq(8, i requires 0 <= i < 8 => Copy(t.children[i], Child(box, i)));
    }
  }

  /** a and b subdivide alike: GREY at the same places. */
  predicate SameShape(a: Node, b: Node)
  {
    && (a.code == Grey <==> b.code == Grey)
    && |a.children| == |b.children|
    && forall k :: 0 <= k < |a.children| ==> SameShape(a.children[k], b.children[k])
  }

  /** UNION of two trees that subdivide alike: the original appends exactly
      the code of the corrected union, so re-decoding its code (as the
      modeller does) recovers the union even though the node it builds
      does not. */
  lemma {:induction false} UnionSameShape(a: Node, b: Node, box: Box)
    requires Valid(a) && Valid(b) && SameShape(a, b)
    ensures Combine(Union, a, b, false, false, box).1 == Encode(CombineFixed(Union, a, b, box))
    decreases a
  {
    if a.code == Grey {
      var n := Step(Union, a, b, box).0;
      var rs := seq(8, i requires 0 <= i < 8 =>
                      Combine(Union, Slot(a, i, n.box), Slot(b, i, n.box),
                              i >= |a.children|, i >= |b.children|, Child(n.box, i)));
      var f := CombineFixed(Union, a, b, box);
      forall i | 0 <= i < 8
        ensures rs[i].1 == Encode(f.children[i])
      {
        UnionSameShape(a.children[i], b.children[i], Child(box, i));
      }
      assert seq(8, i requires 0 <= i < 8 => rs[i].1) == KidCodes(f);
      assert [] + "(" == "(";
    }
  }

  /** The modeller's use of the combinator: the UNION of two trees that
      subdivide alike, re-decoded from its code, is solid exactly where
      either operand is. */
  lemma RedecodedUnion(a: Node, b: Node, box: Box)
    requires Valid(a) && Valid(b) && SameShape(a, b)
    ensures var t := Decode(Combine(Union, a, b, false, false, box).1, box);
            && t.Success?
            && forall path :: Reaches(a, path) && Reaches(b, path) ==>
                 Solid(t.value, path) == (Solid(a, path) || Solid(b, path))
  {
    UnionSameShape(a, b, box);
    FixedRoundTrip(Union, a, b, box);
    forall path | Reaches(a, path) && Reaches(b, path)
      ensures Solid(CombineFixed(Union, a, b, box), path) == (Solid(a, path) || Solid(b, path))
    {
      FixedSolid(Union, a, b, box, path);
    }
  }

  /** The tree that is BLACK where two trees that subdivide alike agree
      (both BLACK or both WHITE) and WHITE where they differ: what the
      original INTERSECTION rule for two leaves, "equal codes give BLACK",
      computes. */
  function Agree(a: Node, b: Node, box: Box): (r: Node)
    requires Valid(a) && Valid(b) && SameShape(a, b)
    ensures Valid(r) && Boxed(r) && r.box == box && (r.code == Grey <==> a.code == Grey)
    decreases a
  {
    if a.code != Grey then Leaf(box, if a.code == b.code then Black else White)
    else Node(box, Grey, seq(8, i requires 0 <= i < 8 => Agree(a.children[i], b.children[i], Child(box, i))))
  }

  /** Agree is solid exactly where the operands' solidity is equal. */
  lemma {:induction false} AgreeSolid(a: Node, b: Node, box: Box, path: seq<Octant>)
    requires Valid(a) && Valid(b) && SameShape(a, b) && Reaches(a, path)
    ensures Reaches(b, path)
    ensures Solid(Agree(a, b, box), path) == (Solid(a, path) == Solid(b, path))
    decreases a
  {
    if a.code == Grey {
      var i := path[0];
      AgreeSolid(a.children[i], b.children[i], Child(box, i), path[1..]);
    }
  }

  /** INTERSECTION of two trees that subdivide alike: the original appends
      exactly the code of Agree, not of the corrected intersection. */
  lemma {:induction false} IntersectionSameShape(a: Node, b: Node, box: Box)
    requires Valid(a) && Valid(b) && SameShape(a, b)
    ensures Combine(Intersection, a, b, false, false, box).1 == Encode(Agree(a, b, box))
    decreases a
  {
    if a.code == Grey {
      var n := Step(Intersection, a, b, box).0;
      var rs := seq(8, i requires 0 <= i < 8 =>
                      Combine(Intersection, Slot(a, i, n.box), Slot(b, i, n.box),
                              i >= |a.children|, i >= |b.children|, Child(n.box, i)));
      var f := Agree(a, b, box);
      forall i | 0 <= i < 8
        ensures rs[i].1 == Encode(f.children[i])
      {
        IntersectionSameShape(a.children[i], b.children[i], Child(box, i));
      }
      assert seq(8, i requires 0 <= i < 8 => rs[i].1) == KidCodes(f);
      assert [] + "(" == "(";
    }
  }

  /** The modeller's re-decoding applied to INTERSECTION of two trees that
      subdivide alike: the result is solid exactly where the operands agree,
      so wherever both are WHITE it is solid, where the intended
      intersection is not. */
  lemma RedecodedIntersection(a: Node, b: Node, box: Box)
    requires Valid(a) && Valid(b) && SameShape(a, b)
    ensures var t := Decode(Combine(Intersection, a, b, false, false, box).1, box);
            && t.Success?
            && forall path :: Reaches(a, path) ==>
                 && Solid(t.value, path) == (Solid(a, path) == Solid(b, path))
                 && (!Solid(a, path) && !Solid(b, path) ==>
                       Solid(t.value, path) != Apply(Intersection, Solid(a, path), Solid(b, path)))
  {
    var f := Agree(a, b, box);
    IntersectionSameShape(a, b, box);
    DecodeEncode(f, []);
    assert Encode(f) + [] == Encode(f);
    forall path | Reaches(a, path)
      ensures Solid(f, path) == (Solid(a, path) == Solid(b, path))
    {
      AgreeSolid(a, b, box, path);
    }
  }

  /** Two leaves: UNION and INTERSECTION agree with the corrected
      combinator except that two WHITE leaves intersect to BLACK;
      DIFFERENCE sets nothing and appends nothing. */
  lemma LeafPairs(op: Operation, a: Node, b: Node, box: Box)
    requires Valid(a) && Valid(b) && a.code != Grey && b.code != Grey
    ensures var r := Combine(op, a, b, false, false, box);
            var f := CombineFixed(op, a, b, box);
            && (op == Difference ==> r == (DefaultNode(box), []) && f.code != Grey)
            && (op == Intersection && a.code == White && b.code == White ==>
                  r == (Leaf(box, Black), "B") && f == Leaf(box, White))
            && (op != Difference && (op == Union || a.code == Black || b.code == Black) ==>
                  r == (f, Encode(f)))
  {
  }

  /** A leaf that is neutral for the operation (BLACK for INTERSECTION,
      WHITE for UNION) against a GREY node: the original appends a 'G' in
      front of the node's code, and the decoder reads that code as one WHITE
      node. The corrected combinator gives a copy of the GREY node, whose
      code is the node's own. */
  lemma {:induction false} NeutralLeafPrefix(op: Operation, a: Node, b: Node, box: Box)
    requires Valid(a) && Valid(b) && a.code != Grey && b.code == Grey
    requires op != Difference && (a.code == Black) == (op == Intersection)
    ensures var r := Combine(op, a, b, false, false, box);
            && r.1 == "G" + Encode(b)
            && Decode(r.1, box) == Success(DefaultNode(box))
            && CombineFixed(op, a, b, box) == Copy(b, box)
            && Encode(Copy(b, box)) == Encode(b)
  {
    var n := Step(op, a, b, box).0;
    var rs := seq(8, i requires 0 <= i < 8 =>
                    Combine(op, Slot(a, i, n.box), Slot(b, i, n.box),
                            i >= |a.children|, i >= |b.children|, Child(n.box, i)));
    forall i | 0 <= i < 8
      ensures rs[i].1 == Encode(b.children[i])
    {
      CopyAsWrittenMatches(b.children[i], Child(n.box, i));
    }
    assert seq(8, i requires 0 <= i < 8 => rs[i].1) == KidCodes(b);
    var f := Flatten(KidCodes(b));
    assert "G" + "(" + f + ")" == "G" + ("(" + f + ")");
    DecodeUnknownRoot('G', Encode(b), box);
    CopyAsWrittenMatches(b, box);
    CopyEncode(b, box);
  }

  /** Copying keeps the code. */
  lemma {:induction false} CopyEncode(t: Node, box: Box)
    requires Valid(t)
    ensures Encode(Copy(t, box)) == Encode(t)
    decreases t
  {
    if t.code == Grey {
      var c := Copy(t, box);
      forall i | 0 <= i < 8
        ensures KidCodes(c)[i] == KidCodes(t)[i]
      {
        CopyEncode(t.children[i], Child(box, i));
      }
      assert KidCodes(c) == KidCodes(t);
    }
  }

  /** DIFFERENCE of a BLACK leaf and a GREY node: the original treats it as
      UNION and gives a BLACK leaf; the corrected combinator gives the
      complement of the node. */
  lemma DifferenceOneLeaf(a: Node, b: Node, box: Box)
    requires Valid(a) && Valid(b) && a.code == Black && b.code == Grey
    ensures Combine(Difference, a, b, false, false, box) == (Leaf(box, Black), "B")
    ensures CombineFixed(Difference, a, b, box) == Complement(b, box)
    ensures CombineFixed(Difference, a, b, box).code == Grey
  {
  }

  /** Two GREY operands: the original never sets the new node's code, so it
      stays WHITE while holding eight children; the corrected node is GREY. */
  lemma BothGreyStayWhite(op: Operation, a: Node, b: Node, box: Box)
    requires Valid(a) && Valid(b) && a.code == Grey && b.code == Grey
    ensures var r := Combine(op, a, b, false, false, box);
            r.0.code == White && |r.0.children| == 8 && !Valid(r.0)
    ensures CombineFixed(op, a, b, box).code == Grey
  {
  }

  /** A GREY node whose eight children are leaves of one code. */
  function Uniform(box: Box, c: NodeCode): (t: Node)
    requires c != Grey
    ensures Valid(t) && Boxed(t) && t.code == Grey
  {
    Node(box, Grey, seq(8, i requires 0 <= i < 8 => Leaf(Child(box, i), c)))
  }

  /** DIFFERENCE of eight BLACK leaves and eight WHITE leaves: every child
      pair appends nothing, so the code is "()", which the decoder cannot
      read. The corrected combinator gives the eight BLACK leaves. */
  lemma DifferenceEmptyCode(box: Box)
    ensures Combine(Difference, Uniform(box, Black), Uniform(box, White), false, false, box).1 == "()"
    ensures Decode("()", box) == Failure(ReadPastEnd)
    ensures CombineFixed(Difference, Uniform(box, Black), Uniform(box, White), box) == Uniform(box, Black)
  {
    var a := Uniform(box, Black);
    var b := Uniform(box, White);
    var n := Step(Difference, a, b, box).0;
    var rs := seq(8, i requires 0 <= i < 8 =>
                    Combine(Difference, Slot(a, i, n.box), Slot(b, i, n.box),
                            i >= |a.children|, i >= |b.children|, Child(n.box, i)));
    var outs := seq(8, i requires 0 <= i < 8 => rs[i].1);
    forall i | 0 <= i < 8
      ensures outs[i] == []
    {
      LeafPairs(Difference, a.children[i], b.children[i], Child(box, i));
    }
    FlattenLength(outs, 0);
    assert [] + "(" + [] + ")" == "()";
    var s := "()";
    assert s[0] == '(' && s[1] == ')';
    assert ReadUnit(s, 0, Child(box, 0)) == Success((DefaultNode(Child(box, 0)), 1));
    assert ReadUnit(s, 1, Child(box, 1)) == Failure(ReadPastEnd);
  }
}
