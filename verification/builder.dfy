/** The recursive builders (the five `buildTree` overloads). Each classifies
    a node against a solid, subdivides GREY nodes down to a depth bound,
    appends the node's unit to the linear code, and collapses a node whose
    eight children all end BLACK. The overloads differ only in the solid's
    box test and in what the collapse does to the code, so the model has one
    builder parameterised by a box predicate and a collapse policy. */
module Builder {
  import opened Seqs
  import opened Geometry
  import opened Octree
  import opened Primitives
  import opened Codec

  /** What a builder does to the code when a node collapses. */
  datatype Collapse =
    | PopNine    // mesh and sphere: one pop per child and one more
    | LeaveOpen  // block, cylinder and cone: the pops are disabled
    | Replace    // corrected: the nine characters become a single 'B'

  /** The cells the builder should mark solid: a path of octants from the
      root box is marked when the root box and every box along the path
      touch the solid. */
  predicate Marked(touches: Box -> bool, box: Box, path: seq<Octant>)
    decreases |path|
  {
    touches(box) && (|path| == 0 || Marked(touches, Child(box, path[0]), path[1..]))
  }

  /** The tree a builder should produce: the depth-bounded subdivision with
      every all-BLACK node collapsed into a BLACK leaf. */
  function Target(touches: Box -> bool, box: Box, depth: nat): (t: Node)
    ensures t.box == box && Valid(t)
    ensures t.code == White <==> !touches(box)
    decreases depth, 0
  {
    if !touches(box) then Leaf(box, White)
    else if depth == 0 then Leaf(box, Black)
    else
      var kids := TargetFrom(touches, box, 0, depth - 1);
      if AllBlack(kids) then Leaf(box, Black) else Node(box, Grey, kids)
  }

  /** The targets of children k..7 of `parent`. */
  function TargetFrom(touches: Box -> bool, parent: Box, k: nat, depth: nat): (ts: seq<Node>)
    requires k <= 8
    ensures |ts| == 8 - k
    ensures forall j {:trigger ts[j]} :: 0 <= j < |ts| ==> ts[j] == Target(touches, Child(parent, k + j), depth)
    decreases depth, 1, 8 - k
  {
    if k == 8 then [] else [Target(touches, Child(parent, k), depth)] + TargetFrom(touches, parent, k + 1, depth)
  }

  /** One level of Target, with the child depth named. */
  lemma TargetUnfold(touches: Box -> bool, box: Box, d: nat)
    requires touches(box)
    ensures var kids := TargetFrom(touches, box, 0, d);
            Target(touches, box, d + 1) == if AllBlack(kids) then Leaf(box, Black) else Node(box, Grey, kids)
  {
  }

  /** The target has `subdivide`'s boxes and no node left to collapse. */
  lemma {:induction false} TargetShape(touches: Box -> bool, box: Box, depth: nat)
    ensures var t := Target(touches, box, depth);
            Boxed(t) && Collapsed(t)
    decreases depth
  {
    if touches(box) && depth > 0 {
      var d: nat :| depth == d + 1;
      var kids := TargetFrom(touches, box, 0, d);
      TargetUnfold(touches, box, d);
      forall k | 0 <= k < 8
        ensures Boxed(kids[k]) && Collapsed(kids[k])
      {
        TargetShape(touches, Child(box, k), d);
      }
      if !AllBlack(kids) {
        GreyShape(box, kids);
      }
    }
  }

  /** A GREY node over eight well-shaped children, not all BLACK, is
      well-shaped. */
  lemma GreyShape(box: Box, kids: seq<Node>)
    requires |kids| == 8 && !AllBlack(kids)
    requires forall k :: 0 <= k < 8 ==> kids[k].box == Child(box, k) && Boxed(kids[k]) && Collapsed(kids[k])
    ensures Boxed(Node(box, Grey, kids)) && Collapsed(Node(box, Grey, kids))
  {
  }

  /** The target marks exactly the full-depth cells whose whole path
      touches the solid: collapsing loses no cell and invents none. */
  lemma {:induction false} TargetSolid(touches: Box -> bool, box: Box, depth: nat, path: seq<Octant>)
    requires |path| == depth
    ensures Solid(Target(touches, box, depth), path) == Marked(touches, box, path)
    decreases depth
  {
    if touches(box) && depth > 0 {
      var d: nat :| depth == d + 1;
      var kids := TargetFrom(touches, box, 0, d);
      TargetUnfold(touches, box, d);
      var kid := kids[path[0]];
      TargetSolid(touches, Child(box, path[0]), d, path[1..]);
      assert Marked(touches, box, path) == Marked(touches, Child(box, path[0]), path[1..]);
      if AllBlack(kids) {
        assert kid.code == Black && Solid(kid, path[1..]);
      } else {
        assert Solid(Node(box, Grey, kids), path) == Solid(kid, path[1..]);
      }
    }
  }

  /** `buildTree`: build the node over `box` with `depth` levels left and
      return it with the code after the call. A pop on a code with too few
      characters is a Failure. */
  function Build(policy: Collapse, touches: Box -> bool, box: Box, depth: nat, code: seq<char>)
    : (r: Result<(Node, seq<char>)>)
    ensures policy == LeaveOpen ==> r.Success?
    ensures r.Success? ==> r.value.0.box == box
    decreases depth, 0
  {
    if ClassifyBy(touches, box) == White then Success((Leaf(box, White), code + "W"))
    else if depth == 0 then Success((Leaf(box, Black), code + "B"))
    else
      match BuildChildren(policy, touches, box, 0, depth - 1, code + "(")
      case Failure(e) => Failure(e)
      case Success((kids, c)) =>
        if AllBlack(kids) then
          match policy
          case PopNine => if |c| < 9 then Failure(PopPastStart) else Success((Leaf(box, Black), c[..|c| - 9]))
          case LeaveOpen => Success((Leaf(box, Black), c))
          case Replace => if |c| < 9 then Failure(PopPastStart) else Success((Leaf(box, Black), c[..|c| - 9] + "B"))
        else Success((Node(box, Grey, kids), c + ")"))
  }

  /** Children k..7 of the node over `parent`, built in index order. */
  function BuildChildren(policy: Collapse, touches: Box -> bool, parent: Box, k: nat, depth: nat, code: seq<char>)
    : (r: Result<(seq<Node>, seq<char>)>)
    requires k <= 8
    ensures policy == LeaveOpen ==> r.Success?
    ensures r.Success? ==> |r.value.0| == 8 - k
    decreases depth, 1, 8 - k
  {
    if k == 8 then Success(([], code))
    else
      match Build(policy, touches, Child(parent, k), depth, code)
      case Failure(e) => Failure(e)
      case Success((t, c)) =>
        match BuildChildren(policy, touches, parent, k + 1, depth, c)
        case Failure(e) => Failure(e)
        case Success((ts, c2)) => Success(([t] + ts, c2))
  }

  /** One level of Build, with the child depth named: the children's result
      decides between collapsing and closing the node. */
  lemma BuildUnfold(policy: Collapse, touches: Box -> bool, box: Box, d: nat, code: seq<char>)
    requires touches(box)
    ensures Build(policy, touches, box, d + 1, code) ==
              match BuildChildren(policy, touches, box, 0, d, code + "(")
              case Failure(e) => Failure(e)
              case Success((kids, c)) =>
                if !AllBlack(kids) then Success((Node(box, Grey, kids), c + ")"))
                else if policy == LeaveOpen then Success((Leaf(box, Black), c))
                else if |c| < 9 then Failure(PopPastStart)
                else if policy == PopNine then Success((Leaf(box, Black), c[..|c| - 9]))
                else Success((Leaf(box, Black), c[..|c| - 9] + "B"))
  {
  }

  /** Whatever the collapse policy, a build that succeeds produces the
      target tree: the policies differ only in the code. */
  lemma {:induction false} BuildTree(policy: Collapse, touches: Box -> bool, box: Box, depth: nat, code: seq<char>)
    ensures var r := Build(policy, touches, box, depth, code);
            r.Success? ==> r.value.0 == Target(touches, box, depth)
    decreases depth, 0
  {
    if touches(box) && depth > 0 {
      var d: nat :| depth == d + 1;
      TargetUnfold(touches, box, d);
      BuildUnfold(policy, touches, box, d, code);
      ChildrenTree(policy, touches, box, 0, d, code + "(");
    }
  }

  lemma {:induction false} ChildrenTree(policy: Collapse, touches: Box -> bool, parent: Box, k: nat, depth: nat,
                                        code: seq<char>)
    requires k <= 8
    ensures var r := BuildChildren(policy, touches, parent, k, depth, code);
            r.Success? ==> r.value.0 == TargetFrom(touches, parent, k, depth)
    decreases depth, 1, 8 - k
  {
    if k < 8 {
      BuildTree(policy, touches, Child(parent, k), depth, code);
      var r1 := Build(policy, touches, Child(parent, k), depth, code);
      if r1.Success? {
        ChildrenTree(policy, touches, parent, k + 1, depth, r1.value.1);
      }
    }
  }

  /** Every BLACK leaf of t lies at the depth bound: no node collapsed. */
  predicate FullDepth(t: Node, depth: nat)
  {
    && (t.code == Black ==> depth == 0)
    && forall k :: 0 <= k < |t.children| ==> depth > 0 && FullDepth(t.children[k], depth - 1)
  }

  /** The policy appends the target's code exactly when it is the corrected
      one or when no node of the target collapsed. */
  predicate Faithful(policy: Collapse, t: Node, depth: nat)
  {
    policy == Replace || FullDepth(t, depth)
  }

  /** The corrected builder always appends exactly the code of the target
      tree; the original builders do so whenever no node collapses. */
  lemma {:induction false} BuildEncodes(policy: Collapse, touches: Box -> bool, box: Box, depth: nat, code: seq<char>)
    requires Faithful(policy, Target(touches, box, depth), depth)
    ensures var t := Target(touches, box, depth);
            Build(policy, touches, box, depth, code) == Success((t, code + Encode(t)))
    decreases depth, 0
  {
    if touches(box) && depth > 0 {
      var d: nat :| depth == d + 1;
      var kids := TargetFrom(touches, box, 0, d);
      var e := EncodeAll(kids);
      KidsFaithful(policy, touches, box, d);
      assert BuildChildren(policy, touches, box, 0, d, code + "(") == Success((kids, code + "(" + e)) by {
        ChildrenEncode(policy, touches, box, 0, d, code + "(");
      }
      BuildUnfold(policy, touches, box, d, code);
      TargetUnfold(touches, box, d);
      Wrap(code, e);
      if AllBlack(kids) {
        BlackEncodeAll(kids);
      } else {
        EncodeGrey(Node(box, Grey, kids));
      }
    }
  }

  /** Below a node the policy encodes faithfully, it encodes every child
      faithfully, and a collapse there means the policy is the corrected
      one. */
  lemma KidsFaithful(policy: Collapse, touches: Box -> bool, box: Box, d: nat)
    requires touches(box)
    requires Faithful(policy, Target(touches, box, d + 1), d + 1)
    ensures var kids := TargetFrom(touches, box, 0, d);
            && (AllBlack(kids) ==> policy == Replace)
            && forall j :: 0 <= j < 8 ==> Faithful(policy, kids[j], d)
  {
    TargetUnfold(touches, box, d);
  }

  /** The code around a node's children: the '(' and ')' wrap the
      children's codes, and dropping the nine characters of '(' and eight
      one-character children leaves the code before the node. */
  lemma Wrap(code: seq<char>, e: seq<char>)
    ensures code + "(" + e + ")" == code + ("(" + e + ")")
    ensures |e| == 8 ==> |code + "(" + e| >= 9 && (code + "(" + e)[..|code + "(" + e| - 9] == code
  {
    ConcatAssoc(code, "(", e);
    ConcatAssoc(code, "(" + e, ")");
    if |e| == 8 {
      assert (code + ("(" + e))[..|code|] == code;
    }
  }

  /** Children k..7 append their codes in index order. */
  lemma {:induction false} ChildrenEncode(policy: Collapse, touches: Box -> bool, parent: Box, k: nat, depth: nat,
                                          code: seq<char>)
    requires k <= 8
    requires forall j :: 0 <= j < 8 - k ==> Faithful(policy, TargetFrom(touches, parent, k, depth)[j], depth)
    ensures var ts := TargetFrom(touches, parent, k, depth);
            BuildChildren(policy, touches, parent, k, depth, code) == Success((ts, code + EncodeAll(ts)))
    decreases depth, 1, 8 - k
  {
    if k < 8 {
      var t := Target(touches, Child(parent, k), depth);
      var rest := TargetFrom(touches, parent, k + 1, depth);
      var c1 := code + Encode(t);
      assert Build(policy, touches, Child(parent, k), depth, code) == Success((t, c1)) by {
        TargetFromStep(policy, touches, parent, k, depth);
        BuildEncodes(policy, touches, Child(parent, k), depth, code);
      }
      assert BuildChildren(policy, touches, parent, k + 1, depth, c1) == Success((rest, c1 + EncodeAll(rest))) by {
        TargetFromStep(policy, touches, parent, k, depth);
        ChildrenEncode(policy, touches, parent, k + 1, depth, c1);
      }
      assert TargetFrom(touches, parent, k, depth) == [t] + rest &&
             EncodeAll(TargetFrom(touches, parent, k, depth)) == Encode(t) + EncodeAll(rest) by {
        TargetFromStep(policy, touches, parent, k, depth);
      }
      ChildrenUnfold(policy, touches, parent, k, depth, code);
      ConcatAssoc(code, Encode(t), EncodeAll(rest));
    } else {
      assert code + EncodeAll(TargetFrom(touches, parent, k, depth)) == code;
    }
  }

  /** The targets from child k on are child k's target followed by those
      from child k+1 on, and their codes concatenate the same way. */
  lemma TargetFromStep(policy: Collapse, touches: Box -> bool, parent: Box, k: nat, depth: nat)
    requires k < 8
    requires forall j :: 0 <= j < 8 - k ==> Faithful(policy, TargetFrom(touches, parent, k, depth)[j], depth)
    ensures var t := Target(touches, Child(parent, k), depth);
            var rest := TargetFrom(touches, parent, k + 1, depth);
            && TargetFrom(touches, parent, k, depth) == [t] + rest
            && EncodeAll(TargetFrom(touches, parent, k, depth)) == Encode(t) + EncodeAll(rest)
            && Faithful(policy, t, depth)
            && forall j :: 0 <= j < 8 - (k + 1) ==> Faithful(policy, rest[j], depth)
  {
    var ts := TargetFrom(touches, parent, k, depth);
    var rest := TargetFrom(touches, parent, k + 1, depth);
    assert ts[1..] == rest;
    assert Faithful(policy, ts[0], depth);
    forall j | 0 <= j < 8 - (k + 1)
      ensures Faithful(policy, rest[j], depth)
    {
      assert rest[j] == ts[j + 1];
    }
  }

  /** One step of BuildChildren: child k is built, then children k+1..7. */
  lemma ChildrenUnfold(policy: Collapse, touches: Box -> bool, parent: Box, k: nat, depth: nat, code: seq<char>)
    requires k < 8
    ensures BuildChildren(policy, touches, parent, k, depth, code) ==
              match Build(policy, touches, Child(parent, k), depth, code)
              case Failure(e) => Failure(e)
              case Success((t, c)) =>
                match BuildChildren(policy, touches, parent, k + 1, depth, c)
                case Failure(e) => Failure(e)
                case Success((ts, c2)) => Success(([t] + ts, c2))
  {
  }

  /** The corrected builder's code decodes, with the same outer box, back to
      the tree it built. */
  lemma BuildRoundTrip(touches: Box -> bool, box: Box, depth: nat)
    ensures var t := Target(touches, box, depth);
            && Build(Replace, touches, box, depth, "") == Success((t, Encode(t)))
            && Decode(Encode(t), box) == Success(t)
  {
    var t := Target(touches, box, depth);
    BuildEncodes(Replace, touches, box, depth, "");
    assert "" + Encode(t) == Encode(t);
    TargetShape(touches, box, depth);
    DecodeEncode(t, []);
    assert Encode(t) + [] == Encode(t);
  }

  /** The solid whose box test accepts every box. */
  predicate Everywhere(b: Box) { true }

  /** Everything solid, one level: the eight children are BLACK leaves and
      their codes are eight 'B's. */
  lemma OneLevelSolid(policy: Collapse, box: Box, code: seq<char>)
    ensures var kids := TargetFrom(Everywhere, box, 0, 0);
            && AllBlack(kids)
            && BuildChildren(policy, Everywhere, box, 0, 0, code) == Success((kids, code + "BBBBBBBB"))
  {
    var kids := TargetFrom(Everywhere, box, 0, 0);
    OneLevelKids(box);
    assert forall j :: 0 <= j < 8 ==> Faithful(policy, kids[j], 0);
    ChildrenEncode(policy, Everywhere, box, 0, 0, code);
  }

  /** The children one level above the bound of the all-solid build are
      BLACK leaves, and their code is eight 'B's. */
  lemma OneLevelKids(box: Box)
    ensures var kids := TargetFrom(Everywhere, box, 0, 0);
            && (forall j :: 0 <= j < 8 ==> kids[j] == Leaf(Child(box, j), Black))
            && AllBlack(kids)
            && EncodeAll(kids) == "BBBBBBBB"
  {
    var kids := TargetFrom(Everywhere, box, 0, 0);
    forall j | 0 <= j < 8
      ensures kids[j] == Leaf(Child(box, j), Black)
    {
    }
    BlackEncodeAll(kids);
  }

  /** Mesh and sphere builders, one level, everything solid: the node
      collapses to BLACK but the nine pops remove its own '(' and its eight
      'B's, so no character is left for it. Intended: a single 'B'. */
  lemma PopNineDropsNode(box: Box, code: seq<char>)
    ensures Build(PopNine, Everywhere, box, 1, code) == Success((Leaf(box, Black), code))
    ensures Build(Replace, Everywhere, box, 1, code) == Success((Leaf(box, Black), code + "B"))
  {
    OneLevelSolid(PopNine, box, code + "(");
    OneLevelSolid(Replace, box, code + "(");
    BuildUnfold(PopNine, Everywhere, box, 0, code);
    BuildUnfold(Replace, Everywhere, box, 0, code);
    Wrap(code, "BBBBBBBB");
  }

  /** Mesh and sphere builders, two levels, everything solid, empty code:
      each child collapses leaving nothing, so the root's nine pops run past
      the start of the code. */
  lemma PopNineUnderflow(box: Box)
    ensures Build(PopNine, Everywhere, box, 2, "") == Failure(PopPastStart)
  {
    UnderflowChildren(box);
    assert "" + "(" == "(";
    BuildUnfold(PopNine, Everywhere, box, 1, "");
  }

  /** Below the root of the two-level all-solid build, the children are
      BLACK and leave the code as it was before them. */
  lemma UnderflowChildren(box: Box)
    ensures var r := BuildChildren(PopNine, Everywhere, box, 0, 1, "(");
            r.Success? && r.value.1 == "(" && AllBlack(r.value.0)
  {
    ChildrenStayEmpty(box, 0, "(");
    ChildrenTree(PopNine, Everywhere, box, 0, 1, "(");
    BlackChildren(box);
  }

  /** The children of a two-level all-solid build are BLACK leaves. */
  lemma BlackChildren(box: Box)
    ensures AllBlack(TargetFrom(Everywhere, box, 0, 1))
  {
    var kids := TargetFrom(Everywhere, box, 0, 1);
    forall j | 0 <= j < 8
      ensures kids[j].code == Black
    {
      var c := Child(box, j);
      TargetUnfold(Everywhere, c, 0);
      OneLevelSolid(Replace, c, "");
    }
  }

  lemma {:induction false} ChildrenStayEmpty(box: Box, k: nat, code: seq<char>)
    requires k <= 8
    ensures BuildChildren(PopNine, Everywhere, box, k, 1, code).Success?
    ensures BuildChildren(PopNine, Everywhere, box, k, 1, code).value.1 == code
    decreases 8 - k
  {
    if k < 8 {
      PopNineDropsNode(Child(box, k), code);
      ChildrenStayEmpty(box, k + 1, code);
    }
  }

  /** Block, cylinder and cone builders, one level, everything solid: the
      node collapses to BLACK but its '(' and eight 'B's stay, with no ')'.
      Decoding that code gives back a GREY node, not the BLACK leaf built. */
  lemma LeaveOpenUnclosed(box: Box)
    ensures Build(LeaveOpen, Everywhere, box, 1, "") == Success((Leaf(box, Black), "(BBBBBBBB"))
    ensures Decode("(BBBBBBBB", box).Success? && Decode("(BBBBBBBB", box).value.code == Grey
  {
    OpenChildren(box);
    assert "" + "(" == "(";
    BuildUnfold(LeaveOpen, Everywhere, box, 0, "");
    OpenCodeDecodes(box);
  }

  lemma OpenChildren(box: Box)
    ensures var r := BuildChildren(LeaveOpen, Everywhere, box, 0, 0, "(");
            r.Success? && r.value.1 == "(BBBBBBBB" && AllBlack(r.value.0)
  {
    OneLevelSolid(LeaveOpen, box, "(");
    assert "(" + "BBBBBBBB" == "(BBBBBBBB";
  }

  /** "(BBBBBBBB" decodes to a GREY node: the eight children are read from
      positions 1 to 8, and the advance after them lands on the end of the
      code; the decoder never checks that a ')' stood there. */
  lemma OpenCodeDecodes(box: Box)
    ensures Decode("(BBBBBBBB", box).Success? && Decode("(BBBBBBBB", box).value.code == Grey
  {
    var s := "(BBBBBBBB";
    ReadBlackRun(s, 0, box, 0, []);
    assert s[0] == '(';
  }

  /** A run of 'B's after position p is read as BLACK children, one
      character each. */
  lemma {:induction false} ReadBlackRun(s: seq<char>, p: nat, parent: Box, k: nat, acc: seq<Node>)
    requires k <= 8 && |acc| == k && p + 8 - k < |s|
    requires forall j :: 0 <= j < k ==> acc[j].box == Child(parent, j) && Valid(acc[j]) && Boxed(acc[j])
    requires forall j :: p < j <= p + 8 - k ==> s[j] == 'B'
    ensures ReadChildren(s, p, parent, k, acc).Success?
    ensures ReadChildren(s, p, parent, k, acc).value.1 == p + 8 - k
    decreases 8 - k
  {
    if k < 8 {
      var c := Leaf(Child(parent, k), Black);
      var r := ReadUnit(s, p, Child(parent, k));
      assert r.Success? && r.value.0 == c && r.value.1 == p + 1 by {
        assert s[p + 1] == 'B';
      }
      ReadBlackRun(s, p + 1, parent, k + 1, acc + [c]);
    }
  }

  /** The five overloads. The mesh's separating-axis test is not modelled:
      its box test is a parameter. */
  function BuildMesh(touchesMesh: Box -> bool, box: Box, depth: nat, code: seq<char>)
    : (r: Result<(Node, seq<char>)>)
    ensures r.Success? ==> r.value.0 == Target(touchesMesh, box, depth)
  {
    BuildTree(PopNine, touchesMesh, box, depth, code);
    Build(PopNine, touchesMesh, box, depth, code)
  }

  function BuildSphere(s: Sphere, box: Box, depth: nat, code: seq<char>): (r: Result<(Node, seq<char>)>)
    ensures r.Success? ==> r.value.0 == Target(b => SphereTouches(s, b), box, depth)
  {
    BuildTree(PopNine, b => SphereTouches(s, b), box, depth, code);
    Build(PopNine, b => SphereTouches(s, b), box, depth, code)
  }

  function BuildBlock(k: Block, box: Box, depth: nat, code: seq<char>): (r: Result<(Node, seq<char>)>)
    ensures r.Success? && r.value.0 == Target(b => BlockTouches(k, b), box, depth)
  {
    BuildTree(LeaveOpen, b => BlockTouches(k, b), box, depth, code);
    Build(LeaveOpen, b => BlockTouches(k, b), box, depth, code)
  }

  function BuildCylinder(c: Cylinder, box: Box, depth: nat, code: seq<char>): (r: Result<(Node, seq<char>)>)
    ensures r.Success? && r.value.0 == Target(b => CylinderTouches(c, b), box, depth)
  {
    BuildTree(LeaveOpen, b => CylinderTouches(c, b), box, depth, code);
    Build(LeaveOpen, b => CylinderTouches(c, b), box, depth, code)
  }

  function BuildCone(c: Cone, box: Box, depth: nat, code: seq<char>): (r: Result<(Node, seq<char>)>)
    requires c.height != 0.0
    ensures r.Success? && r.value.0 == Target(b => ConeTouches(c, b), box, depth)
  {
    BuildTree(LeaveOpen, b => ConeTouches(c, b), box, depth, code);
    Build(LeaveOpen, b => ConeTouches(c, b), box, depth, code)
  }
}
