/** The octree data model: node classification codes, boolean operations,
    the owning node tree, its linear code and the error results of the
    engine. */
module Octree {
  import opened Seqs
  import opened Geometry

  /** WHITE: no collision; BLACK: solid leaf; GREY: collision, subdivided. */
  datatype NodeCode = White | Black | Grey

  /** The integer value of each enumerator (WHITE = 0, BLACK = 1, GREY = 2). */
  function Ordinal(c: NodeCode): (n: nat)
    ensures n < 3
    ensures n == 0 <==> c == White
  {
    match c
    case White => 0
    case Black => 1
    case Grey => 2
  }

  /** The three boolean operations; DIFFERENCE is declared without a rule. */
  datatype Operation = Intersection | Union | Difference

  /** An octree node owning its children. In a tree built or decoded by the
      engine a GREY node holds exactly eight children and a leaf none; the
      combinator can also leave a WHITE node that holds eight (see Combine). */
  datatype Node = Node(box: Box, code: NodeCode, children: seq<Node>)

  function Leaf(box: Box, code: NodeCode): (t: Node)
    ensures |t.children| == 0
  {
    Node(box, code, [])
  }

  /** A freshly allocated node: WHITE, with every child slot empty. */
  function DefaultNode(box: Box): (t: Node)
    ensures t.code == White && |t.children| == 0 && t.box == box
  {
    Leaf(box, White)
  }

  /** Grammar shape: GREY nodes have exactly eight children, others none. */
  predicate Valid(t: Node)
  {
    && (t.code == Grey ==> |t.children| == 8)
    && (t.code != Grey ==> |t.children| == 0)
    && forall k :: 0 <= k < |t.children| ==> Valid(t.children[k])
  }

  /** Geometric shape: child k of every node has the box `subdivide` gives it. */
  predicate Boxed(t: Node)
  {
    && |t.children| <= 8
    && forall k :: 0 <= k < |t.children| ==>
         t.children[k].box == Child(t.box, k) && Boxed(t.children[k])
  }

  predicate AllBlack(ts: seq<Node>)
  {
    forall k :: 0 <= k < |ts| ==> ts[k].code == Black
  }

  /** No GREY node has eight BLACK children: nothing is left to collapse. */
  predicate Collapsed(t: Node)
  {
    && (t.code == Grey ==> !AllBlack(t.children))
    && forall k :: 0 <= k < |t.children| ==> Collapsed(t.children[k])
  }

  /** `codeToChar`: the character the combinator emits for a node code. */
  function CodeChar(c: NodeCode): (ch: char)
    ensures ch in "BWG"
    ensures c != Grey ==> ch in "BW"
    ensures ch == 'G' <==> c == Grey
    ensures forall t: Node :: t.code == c && c != Grey ==> Encode(t) == [ch]
  {
    match c
    case Black => 'B'
    case White => 'W'
    case Grey => 'G'
  }

  /** The linear code of a tree: B for a BLACK leaf, W for a WHITE node, and
      '(' followed by the children's codes and ')' for a GREY node. */
  function Encode(t: Node): (s: seq<char>)
    ensures |s| >= 1
    ensures s[0] == (match t.code case Black => 'B' case White => 'W' case Grey => '(')
    decreases t, 1
  {
    match t.code
    case Black => "B"
    case White => "W"
    case Grey => "(" + Flatten(KidCodes(t)) + ")"
  }

  /** The codes of the children of t, in index order. */
  function KidCodes(t: Node): (ss: seq<seq<char>>)
    ensures |ss| == |t.children|
    decreases t, 0
  {
    seq(|t.children|, k requires 0 <= k < |t.children| => Encode(t.children[k]))
  }

  /** The codes of a sequence of nodes, concatenated in order. */
  function EncodeAll(ts: seq<Node>): (s: seq<char>)
    ensures |ts| == 0 ==> s == []
  {
    if |ts| == 0 then [] else Encode(ts[0]) + EncodeAll(ts[1..])
  }

  /** A GREY node's code is its children's codes between parentheses. */
  lemma EncodeGrey(t: Node)
    requires t.code == Grey
    ensures Encode(t) == "(" + EncodeAll(t.children) + ")"
  {
    KidsEncodeAll(t, 0);
    assert t.children[0..] == t.children && KidCodes(t)[0..] == KidCodes(t);
  }

  lemma {:induction false} KidsEncodeAll(t: Node, k: nat)
    requires k <= |t.children|
    ensures Flatten(KidCodes(t)[k..]) == EncodeAll(t.children[k..])
    decreases |t.children| - k
  {
    if k < |t.children| {
      FlattenFrom(KidCodes(t), k);
      KidsEncodeAll(t, k + 1);
      assert t.children[k..][1..] == t.children[k + 1..];
    }
  }

  /** The code of n BLACK nodes is n 'B's. */
  lemma {:induction false} BlackEncodeAll(ts: seq<Node>)
    requires AllBlack(ts)
    ensures EncodeAll(ts) == seq(|ts|, _ => 'B')
  {
    if |ts| > 0 {
      assert AllBlack(ts[1..]) by {
        forall k | 0 <= k < |ts| - 1
          ensures ts[1..][k].code == Black
        {
          assert ts[1..][k] == ts[k + 1];
        }
      }
      BlackEncodeAll(ts[1..]);
      assert ts[0].code == Black;
    }
  }

  /** The alphabet of the linear code. */
  predicate InAlphabet(s: seq<char>)
  {
    forall k :: 0 <= k < |s| ==> s[k] in "BW()"
  }

  /** The errors the model reports where the original reads or writes out of
      bounds (undefined behaviour there). */
  datatype Error =
    | EmptyCode     // dereferencing the first character of an empty code
    | ReadPastEnd   // dereferencing or advancing the code iterator past its end
    | PopPastStart  // pop_back on a code with too few characters

  datatype Result<T> = Success(value: T) | Failure(error: Error)

  /** Every code Encode produces is over B, W, ( and ), with as many
      opening as closing parentheses. */
  lemma {:induction false} EncodeAlphabet(t: Node)
    ensures InAlphabet(Encode(t))
    ensures Count(Encode(t), '(') == Count(Encode(t), ')')
    decreases t, 1
  {
    if t.code == Grey {
      KidsAlphabet(t, 0);
      var f := Flatten(KidCodes(t));
      CountAppend(['('] + f, [')'], '(');
      CountAppend(['('], f, '(');
      CountAppend(['('] + f, [')'], ')');
      CountAppend(['('], f, ')');
      assert Encode(t) == ['('] + f + [')'];
    }
  }

  lemma {:induction false} KidsAlphabet(t: Node, k: nat)
    requires k <= |t.children|
    ensures InAlphabet(Flatten(KidCodes(t)[k..]))
    ensures Count(Flatten(KidCodes(t)[k..]), '(') == Count(Flatten(KidCodes(t)[k..]), ')')
    decreases t, 0, |t.children| - k
  {
    if k < |t.children| {
      FlattenFrom(KidCodes(t), k);
      EncodeAlphabet(t.children[k]);
      KidsAlphabet(t, k + 1);
      var e := Encode(t.children[k]);
      var f := Flatten(KidCodes(t)[k + 1..]);
      CountAppend(e, f, '(');
      CountAppend(e, f, ')');
    }
  }

  /** Balanced parentheses: as many '(' as ')', and no prefix closes more
      than it opens. */
  predicate Balanced(s: seq<char>)
  {
    && Count(s, '(') == Count(s, ')')
    && forall i :: 0 <= i <= |s| ==> Count(s[..i], ')') <= Count(s[..i], '(')
  }

  /** Balanced codes concatenate to a balanced code. */
  lemma BalancedAppend(a: seq<char>, b: seq<char>)
    requires Balanced(a) && Balanced(b)
    ensures Balanced(a + b)
  {
    CountAppend(a, b, '(');
    CountAppend(a, b, ')');
    forall i | 0 <= i <= |a + b|
      ensures Count((a + b)[..i], ')') <= Count((a + b)[..i], '(')
    {
      if i <= |a| {
        assert (a + b)[..i] == a[..i];
      } else {
        var j := i - |a|;
        assert (a + b)[..i] == a + b[..j];
        CountAppend(a, b[..j], '(');
        CountAppend(a, b[..j], ')');
      }
    }
  }

  /** A balanced code between parentheses is balanced. */
  lemma BalancedWrap(f: seq<char>)
    requires Balanced(f)
    ensures Balanced("(" + f + ")")
  {
    var s := "(" + f + ")";
    CountAppend("(" + f, ")", '(');
    CountAppend("(" + f, ")", ')');
    CountAppend("(", f, '(');
    CountAppend("(", f, ')');
    forall i | 0 <= i <= |s|
      ensures Count(s[..i], ')') <= Count(s[..i], '(')
    {
      if 0 < i <= |f| + 1 {
        assert s[..i] == "(" + f[..i - 1];
        CountAppend("(", f[..i - 1], '(');
        CountAppend("(", f[..i - 1], ')');
      } else if i == |s| {
        assert s[..i] == s;
      }
    }
  }

  /** Every code Encode produces has balanced parentheses. */
  lemma {:induction false} EncodeBalanced(t: Node)
    ensures Balanced(Encode(t))
    decreases t, 1
  {
    if t.code == Grey {
      KidsBalanced(t, 0);
      assert KidCodes(t)[0..] == KidCodes(t);
      BalancedWrap(Flatten(KidCodes(t)));
    } else {
      var e := Encode(t);
      assert forall i :: 0 <= i <= |e| ==> e[..i] == [] || e[..i] == e;
    }
  }

  /** A code of at most one character that is not a parenthesis is
      balanced. */
  lemma ShortBalanced(s: seq<char>)
    requires |s| <= 1 && s != "(" && s != ")"
    ensures Balanced(s)
  {
    assert forall i :: 0 <= i <= |s| ==> s[..i] == [] || s[..i] == s;
    if |s| == 1 {
      assert s[1..] == [];
    }
  }

  /** Balanced codes flatten to a balanced code. */
  lemma {:induction false} FlattenBalanced(ss: seq<seq<char>>)
    requires forall k :: 0 <= k < |ss| ==> Balanced(ss[k])
    ensures Balanced(Flatten(ss))
  {
    if |ss| == 0 {
      ShortBalanced([]);
    } else {
      FlattenBalanced(ss[1..]);
      BalancedAppend(ss[0], Flatten(ss[1..]));
    }
  }

  lemma {:induction false} KidsBalanced(t: Node, k: nat)
    requires k <= |t.children|
    ensures Balanced(Flatten(KidCodes(t)[k..]))
    decreases t, 0, |t.children| - k
  {
    if k < |t.children| {
      FlattenFrom(KidCodes(t), k);
      EncodeBalanced(t.children[k]);
      KidsBalanced(t, k + 1);
      BalancedAppend(Encode(t.children[k]), Flatten(KidCodes(t)[k + 1..]));
    } else {
      var e: seq<char> := [];
      assert Flatten(KidCodes(t)[k..]) == e;
      assert forall i :: 0 <= i <= |e| ==> e[..i] == e;
    }
  }

  /** Number of occurrences of c in s. */
  function Count(s: seq<char>, c: char): nat
  {
    if |s| == 0 then 0 else (if s[0] == c then 1 else 0) + Count(s[1..], c)
  }

  lemma {:induction false} CountAppend(a: seq<char>, b: seq<char>, c: char)
    ensures Count(a + b, c) == Count(a, c) + Count(b, c)
  {
    if |a| == 0 {
      assert a + b == b;
    } else {
      assert (a + b)[1..] == a[1..] + b;
      CountAppend(a[1..], b, c);
    }
  }

  /** Path semantics: follow octant indices through GREY nodes; the point is
      solid when the walk ends on a BLACK node. */
  function Solid(t: Node, path: seq<Octant>): bool
    requires Valid(t)
  {
    if t.code == Grey && |path| > 0 then Solid(t.children[path[0]], path[1..])
    else t.code == Black
  }

  /** The path reaches a leaf of t (it is long enough for t's depth there). */
  predicate Reaches(t: Node, path: seq<Octant>)
    requires Valid(t)
  {
    t.code != Grey || (|path| > 0 && Reaches(t.children[path[0]], path[1..]))
  }

  /** The leaf of t a path that reaches one ends on. */
  function LeafAt(t: Node, path: seq<Octant>): (n: Node)
    requires Valid(t) && Reaches(t, path)
    ensures n.code != Grey
    ensures n.code == Black <==> Solid(t, path)
  {
    if t.code == Grey then LeafAt(t.children[path[0]], path[1..]) else t
  }
}
