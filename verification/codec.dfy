/** The decoder of the linear code (`buildTreeFromCode` and
    `readCodeAndPopulateTree`). The code iterator is modelled as the index of
    the last character consumed; the root reads index 0 and every nested call
    first advances the iterator and then reads. Reading or advancing past the
    end of the string, which the original does not guard, is a Failure. */
module Codec {
  import opened Seqs
  import opened Geometry
  import opened Octree

  /** Outer bounds used when the caller gives none: (-5,-5,-5)-(5,5,5). */
  function DefaultBounds(): (b: Box)
    ensures Proper(b) && BoxVolume(b) == 1000.0
  {
    Box(Vec3(-5.0, -5.0, -5.0), Vec3(5.0, 5.0, 5.0))
  }

  /** `readCodeAndPopulateTree`: fill the fresh node with box `box` from the
      unit that follows position p; the result carries the new position. */
  function ReadUnit(s: seq<char>, p: nat, box: Box): (r: Result<(Node, nat)>)
    requires p <= |s|
    ensures r.Success? ==> p <= r.value.1 <= |s|
    ensures r.Success? ==> r.value.0.box == box && Valid(r.value.0) && Boxed(r.value.0)
    decreases |s| - p, 0
  {
    if p == |s| then Success((DefaultNode(box), p))
    else
      var q := p + 1;
      if q == |s| then Failure(ReadPastEnd)
      else if s[q] == 'B' then Success((Leaf(box, Black), q))
      else if s[q] == 'W' then Success((Leaf(box, White), q))
      else if s[q] == '(' then
        match ReadChildren(s, q, box, 0, [])
        case Failure(e) => Failure(e)
        case Success((kids, p2)) =>
          // the character after the eighth child is skipped unchecked
          if p2 == |s| then Failure(ReadPastEnd)
          else Success((Node(box, Grey, kids), p2 + 1))
      else Success((DefaultNode(box), q))
  }

  /** Children k..7 of a GREY node with box `parent`, read in index order
      after the `acc` already read. */
  function ReadChildren(s: seq<char>, p: nat, parent: Box, k: nat, acc: seq<Node>)
    : (r: Result<(seq<Node>, nat)>)
    requires p <= |s| && k <= 8 && |acc| == k
    ensures r.Success? ==> p <= r.value.1 <= |s|
    ensures r.Success? ==> |r.value.0| == 8 && r.value.0[..k] == acc
    ensures r.Success? ==> forall j :: k <= j < 8 ==>
              r.value.0[j].box == Child(parent, j) && Valid(r.value.0[j]) && Boxed(r.value.0[j])
    decreases |s| - p, 1, 8 - k
  {
    if k == 8 then Success((acc, p))
    else
      match ReadUnit(s, p, Child(parent, k))
      case Failure(e) => Failure(e)
      case Success((t, p2)) =>
        var r := ReadChildren(s, p2, parent, k + 1, acc + [t]);
        assert r.Success? ==> r.value.0[..k] == r.value.0[..k + 1][..k] == acc && r.value.0[k] == t;
        r
  }

  /** `buildTreeFromCode`: decode a whole code into a tree with outer box
      `box`. Input after the root's unit is ignored. */
  function Decode(s: seq<char>, box: Box): (r: Result<Node>)
    ensures |s| == 0 ==> r == Failure(EmptyCode)
    ensures r.Success? ==> r.value.box == box && Valid(r.value) && Boxed(r.value)
  {
    if |s| == 0 then Failure(EmptyCode)
    else if s[0] == 'B' then Success(Leaf(box, Black))
    else if s[0] == 'W' then Success(Leaf(box, White))
    else if s[0] == '(' then
      match ReadChildren(s, 0, box, 0, [])
      case Failure(e) => Failure(e)
      case Success((kids, p2)) =>
        if p2 == |s| then Failure(ReadPastEnd)
        else Success(Node(box, Grey, kids))
    else Success(DefaultNode(box))
  }

  /** Decoding with the default bounds. */
  function DecodeDefault(s: seq<char>): (r: Result<Node>)
    ensures r.Success? ==> r.value.box == DefaultBounds()
  {
    Decode(s, DefaultBounds())
  }

  // ---------------------------------------------------------------------
  // Round trip

  /** x occurs in s from index off on. */
  predicate At(s: seq<char>, off: nat, x: seq<char>)
    decreases |x|
  {
    if |x| == 0 then off <= |s|
    else off < |s| && s[off] == x[0] && At(s, off + 1, x[1..])
  }

  /** An occurrence ends within s. */
  lemma {:induction false} AtBound(s: seq<char>, off: nat, x: seq<char>)
    requires At(s, off, x)
    ensures off + |x| <= |s|
    decreases |x|
  {
    if |x| > 0 {
      AtBound(s, off + 1, x[1..]);
    }
  }

  /** An occurrence of e + f is an occurrence of e followed by one of f. */
  lemma {:induction false} SplitAt(s: seq<char>, off: nat, e: seq<char>, f: seq<char>)
    requires At(s, off, e + f)
    ensures At(s, off, e) && At(s, off + |e|, f)
    decreases |e|
  {
    if |e| == 0 {
      assert e + f == f;
      AtBound(s, off, f);
    } else {
      assert (e + f)[0] == e[0];
      assert (e + f)[1..] == e[1..] + f;
      SplitAt(s, off + 1, e[1..], f);
    }
  }

  /** The middle part of a concatenation occurs where it was placed. */
  lemma {:induction false} AtAppend(a: seq<char>, x: seq<char>, b: seq<char>)
    ensures At(a + x + b, |a|, x)
    decreases |x|
  {
    if |x| > 0 {
      assert (a + x + b)[|a|] == x[0];
      assert a + x + b == (a + [x[0]]) + x[1..] + b;
      AtAppend(a + [x[0]], x[1..], b);
    }
  }

  /** A unit placed right after position p is read back as the tree it
      encodes, and the iterator ends on its last character. */
  lemma {:induction false} ReadUnitEncoded(s: seq<char>, p: nat, t: Node)
    requires Valid(t) && Boxed(t) && At(s, p + 1, Encode(t))
    ensures ReadUnit(s, p, t.box) == Success((t, p + |Encode(t)|))
    decreases t, 1
  {
    var e := Encode(t);
    AtBound(s, p + 1, e);
    if t.code == Grey {
      var f := Flatten(KidCodes(t));
      assert e == "(" + f + ")";
      assert At(s, p + 2, f) by {
        SplitAt(s, p + 1, "(" + f, ")");
        SplitAt(s, p + 1, "(", f);
      }
      assert f == Rest(t, 0) by {
        RestFlatten(t, 0);
        assert KidCodes(t)[0..] == KidCodes(t);
      }
      ReadChildrenEncoded(s, p + 1, t, 0);
      assert t.children[..0] == [];
      assert t.children == t.children[..8];
    }
  }

  /** The codes of children k.. of t, concatenated in order. */
  function Rest(t: Node, k: nat): (r: seq<char>)
    requires k <= |t.children|
    ensures k == |t.children| ==> r == []
    decreases |t.children| - k
  {
    if k == |t.children| then [] else Encode(t.children[k]) + Rest(t, k + 1)
  }

  /** Rest is the flattened tail of the children's codes. */
  lemma {:induction false} RestFlatten(t: Node, k: nat)
    requires k <= |t.children|
    ensures Rest(t, k) == Flatten(KidCodes(t)[k..])
    decreases |t.children| - k
  {
    if k < |t.children| {
      FlattenFrom(KidCodes(t), k);
      RestFlatten(t, k + 1);
    }
  }

  /** Children k..7 of t, whose codes follow position p, are read back as
      they are, and the reader ends on the last character of those codes. */
  predicate ReadsKids(s: seq<char>, p: nat, t: Node, k: nat)
  {
    && p <= |s| && k <= 8 && k <= |t.children|
    && var r := ReadChildren(s, p, t.box, k, t.children[..k]);
       r.Success? && r.value.0 == t.children && r.value.1 == p + |Rest(t, k)|
  }

  /** The codes of children k..7 placed right after position p are read
      back as those children. */
  lemma {:induction false} ReadChildrenEncoded(s: seq<char>, p: nat, t: Node, k: nat)
    requires Valid(t) && Boxed(t) && t.code == Grey && k <= 8
    requires At(s, p + 1, Rest(t, k))
    ensures ReadsKids(s, p, t, k)
    decreases t, 0, 8 - k, 1
  {
    if k == 8 {
      ReadAllKids(s, p, t);
    } else {
      var q := p + |Encode(t.children[k])|;
      RestSplit(s, p, q, t, k);
      ReadChildrenEncoded(s, q, t, k + 1);
      ReadChildStep(s, p, q, t, k);
    }
  }

  /** Once all eight children are read the reader stops where it is. */
  lemma ReadAllKids(s: seq<char>, p: nat, t: Node)
    requires |t.children| == 8 && p <= |s|
    ensures ReadsKids(s, p, t, 8)
  {
    assert t.children[..8] == t.children;
  }

  /** The codes of children k.. are the code of child k followed by those
      of children k+1... */
  lemma RestSplit(s: seq<char>, p: nat, q: nat, t: Node, k: nat)
    requires k < |t.children| && q == p + |Encode(t.children[k])|
    requires At(s, p + 1, Rest(t, k))
    ensures At(s, p + 1, Encode(t.children[k]))
    ensures At(s, q + 1, Rest(t, k + 1))
    ensures q + |Rest(t, k + 1)| == p + |Rest(t, k)|
  {
    SplitAt(s, p + 1, Encode(t.children[k]), Rest(t, k + 1));
  }

  /** Reading child k, whose code follows position p, and then the
      remaining children as they are, reads all the children. */
  lemma {:induction false} ReadChildStep(s: seq<char>, p: nat, q: nat, t: Node, k: nat)
    requires Valid(t) && Boxed(t) && t.code == Grey && k < 8
    requires q == p + |Encode(t.children[k])|
    requires At(s, p + 1, Encode(t.children[k]))
    requires q + |Rest(t, k + 1)| == p + |Rest(t, k)|
    ensures ReadsKids(s, q, t, k + 1) ==> ReadsKids(s, p, t, k)
    decreases t, 0, 8 - k, 0
  {
    var c := t.children[k];
    assert ReadUnit(s, p, Child(t.box, k)) == Success((c, q)) by {
      ReadUnitEncoded(s, p, c);
    }
    TakeNext(t.children, k);
  }

  /** Round trip: decoding the code of a well-formed tree, followed by any
      further input, with the tree's own outer box gives the tree back. */
  lemma {:induction false} DecodeEncode(t: Node, rest: seq<char>)
    requires Valid(t) && Boxed(t)
    ensures Decode(Encode(t) + rest, t.box) == Success(t)
  {
    var s := Encode(t) + rest;
    if t.code == Grey {
      var f := Flatten(KidCodes(t));
      assert Encode(t) == "(" + f + ")";
      assert At(s, 1, f) by {
        AtAppend("(", f, ")" + rest);
        assert s == "(" + f + (")" + rest);
      }
      assert f == Rest(t, 0) by {
        RestFlatten(t, 0);
        assert KidCodes(t)[0..] == KidCodes(t);
      }
      ReadChildrenEncoded(s, 0, t, 0);
      assert t.children[..0] == [];
      assert t.children == t.children[..8];
    }
  }

  // ---------------------------------------------------------------------
  // Decoder behaviour on particular inputs

  /** A character other than B, W and '(' in root position (a combinator
      'G', a stray ')') leaves the root a default WHITE leaf and the rest of
      the input is never looked at. */
  lemma DecodeUnknownRoot(c: char, rest: seq<char>, box: Box)
    requires c !in "BW("
    ensures Decode([c] + rest, box) == Success(DefaultNode(box))
  {
  }

  /** Decoding "B" over the unit cube gives one BLACK leaf of volume 1;
      decoding "W" gives one WHITE leaf. */
  lemma DecodeSingleLeaves(unit: Box)
    requires unit == Box(Vec3(0.0, 0.0, 0.0), Vec3(1.0, 1.0, 1.0))
    ensures Decode("B", unit) == Success(Leaf(unit, Black)) && BoxVolume(unit) == 1.0
    ensures Decode("W", unit) == Success(Leaf(unit, White))
  {
    assert "B"[0] == 'B';
    assert "W"[0] == 'W';
  }

  // ---------------------------------------------------------------------
  // Re-decoding under a moved or scaled outer box

  /** The same tree with every box scaled by s and then shifted by t. */
  function MapBoxes(n: Node, s: real, t: Vec3): (m: Node)
    ensures m.code == n.code && |m.children| == |n.children| && m.box == Affine(n.box, s, t)
  {
    Node(Affine(n.box, s, t), n.code,
         seq(|n.children|, k requires 0 <= k < |n.children| => MapBoxes(n.children[k], s, t)))
  }

  /** Decoding under a transformed outer box gives the transformed tree:
      translating (s == 1) or scaling (t == 0) the bounds before decoding
      moves or scales every node. */
  lemma {:induction false} DecodeAffine(code: seq<char>, box: Box, s: real, t: Vec3)
    ensures Decode(code, Affine(box, s, t)) == MapResult(Decode(code, box), s, t)
  {
    if |code| > 0 && code[0] == '(' {
      ReadChildrenAffine(code, 0, box, 0, [], s, t);
      assert MapAll([], s, t) == [];
      match ReadChildren(code, 0, box, 0, [])
      case Failure(e) =>
      case Success((kids, p2)) =>
        assert MapBoxes(Node(box, Grey, kids), s, t) == Node(Affine(box, s, t), Grey, MapAll(kids, s, t));
    }
  }

  function MapResult(r: Result<Node>, s: real, t: Vec3): Result<Node>
  {
    match r
    case Success(n) => Success(MapBoxes(n, s, t))
    case Failure(e) => Failure(e)
  }

  function MapAll(ns: seq<Node>, s: real, t: Vec3): (ms: seq<Node>)
    ensures |ms| == |ns|
  {
    seq(|ns|, k requires 0 <= k < |ns| => MapBoxes(ns[k], s, t))
  }

  lemma {:induction false} ReadUnitAffine(code: seq<char>, p: nat, box: Box, s: real, t: Vec3)
    requires p <= |code|
    ensures ReadUnit(code, p, Affine(box, s, t)) ==
            match ReadUnit(code, p, box)
            case Success((n, p2)) => Success((MapBoxes(n, s, t), p2))
            case Failure(e) => Failure(e)
    decreases |code| - p, 0
  {
    if p < |code| && p + 1 < |code| && code[p + 1] == '(' {
      ReadChildrenAffine(code, p + 1, box, 0, [], s, t);
      assert MapAll([], s, t) == [];
      match ReadChildren(code, p + 1, box, 0, [])
      case Failure(e) =>
      case Success((kids, p2)) =>
        assert MapBoxes(Node(box, Grey, kids), s, t) == Node(Affine(box, s, t), Grey, MapAll(kids, s, t));
    }
  }

  lemma {:induction false} ReadChildrenAffine(code: seq<char>, p: nat, box: Box, k: nat, acc: seq<Node>,
                                              s: real, t: Vec3)
    requires p <= |code| && k <= 8 && |acc| == k
    requires forall j :: 0 <= j < k ==> acc[j].box == Child(box, j) && Valid(acc[j]) && Boxed(acc[j])
    ensures forall j :: 0 <= j < k ==> MapAll(acc, s, t)[j].box == Child(Affine(box, s, t), j)
                                        && Valid(MapAll(acc, s, t)[j]) && Boxed(MapAll(acc, s, t)[j])
    ensures ReadChildren(code, p, Affine(box, s, t), k, MapAll(acc, s, t)) ==
            match ReadChildren(code, p, box, k, acc)
            case Success((kids, p2)) => Success((MapAll(kids, s, t), p2))
            case Failure(e) => Failure(e)
    decreases |code| - p, 1, 8 - k
  {
    MapAllShape(box, k, acc, s, t);
    if k < 8 {
      ChildAffine(box, k, s, t);
      ReadUnitAffine(code, p, Child(box, k), s, t);
      match ReadUnit(code, p, Child(box, k))
      case Failure(e) =>
      case Success((n, p2)) =>
        assert MapAll(acc, s, t) + [MapBoxes(n, s, t)] == MapAll(acc + [n], s, t);
        ReadChildrenAffine(code, p2, box, k + 1, acc + [n], s, t);
    }
  }

  /** The transformed children read so far are where the transformed
      parent's subdivision puts them. */
  lemma MapAllShape(box: Box, k: nat, acc: seq<Node>, s: real, t: Vec3)
    requires k <= 8 && |acc| == k
    requires forall j :: 0 <= j < k ==> acc[j].box == Child(box, j) && Valid(acc[j]) && Boxed(acc[j])
    ensures forall j :: 0 <= j < k ==> MapAll(acc, s, t)[j].box == Child(Affine(box, s, t), j)
                                        && Valid(MapAll(acc, s, t)[j]) && Boxed(MapAll(acc, s, t)[j])
  {
    forall j | 0 <= j < k
      ensures MapAll(acc, s, t)[j].box == Child(Affine(box, s, t), j)
      ensures Valid(MapAll(acc, s, t)[j]) && Boxed(MapAll(acc, s, t)[j])
    {
      ChildAffine(box, j, s, t);
      MapPreservesShape(acc[j], s, t);
    }
  }

  /** Transforming the boxes keeps a tree well formed. */
  lemma {:induction false} MapPreservesShape(n: Node, s: real, t: Vec3)
    requires Valid(n) && Boxed(n)
    ensures Valid(MapBoxes(n, s, t)) && Boxed(MapBoxes(n, s, t))
  {
    forall k | 0 <= k < |n.children|
      ensures MapBoxes(n, s, t).children[k].box == Child(MapBoxes(n, s, t).box, k)
      ensures Valid(MapBoxes(n, s, t).children[k]) && Boxed(MapBoxes(n, s, t).children[k])
    {
      ChildAffine(n.box, k, s, t);
      MapPreservesShape(n.children[k], s, t);
    }
  }
}
