/**
 * Huffman trees and the prefix codes they define, with no reference to how a tree is built:
 * paths, encoding as a bit sequence, unique decodability.
 */
module HuffmanTree {
  import opened Wrappers
  import opened MinHeap

  type Byte = b: int | 0 <= b < 256

  /** So many bytes can always be encoded with a bit count that fits into an `int`. */
  const MAX_BYTES := INT_MAX / 8

  /** A node has either no child (a leaf, carrying a byte) or two. */
  datatype Tree =
    | Leaf(freq: CInt, byte: Byte)
    | Node(freq: CInt, left: Tree, right: Tree)

  ghost predicate Distinct<T>(s: seq<T>) {
    forall i, j :: 0 <= i < j < |s| ==> s[i] != s[j]
  }

  /** The bytes at the leaves, from left to right. */
  ghost function Leaves(t: Tree): (s: seq<Byte>)
    ensures |s| > 0
  {
    match t
    case Leaf(_, b) => [b]
    case Node(_, l, r) => Leaves(l) + Leaves(r)
  }

  function Max(a: nat, b: nat): nat {
    if a > b then a else b
  }

  /** The number of levels. */
  function TreeDepth(t: Tree): (d: nat)
    ensures d > 0
  {
    match t
    case Leaf(_, _) => 1
    case Node(_, l, r) => 1 + Max(TreeDepth(l), TreeDepth(r))
  }

  /** The subtree reached from `t` by going left on false and right on true. */
  ghost function At(t: Tree, p: seq<bool>): Option<Tree> {
    if p == [] then Some(t)
    else if t.Leaf? then None
    else At(if p[0] then t.right else t.left, p[1..])
  }

  /** The path from the root to the (leftmost) leaf carrying `b`. */
  ghost function PathTo(t: Tree, b: Byte): seq<bool>
    requires b in Leaves(t)
  {
    if t.Leaf? then []
    else if b in Leaves(t.left) then [false] + PathTo(t.left, b)
    else [true] + PathTo(t.right, b)
  }

  /** Every byte of `bs` has a leaf. */
  ghost predicate Over(t: Tree, bs: seq<Byte>) {
    forall b :: b in bs ==> b in Leaves(t)
  }

  /** The codes of `bs`, one after the other. */
  ghost function CodeBits(t: Tree, bs: seq<Byte>): seq<bool>
    requires Over(t, bs)
  {
    if bs == [] then [] else CodeBits(t, bs[..|bs| - 1]) + PathTo(t, bs[|bs| - 1])
  }

  lemma {:induction false} AtStep(t: Tree, p: seq<bool>, bit: bool)
    requires At(t, p).Some? && At(t, p).value.Node?
    ensures At(t, p + [bit]) == Some(if bit then At(t, p).value.right else At(t, p).value.left)
  {
    if p != [] {
      assert (p + [bit])[1..] == p[1..] + [bit];
      AtStep(if p[0] then t.right else t.left, p[1..], bit);
    }
  }

  /** A path never leaves the levels of the tree. */
  lemma {:induction false} AtDepth(t: Tree, p: seq<bool>)
    requires At(t, p).Some?
    ensures |p| + TreeDepth(At(t, p).value) <= TreeDepth(t)
  {
    if p != [] {
      AtDepth(if p[0] then t.right else t.left, p[1..]);
    }
  }

  /** No path goes through a leaf. */
  lemma {:induction false} LeafEndsPath(t: Tree, p: seq<bool>, q: seq<bool>)
    requires At(t, p).Some? && At(t, p).value.Leaf?
    requires At(t, p + q).Some?
    ensures q == []
  {
    if p != [] {
      assert (p + q)[1..] == p[1..] + q;
      LeafEndsPath(if p[0] then t.right else t.left, p[1..], q);
    } else {
      assert p + q == q;
    }
  }

  lemma {:induction false} PathLeadsToLeaf(t: Tree, b: Byte)
    requires b in Leaves(t)
    ensures At(t, PathTo(t, b)).Some?
    ensures At(t, PathTo(t, b)).value.Leaf? && At(t, PathTo(t, b)).value.byte == b
  {
    if t.Node? {
      if b in Leaves(t.left) {
        PathLeadsToLeaf(t.left, b);
      } else {
        PathLeadsToLeaf(t.right, b);
      }
    }
  }

  lemma DistinctParts<T>(a: seq<T>, b: seq<T>)
    requires Distinct(a + b)
    ensures Distinct(a) && Distinct(b)
    ensures forall x :: !(x in a && x in b)
  {
    forall i, j | 0 <= i < j < |b|
      ensures b[i] != b[j]
    {
      assert (a + b)[|a| + i] == b[i] && (a + b)[|a| + j] == b[j];
    }
    forall i, j | 0 <= i < j < |a|
      ensures a[i] != a[j]
    {
      assert (a + b)[i] == a[i] && (a + b)[j] == a[j];
    }
    forall i, j | 0 <= i < |a| && 0 <= j < |b|
      ensures a[i] != b[j]
    {
      assert (a + b)[i] == a[i] && (a + b)[|a| + j] == b[j];
    }
  }

  /** With distinct leaves, the path of a byte is the only path to a leaf carrying it. */
  lemma {:induction false} LeafPath(t: Tree, p: seq<bool>)
    requires Distinct(Leaves(t))
    requires At(t, p).Some? && At(t, p).value.Leaf?
    ensures At(t, p).value.byte in Leaves(t)
    ensures PathTo(t, At(t, p).value.byte) == p
  {
    if p != [] {
      DistinctParts(Leaves(t.left), Leaves(t.right));
      LeafPath(if p[0] then t.right else t.left, p[1..]);
    }
  }

  /** No code is a prefix of another code. */
  lemma PrefixFree(t: Tree, b: Byte, c: Byte)
    requires b in Leaves(t) && c in Leaves(t)
    requires PathTo(t, b) <= PathTo(t, c)
    ensures b == c
  {
    var p, q := PathTo(t, b), PathTo(t, c);
    PathLeadsToLeaf(t, b);
    PathLeadsToLeaf(t, c);
    assert p + q[|p|..] == q;
    LeafEndsPath(t, p, q[|p|..]);
  }

  lemma CommonPrefix(x: seq<bool>, u: seq<bool>, y: seq<bool>, v: seq<bool>)
    requires x + u == y + v
    ensures x <= y || y <= x
    ensures x == y ==> u == v
  {
    if |x| <= |y| {
      assert x == (x + u)[..|x|] == y[..|x|];
    } else {
      assert y == (y + v)[..|y|] == x[..|y|];
    }
    if x == y {
      assert u == (x + u)[|x|..] == v;
    }
  }

  lemma SameFirstCode(t: Tree, b: Byte, u: seq<bool>, c: Byte, v: seq<bool>)
    requires b in Leaves(t) && c in Leaves(t)
    requires PathTo(t, b) + u == PathTo(t, c) + v
    ensures b == c && u == v
  {
    CommonPrefix(PathTo(t, b), u, PathTo(t, c), v);
    if PathTo(t, b) <= PathTo(t, c) {
      PrefixFree(t, b, c);
    } else {
      PrefixFree(t, c, b);
    }
  }

  /** A path to an inner node does not start with a complete code. */
  lemma NoCodeInsidePath(t: Tree, b: Byte, u: seq<bool>, q: seq<bool>)
    requires b in Leaves(t)
    requires At(t, q).Some? && At(t, q).value.Node?
    ensures PathTo(t, b) + u != q
  {
    if PathTo(t, b) + u == q {
      PathLeadsToLeaf(t, b);
      LeafEndsPath(t, PathTo(t, b), u);
    }
  }

  lemma {:induction false} CodeBitsHead(t: Tree, bs: seq<Byte>)
    requires |bs| > 0 && Over(t, bs)
    ensures CodeBits(t, bs) == PathTo(t, bs[0]) + CodeBits(t, bs[1..])
  {
    if |bs| > 1 {
      CodeBitsHead(t, bs[..|bs| - 1]);
      assert bs[..|bs| - 1][1..] == bs[1..][..|bs| - 2];
    }
  }

  /** `CodeBitsHead`, with further bits behind. */
  lemma FirstCode(t: Tree, bs: seq<Byte>, p: seq<bool>)
    requires |bs| > 0 && Over(t, bs)
    ensures CodeBits(t, bs) + p == PathTo(t, bs[0]) + (CodeBits(t, bs[1..]) + p)
  {
    CodeBitsHead(t, bs);
  }

  /**
   * Unique decodability: a bit sequence is in at most one way a sequence of complete codes
   * followed by an unfinished code (a path to an inner node).
   */
  lemma {:induction false} UniqueParse(t: Tree, bs: seq<Byte>, p: seq<bool>, cs: seq<Byte>, q: seq<bool>)
    requires t.Node? && Over(t, bs) && Over(t, cs)
    requires At(t, p).Some? && At(t, p).value.Node?
    requires At(t, q).Some? && At(t, q).value.Node?
    requires CodeBits(t, bs) + p == CodeBits(t, cs) + q
    ensures bs == cs && p == q
    decreases |bs| + |cs|
  {
    if |bs| > 0 {
      FirstCode(t, bs, p);
    } else {
      assert CodeBits(t, bs) + p == p;
    }
    if |cs| > 0 {
      FirstCode(t, cs, q);
    } else {
      assert CodeBits(t, cs) + q == q;
    }
    if |bs| > 0 && |cs| > 0 {
      SameFirstCode(t, bs[0], CodeBits(t, bs[1..]) + p, cs[0], CodeBits(t, cs[1..]) + q);
      UniqueParse(t, bs[1..], p, cs[1..], q);
      assert bs == [bs[0]] + bs[1..] && cs == [cs[0]] + cs[1..];
    } else if |bs| > 0 {
      NoCodeInsidePath(t, bs[0], CodeBits(t, bs[1..]) + p, q);
    } else if |cs| > 0 {
      NoCodeInsidePath(t, cs[0], CodeBits(t, cs[1..]) + q, p);
    }
  }
}
