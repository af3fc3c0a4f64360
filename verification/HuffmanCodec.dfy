/** Encoding and decoding with a Huffman tree (gnl_huffman_tree.c), and what they guarantee together. */
module HuffmanCodec {
  import opened Wrappers
  import opened MinHeap
  import opened BitArray
  import opened HuffmanTree
  import opened HuffmanForest
  import opened HuffmanBuild

  /** The encoded bytes, packed into 32-bit words, with the tree that decodes them. */
  datatype Artifact = Artifact(root: Tree, size: nat, bitCount: nat, code: seq<bv32>)

  ghost predicate ValidArtifact(a: Artifact) {
    && Distinct(Leaves(a.root))
    && a.size == |a.code| == (a.bitCount + 31) / 32
    && (a.root.Leaf? ==> a.bitCount == 0)
  }

  /** The artifact holds `bytes`, encoded with a shortest prefix code. */
  ghost predicate Encodes(a: Artifact, bytes: seq<Byte>) {
    && ValidArtifact(a)
    && Optimal(a.root, bytes)
    && Bits(a.code, a.bitCount) == CodeBits(a.root, bytes)
  }

  /** The bytes can be counted in an `int`, and so can the bits of their shortest codes. */
  ghost predicate Countable(bytes: seq<Byte>) {
    |bytes| <= INT_MAX && forall t: Tree | Optimal(t, bytes) :: |CodeBits(t, bytes)| <= INT_MAX
  }

  /** The bits of the artifact are the codes of `r`, or no sequence of codes at all. */
  ghost predicate DecodesTo(a: Artifact, r: Option<seq<Byte>>)
    requires ValidArtifact(a)
  {
    if a.root.Leaf? then r == Some([])
    else match r
      case Some(bs) => Over(a.root, bs) && CodeBits(a.root, bs) == Bits(a.code, a.bitCount)
      case None => forall bs | Over(a.root, bs) :: CodeBits(a.root, bs) != Bits(a.code, a.bitCount)
  }

  lemma {:induction false} DistinctBag(s: seq<Byte>, b: Byte)
    requires Distinct(s)
    ensures multiset(s)[b] == if b in s then 1 else 0
  {
    if s != [] {
      assert s == [s[0]] + s[1..];
      DistinctParts([s[0]], s[1..]);
      DistinctBag(s[1..], b);
    }
  }

  lemma {:induction false} BagDistinct(s: seq<Byte>)
    requires forall b: Byte :: multiset(s)[b] <= 1
    ensures Distinct(s)
  {
    forall i, j | 0 <= i < j < |s|
      ensures s[i] != s[j]
    {
      assert s == s[..i] + [s[i]] + s[i + 1..j] + [s[j]] + s[j + 1..];
      assert multiset(s)[s[i]] <= 1;
    }
  }

  /** Trees for the same bytes have the same leaves. */
  lemma SameLeaves(t: Tree, u: Tree, bytes: seq<Byte>)
    requires IsTreeFor(t, bytes) && IsTreeFor(u, bytes)
    ensures multiset(Leaves(t)) == multiset(Leaves(u))
  {
    forall b: Byte
      ensures multiset(Leaves(t))[b] == multiset(Leaves(u))[b]
    {
      DistinctBag(Leaves(t), b);
      DistinctBag(Leaves(u), b);
    }
  }

  /** The leaves of the greedy tree are the bytes that occur. */
  lemma GreedyTreeFits(t: Tree, ts: seq<Tree>, bytes: seq<Byte>)
    requires LeafForest(ts, multiset(bytes), 256)
    requires Greedy([t], multiset(bytes)) && AllLeaves([t]) == AllLeaves(ts)
    ensures IsTreeFor(t, bytes)
  {
    var m := multiset(bytes);
    SingleForest(t, m);
    BagsOfSeqs(t, m);
    assert multiset(Leaves(t)) == AllLeaves(ts);
    BagDistinct(Leaves(t));
    assert forall b: Byte :: b in Leaves(t) <==> b in multiset(Leaves(t));
  }

  /** The greedy tree is a shortest code. */
  lemma GreedyTreeIsOptimal(t: Tree, ts: seq<Tree>, bytes: seq<Byte>)
    requires LeafForest(ts, multiset(bytes), 256)
    requires Greedy([t], multiset(bytes)) && AllLeaves([t]) == AllLeaves(ts)
    ensures Optimal(t, bytes)
  {
    var m := multiset(bytes);
    GreedyTreeFits(t, ts, bytes);
    hide Leaves, AllLeaves, LeafForest, Greedy, Cost, CodeBits;
    forall u: Tree | IsTreeFor(u, bytes)
      ensures |CodeBits(t, bytes)| <= |CodeBits(u, bytes)|
    {
      SameLeaves(t, u, bytes);
      GreedyIsOptimal(t, u, m);
      CodeLength(t, bytes);
      CodeLength(u, bytes);
    }
  }

  /** Builds the tree and the dictionary of `bytes`; no bytes give no tree. */
  method Init(bytes: seq<Byte>) returns (root: Option<Tree>, dictionary: array<Option<string>>)
    requires |bytes| <= INT_MAX
    ensures fresh(dictionary) && dictionary.Length == 256
    ensures root.None? <==> bytes == []
    ensures root.Some? ==> Optimal(root.value, bytes)
    ensures root.Some? ==> forall b :: b in bytes ==> dictionary[b] == Some(Chars(PathTo(root.value, b)))
  {
    var freq := CalculateFrequencies(bytes);
    ghost var m := multiset(bytes);
    var heap, ts := CreateMinHeap(freq, m);
    LeavesAreGreedy(ts, m);
    CountAll(bytes);
    root := CreateTree(heap, ts, m);
    if root.None? {
      dictionary := new Option<string>[256](_ => None);
      assert forall b: Byte :: AllLeaves(ts)[b] == 0;
    } else {
      GreedyTreeIsOptimal(root.value, ts, bytes);
      dictionary := CreateDictionary(root.value);
      assert Leaves(root.value)[0] in bytes;
    }
    if bytes != [] {
      assert AllLeaves(ts)[bytes[0]] == 1;
    }
  }

  lemma {:induction false} CharAt(p: seq<bool>, i: nat)
    requires i < |p|
    ensures Chars(p)[i] == if p[i] then '1' else '0'
  {
    if i > 0 {
      CharAt(p[1..], i - 1);
    }
  }

  /** Appends one bit; a new word is added whenever the last one is full. */
  method EncodeBit(code: seq<bv32>, bitCount: nat, element: char) returns (code': seq<bv32>)
    requires |code| == (bitCount + 31) / 32
    ensures |code'| == (bitCount + 1 + 31) / 32
    ensures Bits(code', bitCount + 1) == Bits(code, bitCount) + [element != '0']
  {
    code' := code;
    if bitCount % 32 == 0 {
      GrowBits(code', 0, bitCount);
      code' := code' + [0];
    }
    PutBit(code', bitCount, element != '0');
    if element == '0' {
      code' := ClearBit(code', bitCount);
    } else {
      code' := SetBit(code', bitCount);
    }
  }

  /** Appends the code of one byte. */
  method EncodeByte(code: seq<bv32>, bitCount: nat, path: string, ghost p: seq<bool>)
    returns (code': seq<bv32>, bitCount': nat)
    requires |code| == (bitCount + 31) / 32 && path == Chars(p)
    ensures bitCount' == bitCount + |p| && |code'| == (bitCount' + 31) / 32
    ensures Bits(code', bitCount') == Bits(code, bitCount) + p
  {
    code', bitCount' := code, bitCount;
    for j := 0 to |path|
      invariant bitCount' == bitCount + j && |code'| == (bitCount' + 31) / 32
      invariant Bits(code', bitCount') == Bits(code, bitCount) + p[..j]
    {
      CharAt(p, j);
      code' := EncodeBit(code', bitCount', path[j]);
      bitCount' := bitCount' + 1;
      assert p[..j + 1] == p[..j] + [p[j]];
    }
    assert p[..|path|] == p;
  }

  lemma NextCode(t: Tree, bytes: seq<Byte>, i: nat)
    requires Over(t, bytes) && i < |bytes|
    ensures CodeBits(t, bytes[..i + 1]) == CodeBits(t, bytes[..i]) + PathTo(t, bytes[i])
  {
    assert bytes[..i + 1][..i] == bytes[..i];
  }

  method Encode(bytes: seq<Byte>) returns (r: Option<Artifact>)
    requires Countable(bytes)
    ensures r.None? <==> bytes == []
    ensures r.Some? ==> Encodes(r.value, bytes) && r.value.bitCount <= INT_MAX
  {
    var root, dictionary := Init(bytes);
    if root.None? {
      return None;
    }
    ghost var t := root.value;
    var code, bitCount := [], 0;
    ghost var codes := dictionary[..];
    for i := 0 to |bytes|
      invariant dictionary[..] == codes
      invariant |code| == (bitCount + 31) / 32
      invariant Bits(code, bitCount) == CodeBits(t, bytes[..i])
      invariant t.Leaf? ==> bitCount == 0
    {
      NextCode(t, bytes, i);
      code, bitCount := EncodeByte(code, bitCount, dictionary[bytes[i]].value, PathTo(t, bytes[i]));
    }
    assert bytes[..|bytes|] == bytes;
    r := Some(Artifact(root.value, |code|, bitCount, code));
    assert |Bits(code, bitCount)| == |CodeBits(t, bytes)|;
  }

  /** The bits are the codes of `bytes`, followed by the path `p` from the root to `node`. */
  ghost predicate Parsed(t: Tree, bytes: seq<Byte>, p: seq<bool>, node: Tree, bits: seq<bool>) {
    && Over(t, bytes)
    && At(t, p) == Some(node)
    && bits == CodeBits(t, bytes) + p
  }

  lemma ParsedNothing(t: Tree)
    ensures Parsed(t, [], [], t, [])
  {
  }

  lemma ParseBit(t: Tree, bytes: seq<Byte>, p: seq<bool>, node: Tree, bits: seq<bool>, bit: bool)
    requires Parsed(t, bytes, p, node, bits) && node.Node? && Distinct(Leaves(t))
    ensures var next := if bit then node.right else node.left;
            if next.Leaf? then Parsed(t, bytes + [next.byte], [], t, bits + [bit])
            else Parsed(t, bytes, p + [bit], next, bits + [bit])
  {
    AtStep(t, p, bit);
    var next := if bit then node.right else node.left;
    if next.Leaf? {
      LeafPath(t, p + [bit]);
      OneMoreByte(t, bytes, next.byte);
    }
  }

  lemma OneMoreByte(t: Tree, bytes: seq<Byte>, b: Byte)
    requires Over(t, bytes) && b in Leaves(t)
    ensures Over(t, bytes + [b])
    ensures CodeBits(t, bytes + [b]) == CodeBits(t, bytes) + PathTo(t, b)
  {
    assert (bytes + [b])[..|bytes|] == bytes;
  }

  /** Bits that end inside a code are not a sequence of complete codes. */
  lemma UnfinishedCode(t: Tree, bytes: seq<Byte>, p: seq<bool>, node: Tree, bits: seq<bool>, bs: seq<Byte>)
    requires t.Node? && node.Node? && Parsed(t, bytes, p, node, bits) && node != t
    requires Over(t, bs)
    ensures CodeBits(t, bs) != bits
  {
    if CodeBits(t, bs) == bits {
      assert CodeBits(t, bs) + [] == bits;
      UniqueParse(t, bs, [], bytes, p);
    }
  }

  /** Back at the root, the bits are complete codes. */
  lemma ParsedAll(t: Tree, bytes: seq<Byte>, p: seq<bool>, bits: seq<bool>)
    requires Parsed(t, bytes, p, t, bits)
    ensures Over(t, bytes) && CodeBits(t, bytes) == bits
  {
    AtDepth(t, p);
  }

  /** Walks the tree bit by bit; it fails when the bits end inside a code. */
  method Decode(a: Artifact) returns (r: Option<seq<Byte>>)
    requires ValidArtifact(a)
    ensures DecodesTo(a, r)
  {
    var bytes: seq<Byte> := [];
    var node := a.root;
    ghost var p: seq<bool> := [];
    hide CodeBits, Leaves, At, TestBit, Parsed;
    ParsedNothing(a.root);
    for i := 0 to a.bitCount
      invariant a.root.Leaf? ==> bytes == [] && node == a.root
      invariant a.root.Node? ==> node.Node?
      invariant Parsed(a.root, bytes, p, node, Bits(a.code, i))
    {
      ParseBit(a.root, bytes, p, node, Bits(a.code, i), TestBit(a.code, i));
      if !TestBit(a.code, i) {
        node := node.left;
      } else {
        node := node.right;
      }
      if node.Leaf? {
        bytes := bytes + [node.byte];
        node := a.root;
        p := [];
      } else {
        p := p + [TestBit(a.code, i)];
      }
    }
    if a.root != node {
      forall bs | Over(a.root, bs)
        ensures CodeBits(a.root, bs) != Bits(a.code, a.bitCount)
      {
        UnfinishedCode(a.root, bytes, p, node, Bits(a.code, a.bitCount), bs);
      }
      return None;
    }
    ParsedAll(a.root, bytes, p, Bits(a.code, a.bitCount));
    return Some(bytes);
  }

  /** At least two different bytes occur. */
  ghost predicate TwoDistinct(bytes: seq<Byte>) {
    exists i, j :: 0 <= i < j < |bytes| && bytes[i] != bytes[j]
  }

  /** A tree for `bytes` has an inner node just when there are two different bytes. */
  lemma LeafIffOneByte(t: Tree, bytes: seq<Byte>)
    requires IsTreeFor(t, bytes)
    ensures t.Node? <==> TwoDistinct(bytes)
  {
    if t.Node? {
      var x, y := Leaves(t.left)[0], Leaves(t.right)[0];
      DistinctParts(Leaves(t.left), Leaves(t.right));
      assert x in Leaves(t) && y in Leaves(t);
      var i :| 0 <= i < |bytes| && bytes[i] == x;
      var j :| 0 <= j < |bytes| && bytes[j] == y;
      assert if i < j then bytes[i] != bytes[j] else j < i && bytes[j] != bytes[i];
    } else {
      forall i | 0 <= i < |bytes|
        ensures bytes[i] == t.byte
      {
        assert bytes[i] in Leaves(t);
      }
    }
  }

  /** What decoding an encoding of `bytes` gives back: a single repeated byte is lost. */
  ghost function Recovered(bytes: seq<Byte>): seq<Byte> {
    if TwoDistinct(bytes) then bytes else []
  }

  /** Decoding never fails on an encoding, and gives the bytes back exactly if two of them differ. */
  lemma RoundTrip(a: Artifact, bytes: seq<Byte>, r: Option<seq<Byte>>)
    requires bytes != [] && Encodes(a, bytes) && DecodesTo(a, r)
    ensures r == Some(Recovered(bytes))
    ensures r == Some(bytes) <==> TwoDistinct(bytes)
  {
    LeafIffOneByte(a.root, bytes);
    if a.root.Node? && r.Some? {
      assert CodeBits(a.root, bytes) + [] == CodeBits(a.root, r.value) + [];
      UniqueParse(a.root, bytes, [], r.value, []);
    }
  }

  /** Two encodings of the same bytes are equally long, however ties between trees were broken. */
  lemma SameSize(a: Artifact, b: Artifact, bytes: seq<Byte>)
    requires Encodes(a, bytes) && Encodes(b, bytes)
    ensures a.bitCount == b.bitCount && a.size == b.size
  {
    assert |Bits(a.code, a.bitCount)| == |CodeBits(a.root, bytes)|;
    assert |Bits(b.code, b.bitCount)| == |CodeBits(b.root, bytes)|;
  }

  /** Two different bytes take at least one bit, so at least one word. */
  lemma NotLost(a: Artifact, bytes: seq<Byte>)
    requires Encodes(a, bytes) && TwoDistinct(bytes)
    ensures a.size > 0
  {
    LeafIffOneByte(a.root, bytes);
    var n := |bytes| - 1;
    NextCode(a.root, bytes, n);
    assert bytes[..n + 1] == bytes;
    assert |PathTo(a.root, bytes[n])| > 0;
    assert |Bits(a.code, a.bitCount)| == |CodeBits(a.root, bytes)|;
  }

  function Pow2(k: nat): (r: nat)
    ensures r > 0
  {
    if k == 0 then 1 else 2 * Pow2(k - 1)
  }

  /** A tree over the given bytes with no more levels than needed. */
  lemma {:induction false} BalancedTree(s: seq<Byte>, k: nat) returns (t: Tree)
    requires 0 < |s| <= Pow2(k)
    ensures Leaves(t) == s && TreeDepth(t) <= k + 1
  {
    if |s| == 1 {
      t := Leaf(0, s[0]);
    } else {
      var h := |s| / 2;
      var l := BalancedTree(s[..h], k - 1);
      var r := BalancedTree(s[h..], k - 1);
      t := Node(0, l, r);
      assert s == s[..h] + s[h..];
    }
  }

  lemma {:induction false} DistinctBytesBelow(s: seq<Byte>, n: nat)
    requires Distinct(s) && n <= 256
    ensures CountBelow(multiset(s), n) <= n
  {
    if n > 0 {
      DistinctBytesBelow(s, n - 1);
      DistinctBag(s, n - 1);
    }
  }

  lemma PathLength(t: Tree, b: Byte)
    requires b in Leaves(t)
    ensures |PathTo(t, b)| + 1 <= TreeDepth(t)
  {
    PathLeadsToLeaf(t, b);
    AtDepth(t, PathTo(t, b));
  }

  lemma OneMoreTerm(k: nat, n: nat)
    ensures k * (n + 1) == k * n + k
  {
  }

  lemma {:induction false} CodeLengthBound(t: Tree, bs: seq<Byte>, k: nat)
    requires Over(t, bs) && TreeDepth(t) <= k + 1
    ensures |CodeBits(t, bs)| <= k * |bs|
  {
    if bs != [] {
      var n := |bs| - 1;
      CodeLengthBound(t, bs[..n], k);
      PathLength(t, bs[n]);
      OneMoreTerm(k, n);
    }
  }

  /** A shortest code takes no more bits than the bytes themselves. */
  lemma OptimalBound(u: Tree, bytes: seq<Byte>)
    requires Optimal(u, bytes)
    ensures |CodeBits(u, bytes)| <= 8 * |bytes|
  {
    var s := Leaves(u);
    DistinctBytesBelow(s, 256);
    CountAll(s);
    assert Pow2(8) == 2 * Pow2(7) == 4 * Pow2(6) == 8 * Pow2(5) == 16 * Pow2(4);
    assert Pow2(4) == 16;
    var t := BalancedTree(s, 8);
    assert IsTreeFor(t, bytes);
    CodeLengthBound(t, bytes, 8);
  }

  /** An encoding takes no more bits than the bytes themselves. */
  lemma BitCountBound(a: Artifact, bytes: seq<Byte>)
    requires Encodes(a, bytes)
    ensures a.bitCount <= 8 * |bytes|
    ensures a.size <= (|bytes| + 3) / 4
  {
    OptimalBound(a.root, bytes);
    assert |Bits(a.code, a.bitCount)| == |CodeBits(a.root, bytes)|;
  }

  lemma ShortIsCountable(bytes: seq<Byte>)
    requires |bytes| <= MAX_BYTES
    ensures Countable(bytes)
  {
    forall t: Tree | Optimal(t, bytes)
      ensures |CodeBits(t, bytes)| <= INT_MAX
    {
      OptimalBound(t, bytes);
    }
  }
}
