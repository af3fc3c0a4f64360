/** Building a Huffman tree and its dictionary (gnl_huffman_tree.c). */
module HuffmanBuild {
  import opened Wrappers
  import opened MinHeap
  import opened HuffmanTree
  import opened HuffmanForest

  /** The tree has one leaf for every byte that occurs in `bytes`, and no other. */
  ghost predicate IsTreeFor(t: Tree, bytes: seq<Byte>) {
    && Distinct(Leaves(t))
    && forall b: Byte :: b in Leaves(t) <==> b in bytes
  }

  /** No tree for `bytes` encodes them in fewer bits. */
  ghost predicate Optimal(t: Tree, bytes: seq<Byte>) {
    && IsTreeFor(t, bytes)
    && forall u: Tree | IsTreeFor(u, bytes) :: |CodeBits(t, bytes)| <= |CodeBits(u, bytes)|
  }

  /** How many of the bytes counted by `m` are below `n`. */
  ghost function CountBelow(m: multiset<Byte>, n: nat): nat
    requires n <= 256
  {
    if n == 0 then 0 else CountBelow(m, n - 1) + m[n - 1]
  }

  lemma {:induction false} CountBelowOneMore(m: multiset<Byte>, x: Byte, n: nat)
    requires n <= 256
    ensures CountBelow(m + multiset{x}, n) == CountBelow(m, n) + if x < n then 1 else 0
  {
    if n > 0 {
      CountBelowOneMore(m, x, n - 1);
    }
  }

  lemma {:induction false} CountBelowNone(n: nat)
    requires n <= 256
    ensures CountBelow(multiset{}, n) == 0
  {
    if n > 0 {
      CountBelowNone(n - 1);
    }
  }

  lemma {:induction false} CountAll(bytes: seq<Byte>)
    ensures CountBelow(multiset(bytes), 256) == |bytes|
  {
    if bytes == [] {
      CountBelowNone(256);
    } else {
      var n := |bytes| - 1;
      assert bytes == bytes[..n] + [bytes[n]];
      CountAll(bytes[..n]);
      CountBelowOneMore(multiset(bytes[..n]), bytes[n], 256);
    }
  }

  lemma CountFits(bytes: seq<Byte>, i: nat, b: Byte)
    requires i <= |bytes| <= INT_MAX
    ensures multiset(bytes[..i])[b] <= INT_MAX
  {
    assert multiset(bytes[..i])[b] <= |multiset(bytes[..i])| by {
      var m := multiset(bytes[..i]);
      assert m == m[b := 0] + multiset{}[b := m[b]];
    }
  }

  method CalculateFrequencies(bytes: seq<Byte>) returns (freq: array<CInt>)
    requires |bytes| <= INT_MAX
    ensures fresh(freq) && freq.Length == 256
    ensures forall b :: 0 <= b < 256 ==> freq[b] == multiset(bytes)[b]
  {
    freq := new CInt[256](_ => 0);
    for i := 0 to |bytes|
      invariant forall b :: 0 <= b < 256 ==> freq[b] == multiset(bytes[..i])[b]
    {
      assert bytes[..i + 1] == bytes[..i] + [bytes[i]];
      CountFits(bytes, i + 1, bytes[i]);
      freq[bytes[i]] := freq[bytes[i]] + 1;
    }
    assert bytes[..|bytes|] == bytes;
  }

  /** Each byte below `n` that occurs is in `bag` once, and nothing else is. */
  ghost predicate OnceBelow(bag: multiset<Byte>, m: multiset<Byte>, n: nat) {
    forall b: Byte :: bag[b] == if b < n && b in m then 1 else 0
  }

  /** A forest of one leaf for each byte below `n` that occurs. */
  ghost predicate LeafForest(ts: seq<Tree>, m: multiset<Byte>, n: nat)
    requires n <= 256
  {
    && AllLabelled(ts, m)
    && (forall i :: 0 <= i < |ts| ==> ts[i].Leaf?)
    && OnceBelow(AllLeaves(ts), m, n)
    && Total(ts) == CountBelow(m, n)
  }

  lemma OnceMore(bag: multiset<Byte>, m: multiset<Byte>, b: Byte, bag': multiset<Byte>)
    requires OnceBelow(bag, m, b)
    requires bag' == if b in m then multiset{b} + bag else bag
    ensures OnceBelow(bag', m, b + 1)
  {
  }

  lemma AddLeaf(ts: seq<Tree>, t: Tree, m: multiset<Byte>)
    requires t.Leaf? && t.byte in m && t.freq == m[t.byte] && LeafForest(ts, m, t.byte)
    ensures LeafForest(ts + [t], m, t.byte + 1)
    ensures Entries(ts + [t]) == multiset{Entry(t, t.freq)} + Entries(ts)
  {
    assert Without(ts + [t], |ts|) == ts;
    SplitAt(ts + [t], |ts|, m);
    OnceMore(AllLeaves(ts), m, t.byte, AllLeaves(ts + [t]));
    LabelledSnoc(ts, t, m);
  }

  /** The forest of the bytes up to `b`, from the forest of the bytes below `b`. */
  lemma NextForest(ts: seq<Tree>, f: CInt, b: Byte, m: multiset<Byte>) returns (us: seq<Tree>)
    requires LeafForest(ts, m, b) && f == m[b]
    ensures LeafForest(us, m, b + 1)
    ensures if f > 0 then |us| == |ts| + 1 && Entries(us) == multiset{Entry(Leaf(f, b), f)} + Entries(ts) else us == ts
  {
    if f > 0 {
      us := ts + [Leaf(f, b)];
      AddLeaf(ts, Leaf(f, b), m);
    } else {
      us := ts;
      OnceMore(AllLeaves(ts), m, b, AllLeaves(ts));
    }
  }

  lemma NoLeaves(m: multiset<Byte>)
    ensures LeafForest([], m, 0)
  {
  }

  method CreateMinHeap(freq: array<CInt>, ghost m: multiset<Byte>) returns (heap: Heap<Tree>, ghost ts: seq<Tree>)
    requires freq.Length == 256 && forall b :: 0 <= b < 256 ==> freq[b] == m[b]
    ensures heap.Valid() && fresh(heap.Repr())
    ensures heap.size == |ts| && heap.Contents() == Entries(ts)
    ensures LeafForest(ts, m, 256)
  {
    hide Heap.Valid, Heap.Contents, LeafForest;
    NoLeaves(m);
    heap := new Heap<Tree>();
    ts := [];
    for i := 0 to 256
      invariant heap.Valid() && fresh(heap.Repr())
      invariant heap.size == |ts| && heap.Contents() == Entries(ts)
      invariant LeafForest(ts, m, i)
    {
      if freq[i] > 0 {
        var node := Leaf(freq[i], i);
        heap.Insert(node, node.freq);
      }
      ts := NextForest(ts, freq[i], i, m);
    }
  }

  /** The entries `e` and `f` are the two least of the forest `ts`. */
  ghost predicate TwoLeast(ts: seq<Tree>, e: Entry<Tree>, f: Entry<Tree>) {
    LeastOf(e, Entries(ts)) && LeastOf(f, Entries(ts) - multiset{e})
  }

  /** The joint weight of two least trees is still an `int`. */
  lemma JointWeightFits(ts: seq<Tree>, m: multiset<Byte>, e: Entry<Tree>, f: Entry<Tree>)
    requires Greedy(ts, m) && Total(ts) <= INT_MAX && TwoLeast(ts, e, f)
    ensures 0 <= e.data.freq + f.data.freq <= INT_MAX
  {
    var us, t := MergeLeast(ts, m, e, f);
  }

  /** One round of `CreateTree`: what the heap must hold afterwards, and that the forest stays greedy. */
  lemma MergeStep(ts: seq<Tree>, m: multiset<Byte>, e: Entry<Tree>, f: Entry<Tree>, node: Tree) returns (us: seq<Tree>)
    requires Greedy(ts, m) && Total(ts) <= INT_MAX && TwoLeast(ts, e, f)
    requires node.Node? && node.left == e.data && node.right == f.data && node.freq == e.data.freq + f.data.freq
    ensures Greedy(us, m) && |us| == |ts| - 1 && Total(us) == Total(ts) && AllLeaves(us) == AllLeaves(ts)
    ensures Entries(us) == Entries(ts) - multiset{e} - multiset{f} + multiset{Entry(node, node.freq)}
  {
    var t;
    us, t := MergeLeast(ts, m, e, f);
    assert t.freq == node.freq;
    assert t == node;
  }

  lemma OnlyTree(ts: seq<Tree>, e: Entry<Tree>)
    requires |ts| == 1 && e in Entries(ts)
    ensures ts == [e.data]
  {
    var i := TreeOfEntry(ts, e);
  }

  /** The heap holds the trees of the greedy forest `ts`, and nothing else. */
  ghost predicate Holds(heap: Heap<Tree>, ts: seq<Tree>, m: multiset<Byte>)
    reads heap, heap.list
  {
    && heap.Valid() && heap.size == |ts| && heap.Contents() == Entries(ts)
    && Greedy(ts, m) && Total(ts) <= INT_MAX
  }

  /** One round of the loop of `CreateTree`: joins two least trees. */
  method JoinLeast(heap: Heap<Tree>, ghost ts: seq<Tree>, ghost m: multiset<Byte>) returns (ghost us: seq<Tree>)
    requires Holds(heap, ts, m) && heap.size > 1
    modifies heap, heap.list
    ensures fresh(heap.list)
    ensures Holds(heap, us, m) && |us| == |ts| - 1 && AllLeaves(us) == AllLeaves(ts)
  {
    hide Greedy, LeastOf, Entries, AllLeaves, Total, Heap.Valid, Heap.Contents;
    var left, lkey := heap.ExtractMin();
    var right, rkey := heap.ExtractMin();
    ghost var e, f := Entry(left.value, lkey), Entry(right.value, rkey);
    JointWeightFits(ts, m, e, f);
    var node := Node(left.value.freq + right.value.freq, left.value, right.value);
    us := MergeStep(ts, m, e, f, node);
    heap.Insert(node, node.freq);
  }

  /** Joins two least trees of the heap until one tree is left; an empty heap gives no tree. */
  method CreateTree(heap: Heap<Tree>, ghost ts: seq<Tree>, ghost m: multiset<Byte>) returns (root: Option<Tree>)
    requires Holds(heap, ts, m)
    modifies heap, heap.list
    ensures root.None? <==> ts == []
    ensures root.Some? ==> Greedy([root.value], m) && AllLeaves([root.value]) == AllLeaves(ts)
  {
    ghost var us := ts;
    while heap.size > 1
      invariant fresh(heap.list) || heap.list == old(heap.list)
      invariant Holds(heap, us, m) && AllLeaves(us) == AllLeaves(ts)
      invariant us == [] <==> ts == []
      decreases heap.size
    {
      us := JoinLeast(heap, us, m);
    }
    ghost var key;
    root, key := heap.ExtractMin();
    if us != [] {
      OnlyTree(us, Entry(root.value, key));
    }
  }

  ghost function Chars(p: seq<bool>): (s: string)
    ensures |s| == |p|
  {
    if p == [] then [] else [if p[0] then '1' else '0'] + Chars(p[1..])
  }

  /** The path of a byte, written behind the path `prefix` of its subtree. */
  ghost function Code(prefix: string, t: Tree, b: Byte): string
    requires b in Leaves(t)
  {
    prefix + Chars(PathTo(t, b))
  }

  lemma CharsCons(prefix: string, bit: bool, p: seq<bool>)
    ensures prefix + Chars([bit] + p) == prefix + [if bit then '1' else '0'] + Chars(p)
  {
    assert ([bit] + p)[1..] == p;
  }

  lemma CodeBelow(prefix: string, t: Tree, b: Byte)
    requires t.Node? && b in Leaves(t)
    ensures b in Leaves(t.left) ==> Code(prefix, t, b) == Code(prefix + ['0'], t.left, b)
    ensures b !in Leaves(t.left) ==> b in Leaves(t.right)
    ensures b !in Leaves(t.left) ==> Code(prefix, t, b) == Code(prefix + ['1'], t.right, b)
  {
    if b in Leaves(t.left) {
      CharsCons(prefix, false, PathTo(t.left, b));
    } else {
      CharsCons(prefix, true, PathTo(t.right, b));
    }
  }

  /** Writes the codes of all leaves below `node`; `code` is the shared buffer for the path so far. */
  method CreateDictionaryRecursive(node: Tree, dictionary: array<Option<string>>, code: array<char>, index: nat)
    requires dictionary.Length == 256 && index + TreeDepth(node) <= code.Length + 1
    requires Distinct(Leaves(node))
    modifies dictionary, code
    ensures code[..index] == old(code[..index])
    ensures forall b: Byte :: b in Leaves(node) ==> dictionary[b] == Some(Code(old(code[..index]), node, b))
    ensures forall b: Byte :: b !in Leaves(node) ==> dictionary[b] == old(dictionary[b])
    decreases node
  {
    match node
    case Leaf(_, byte) =>
      assert Code(code[..index], node, byte) == code[..index];
      dictionary[byte] := Some(code[..index]);
    case Node(_, left, right) =>
      ghost var prefix := code[..index];
      DistinctParts(Leaves(left), Leaves(right));
      code[index] := '0';
      assert code[..index + 1] == prefix + ['0'];
      CreateDictionaryRecursive(left, dictionary, code, index + 1);
      assert code[..index] == code[..index + 1][..index] == prefix;
      code[index] := '1';
      assert code[..index + 1] == prefix + ['1'];
      label Half:
      CreateDictionaryRecursive(right, dictionary, code, index + 1);
      assert code[..index] == code[..index + 1][..index] == prefix;
      forall b: Byte | b in Leaves(node)
        ensures dictionary[b] == Some(Code(prefix, node, b))
      {
        CodeBelow(prefix, node, b);
      }
  }

  method CreateDictionary(root: Tree) returns (dictionary: array<Option<string>>)
    requires Distinct(Leaves(root))
    ensures fresh(dictionary) && dictionary.Length == 256
    ensures forall b: Byte :: b in Leaves(root) ==> dictionary[b] == Some(Chars(PathTo(root, b)))
    ensures forall b: Byte :: b !in Leaves(root) ==> dictionary[b] == None
  {
    dictionary := new Option<string>[256](_ => None);
    var depth := TreeDepth(root);
    var code := new char[depth];
    CreateDictionaryRecursive(root, dictionary, code, 0);
    assert forall b: Byte :: b in Leaves(root) ==> Code([], root, b) == Chars(PathTo(root, b));
  }
}
