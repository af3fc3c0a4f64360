/** Forests of Huffman trees, their costs, and what one merge of two least trees keeps. */
module HuffmanForest {
  import opened MinHeap
  import opened HuffmanTree
  import opened HuffmanOptimality

  /** The number of bytes counted by `m` that have a leaf. */
  ghost function Weight(t: Tree, m: multiset<Byte>): nat {
    match t
    case Leaf(_, b) => m[b]
    case Node(_, l, r) => Weight(l, m) + Weight(r, m)
  }

  /** The number of bits these bytes need: each inner node adds one bit to every byte below it. */
  ghost function Cost(t: Tree, m: multiset<Byte>): nat {
    match t
    case Leaf(_, _) => 0
    case Node(_, l, r) => Cost(l, m) + Cost(r, m) + Weight(t, m)
  }

  /** The counts of the leaves, from left to right. */
  ghost function Freqs(t: Tree, m: multiset<Byte>): (s: seq<int>)
    ensures |s| == |Leaves(t)|
  {
    match t
    case Leaf(_, b) => [m[b]]
    case Node(_, l, r) => Freqs(l, m) + Freqs(r, m)
  }

  /** The bytes at the leaves, unordered. */
  ghost function LeafBag(t: Tree): multiset<Byte> {
    match t
    case Leaf(_, b) => multiset{b}
    case Node(_, l, r) => LeafBag(l) + LeafBag(r)
  }

  /** The counts of the leaves, unordered. */
  ghost function FreqBag(t: Tree, m: multiset<Byte>): multiset<int> {
    match t
    case Leaf(_, b) => multiset{m[b]}
    case Node(_, l, r) => FreqBag(l, m) + FreqBag(r, m)
  }

  lemma {:induction false} BagsOfSeqs(t: Tree, m: multiset<Byte>)
    ensures multiset(Leaves(t)) == LeafBag(t)
    ensures multiset(Freqs(t, m)) == FreqBag(t, m)
  {
    if t.Node? {
      BagsOfSeqs(t.left, m);
      BagsOfSeqs(t.right, m);
    }
  }

  /** Leaves are labelled with their counts, inner nodes with the sum of their children. */
  ghost predicate Labelled(t: Tree, m: multiset<Byte>) {
    match t
    case Leaf(f, b) => f == m[b]
    case Node(f, l, r) => f == l.freq + r.freq && Labelled(l, m) && Labelled(r, m)
  }

  ghost predicate AllLabelled(ts: seq<Tree>, m: multiset<Byte>) {
    forall i :: 0 <= i < |ts| ==> Labelled(ts[i], m)
  }

  lemma LabelledSnoc(ts: seq<Tree>, t: Tree, m: multiset<Byte>)
    requires AllLabelled(ts, m) && Labelled(t, m)
    ensures AllLabelled(ts + [t], m)
  {
  }

  lemma {:induction false} LabelledWeight(t: Tree, m: multiset<Byte>)
    requires Labelled(t, m)
    ensures t.freq == Weight(t, m)
  {
    if t.Node? {
      LabelledWeight(t.left, m);
      LabelledWeight(t.right, m);
    }
  }

  lemma OneDeeper(d: int, x: int, y: int)
    ensures (d + 1) * x + (d + 1) * y == d * (x + y) + (x + y)
  {
  }

  /** The cost is the sum of depth times count over the leaves. */
  lemma {:induction false} CostIsDot(t: Tree, m: multiset<Byte>, d: nat)
    ensures Dot(Depths(t, d), Freqs(t, m)) == Cost(t, m) + d * Weight(t, m)
  {
    if t.Leaf? {
      assert Dot([d], [m[t.byte]]) == d * m[t.byte];
    } else {
      CostIsDot(t.left, m, d + 1);
      CostIsDot(t.right, m, d + 1);
      DotAppend(Depths(t.left, d + 1), Freqs(t.left, m), Depths(t.right, d + 1), Freqs(t.right, m));
      OneDeeper(d, Weight(t.left, m), Weight(t.right, m));
    }
  }

  /** One more occurrence of `x` costs the length of its path. */
  lemma {:induction false} CostOfOneMore(t: Tree, m: multiset<Byte>, x: Byte)
    requires Distinct(Leaves(t))
    ensures Weight(t, m + multiset{x}) == Weight(t, m) + if x in Leaves(t) then 1 else 0
    ensures Cost(t, m + multiset{x}) == Cost(t, m) + if x in Leaves(t) then |PathTo(t, x)| else 0
  {
    if t.Node? {
      DistinctParts(Leaves(t.left), Leaves(t.right));
      CostOfOneMore(t.left, m, x);
      CostOfOneMore(t.right, m, x);
    }
  }

  lemma {:induction false} CostOfNothing(t: Tree)
    ensures Weight(t, multiset{}) == 0 && Cost(t, multiset{}) == 0
  {
    if t.Node? {
      CostOfNothing(t.left);
      CostOfNothing(t.right);
    }
  }

  /** The length of an encoding is the cost of the tree for the bytes' counts. */
  lemma {:induction false} CodeLength(t: Tree, bs: seq<Byte>)
    requires Distinct(Leaves(t)) && Over(t, bs)
    ensures |CodeBits(t, bs)| == Cost(t, multiset(bs))
  {
    if bs == [] {
      CostOfNothing(t);
    } else {
      var n := |bs| - 1;
      assert bs == bs[..n] + [bs[n]];
      CodeLength(t, bs[..n]);
      CostOfOneMore(t, multiset(bs[..n]), bs[n]);
    }
  }

  ghost function Without<T>(s: seq<T>, i: nat): seq<T>
    requires i < |s|
  {
    s[..i] + s[i + 1..]
  }

  lemma Reorder<T>(a: multiset<T>, b: multiset<T>, c: multiset<T>)
    ensures a + (b + c) == b + (a + c)
  {
  }

  /** The heap entries of the trees of a forest. */
  ghost function Entries(ts: seq<Tree>): multiset<Entry<Tree>> {
    if ts == [] then multiset{} else multiset{Entry(ts[0], ts[0].freq)} + Entries(ts[1..])
  }

  lemma {:induction false} EntriesWithout(ts: seq<Tree>, i: nat)
    requires i < |ts|
    ensures Entries(ts) == multiset{Entry(ts[i], ts[i].freq)} + Entries(Without(ts, i))
  {
    if i == 0 {
      assert Without(ts, 0) == ts[1..];
    } else {
      EntriesWithout(ts[1..], i - 1);
      assert Without(ts, i) == [ts[0]] + Without(ts[1..], i - 1);
      Reorder(multiset{Entry(ts[0], ts[0].freq)}, multiset{Entry(ts[i], ts[i].freq)},
              Entries(Without(ts[1..], i - 1)));
    }
  }

  /** The weights of the trees of a forest. */
  ghost function Weights(ts: seq<Tree>): multiset<int> {
    if ts == [] then multiset{} else multiset{ts[0].freq} + Weights(ts[1..])
  }

  lemma {:induction false} WeightsWithout(ts: seq<Tree>, i: nat)
    requires i < |ts|
    ensures Weights(ts) == multiset{ts[i].freq} + Weights(Without(ts, i))
  {
    if i == 0 {
      assert Without(ts, 0) == ts[1..];
    } else {
      WeightsWithout(ts[1..], i - 1);
      assert Without(ts, i) == [ts[0]] + Without(ts[1..], i - 1);
      Reorder(multiset{ts[0].freq}, multiset{ts[i].freq}, Weights(Without(ts[1..], i - 1)));
    }
  }

  /** The bytes at the leaves of a forest. */
  ghost function AllLeaves(ts: seq<Tree>): multiset<Byte> {
    if ts == [] then multiset{} else LeafBag(ts[0]) + AllLeaves(ts[1..])
  }

  lemma {:induction false} AllLeavesWithout(ts: seq<Tree>, i: nat)
    requires i < |ts|
    ensures AllLeaves(ts) == LeafBag(ts[i]) + AllLeaves(Without(ts, i))
  {
    if i == 0 {
      assert Without(ts, 0) == ts[1..];
    } else {
      AllLeavesWithout(ts[1..], i - 1);
      assert Without(ts, i) == [ts[0]] + Without(ts[1..], i - 1);
      Reorder(LeafBag(ts[0]), LeafBag(ts[i]), AllLeaves(Without(ts[1..], i - 1)));
    }
  }

  /** The counts of the bytes at the leaves of a forest. */
  ghost function AllFreqs(ts: seq<Tree>, m: multiset<Byte>): multiset<int> {
    if ts == [] then multiset{} else FreqBag(ts[0], m) + AllFreqs(ts[1..], m)
  }

  lemma {:induction false} AllFreqsWithout(ts: seq<Tree>, i: nat, m: multiset<Byte>)
    requires i < |ts|
    ensures AllFreqs(ts, m) == FreqBag(ts[i], m) + AllFreqs(Without(ts, i), m)
  {
    if i == 0 {
      assert Without(ts, 0) == ts[1..];
    } else {
      AllFreqsWithout(ts[1..], i - 1, m);
      assert Without(ts, i) == [ts[0]] + Without(ts[1..], i - 1);
      Reorder(FreqBag(ts[0], m), FreqBag(ts[i], m), AllFreqs(Without(ts[1..], i - 1), m));
    }
  }

  ghost function Total(ts: seq<Tree>): int {
    if ts == [] then 0 else ts[0].freq + Total(ts[1..])
  }

  ghost function AllCost(ts: seq<Tree>, m: multiset<Byte>): int {
    if ts == [] then 0 else Cost(ts[0], m) + AllCost(ts[1..], m)
  }

  lemma {:induction false} SumsWithout(ts: seq<Tree>, i: nat, m: multiset<Byte>)
    requires i < |ts|
    ensures Total(ts) == ts[i].freq + Total(Without(ts, i))
    ensures AllCost(ts, m) == Cost(ts[i], m) + AllCost(Without(ts, i), m)
  {
    if i == 0 {
      assert Without(ts, 0) == ts[1..];
    } else {
      SumsWithout(ts[1..], i - 1, m);
      assert Without(ts, i) == [ts[0]] + Without(ts[1..], i - 1);
    }
  }

  /** The forest `ts` consists of the tree `t` and the forest `us`. */
  ghost predicate Splits(ts: seq<Tree>, t: Tree, us: seq<Tree>, m: multiset<Byte>) {
    && |us| == |ts| - 1
    && Entries(ts) == multiset{Entry(t, t.freq)} + Entries(us)
    && Weights(ts) == multiset{t.freq} + Weights(us)
    && AllLeaves(ts) == LeafBag(t) + AllLeaves(us)
    && AllFreqs(ts, m) == FreqBag(t, m) + AllFreqs(us, m)
    && Total(ts) == t.freq + Total(us)
    && AllCost(ts, m) == Cost(t, m) + AllCost(us, m)
  }

  lemma SplitAt(ts: seq<Tree>, i: nat, m: multiset<Byte>)
    requires i < |ts|
    ensures Splits(ts, ts[i], Without(ts, i), m)
  {
    EntriesWithout(ts, i);
    WeightsWithout(ts, i);
    AllLeavesWithout(ts, i);
    AllFreqsWithout(ts, i, m);
    SumsWithout(ts, i, m);
  }

  lemma {:induction false} TreeOfEntry(ts: seq<Tree>, e: Entry<Tree>) returns (i: nat)
    requires e in Entries(ts)
    ensures i < |ts| && ts[i] == e.data && e.key == e.data.freq
  {
    if e == Entry(ts[0], ts[0].freq) {
      i := 0;
    } else {
      var j := TreeOfEntry(ts[1..], e);
      i := j + 1;
    }
  }

  lemma {:induction false} EntryOfWeight(ts: seq<Tree>, w: int) returns (e: Entry<Tree>)
    requires w in Weights(ts)
    ensures e in Entries(ts) && e.key == w
  {
    if w == ts[0].freq {
      e := Entry(ts[0], ts[0].freq);
    } else {
      e := EntryOfWeight(ts[1..], w);
    }
  }

  lemma LeastWeight(ts: seq<Tree>, e: Entry<Tree>)
    requires LeastOf(e, Entries(ts)) && e.key in Weights(ts)
    ensures IsMin(e.key, Weights(ts))
  {
    forall w | w in Weights(ts)
      ensures e.key <= w
    {
      var f := EntryOfWeight(ts, w);
    }
  }

  /** Takes the tree of a least entry out of the forest. */
  lemma TakeLeast(ts: seq<Tree>, m: multiset<Byte>, e: Entry<Tree>) returns (us: seq<Tree>)
    requires LeastOf(e, Entries(ts))
    ensures e.key == e.data.freq && IsMin(e.key, Weights(ts))
    ensures AllLabelled(ts, m) ==> Labelled(e.data, m) && AllLabelled(us, m)
    ensures Splits(ts, e.data, us, m)
  {
    var i := TreeOfEntry(ts, e);
    SplitAt(ts, i, m);
    us := Without(ts, i);
    LeastWeight(ts, e);
  }

  lemma {:induction false} TotalIsNat(ts: seq<Tree>, m: multiset<Byte>)
    requires AllLabelled(ts, m)
    ensures Total(ts) >= 0
  {
    if ts != [] {
      LabelledWeight(ts[0], m);
      TotalIsNat(ts[1..], m);
    }
  }

  /** A lower bound for trees over `weights` is, raised by `cost`, one for trees over `freqs`. */
  ghost predicate JoinBound(weights: multiset<int>, freqs: multiset<int>, cost: int) {
    forall c :: LowerBound(weights, c) ==> LowerBound(freqs, c + cost)
  }

  /**
   * A forest on the way to an optimal tree for the counts `m`: whatever it still costs to join
   * its trees, plus what they cost themselves, is a lower bound for every tree of these leaves.
   */
  ghost predicate Greedy(ts: seq<Tree>, m: multiset<Byte>) {
    && AllLabelled(ts, m)
    && JoinBound(Weights(ts), AllFreqs(ts, m), AllCost(ts, m))
  }

  lemma SameSingleton(x: int, y: int)
    requires x == y
    ensures multiset{x} == multiset{y}
  {
  }

  lemma RegroupBags<T>(ts: multiset<T>, a: multiset<T>, ts1: multiset<T>, b: multiset<T>, ts2: multiset<T>,
                       t: multiset<T>, us: multiset<T>)
    requires ts == a + ts1 && ts1 == b + ts2 && us == t + ts2
    ensures ts - a == ts1 && us == ts - a - b + t
    ensures t == a + b ==> us == ts
  {
  }

  lemma JoinOneBound(ws: multiset<int>, a: int, ws1: multiset<int>, b: int, sum: int, ws': multiset<int>, c: int)
    requires ws - multiset{a} == ws1 && ws' == ws - multiset{a} - multiset{b} + multiset{sum} && sum == a + b
    requires IsMin(a, ws) && IsMin(b, ws1) && LowerBound(ws', c)
    ensures LowerBound(ws, c + a + b)
  {
    hide LowerBound, IsMin;
    SameSingleton(sum, a + b);
    GreedyChoice(ws, a, b, c);
  }

  /** Joining the two least weights keeps the bound. */
  lemma JoinKeepsBound(ws: multiset<int>, a: int, ws1: multiset<int>, b: int, ws2: multiset<int>, sum: int,
                       ws': multiset<int>, freqs: multiset<int>, cost: int, cost': int)
    requires ws == multiset{a} + ws1 && ws1 == multiset{b} + ws2 && ws' == multiset{sum} + ws2 && sum == a + b
    requires IsMin(a, ws) && IsMin(b, ws1)
    requires JoinBound(ws, freqs, cost) && cost' == cost + a + b
    ensures JoinBound(ws', freqs, cost')
  {
    hide LowerBound, IsMin;
    RegroupBags(ws, multiset{a}, ws1, multiset{b}, ws2, multiset{sum}, ws');
    forall c | LowerBound(ws', c)
      ensures LowerBound(freqs, c + cost')
    {
      JoinOneBound(ws, a, ws1, b, sum, ws', c);
      assert LowerBound(freqs, (c + a + b) + cost);
    }
  }

  lemma JoinedTree(l: Tree, r: Tree, t: Tree, m: multiset<Byte>)
    requires Labelled(l, m) && Labelled(r, m)
    requires t.Node? && t.left == l && t.right == r && t.freq == l.freq + r.freq
    ensures Cost(t, m) == Cost(l, m) + Cost(r, m) + l.freq + r.freq
  {
    LabelledWeight(l, m);
    LabelledWeight(r, m);
  }

  /** The forest `us` is `ts` with the trees of the entries `e` and `f` joined into `t`. */
  ghost predicate Joins(ts: seq<Tree>, e: Entry<Tree>, f: Entry<Tree>, t: Tree, us: seq<Tree>) {
    && t.Node? && t.freq == e.key + f.key && t.left == e.data && t.right == f.data
    && |us| == |ts| - 1
    && Entries(us) == Entries(ts) - multiset{e} - multiset{f} + multiset{Entry(t, t.freq)}
    && AllLeaves(us) == AllLeaves(ts)
    && Total(us) == Total(ts)
  }

  /** `l`, then `r` leave the forest `ts`; their join `t` and the rest `ts2` make `us`. */
  ghost predicate Regrouped(ts: seq<Tree>, l: Tree, ts1: seq<Tree>, r: Tree, ts2: seq<Tree>, t: Tree, us: seq<Tree>,
                            m: multiset<Byte>) {
    && Labelled(l, m) && Labelled(r, m)
    && Splits(ts, l, ts1, m) && Splits(ts1, r, ts2, m) && Splits(us, t, ts2, m)
    && t.Node? && t.left == l && t.right == r && t.freq == l.freq + r.freq
  }

  lemma JoinedEntries(ts: seq<Tree>, l: Tree, ts1: seq<Tree>, r: Tree, ts2: seq<Tree>, t: Tree, us: seq<Tree>,
                      m: multiset<Byte>)
    requires Regrouped(ts, l, ts1, r, ts2, t, us, m)
    ensures Entries(us) ==
            Entries(ts) - multiset{Entry(l, l.freq)} - multiset{Entry(r, r.freq)} + multiset{Entry(t, t.freq)}
  {
    RegroupBags(Entries(ts), multiset{Entry(l, l.freq)}, Entries(ts1), multiset{Entry(r, r.freq)}, Entries(ts2),
                multiset{Entry(t, t.freq)}, Entries(us));
  }

  lemma JoinedLeaves(ts: seq<Tree>, l: Tree, ts1: seq<Tree>, r: Tree, ts2: seq<Tree>, t: Tree, us: seq<Tree>,
                     m: multiset<Byte>)
    requires Regrouped(ts, l, ts1, r, ts2, t, us, m)
    ensures AllLeaves(us) == AllLeaves(ts)
  {
    RegroupBags(AllLeaves(ts), LeafBag(l), AllLeaves(ts1), LeafBag(r), AllLeaves(ts2), LeafBag(t), AllLeaves(us));
  }

  lemma JoinedBound(ts: seq<Tree>, l: Tree, ts1: seq<Tree>, r: Tree, ts2: seq<Tree>, t: Tree, us: seq<Tree>,
                    m: multiset<Byte>)
    requires Regrouped(ts, l, ts1, r, ts2, t, us, m)
    requires JoinBound(Weights(ts), AllFreqs(ts, m), AllCost(ts, m))
    requires IsMin(l.freq, Weights(ts)) && IsMin(r.freq, Weights(ts1))
    ensures JoinBound(Weights(us), AllFreqs(us, m), AllCost(us, m))
  {
    JoinedTree(l, r, t, m);
    RegroupBags(AllFreqs(ts, m), FreqBag(l, m), AllFreqs(ts1, m), FreqBag(r, m), AllFreqs(ts2, m), FreqBag(t, m),
                AllFreqs(us, m));
    JoinKeepsBound(Weights(ts), l.freq, Weights(ts1), r.freq, Weights(ts2), t.freq, Weights(us),
                   AllFreqs(ts, m), AllCost(ts, m), AllCost(us, m));
  }

  /** Takes the trees of two least entries out of the forest. */
  lemma TakeTwo(ts: seq<Tree>, m: multiset<Byte>, e: Entry<Tree>, f: Entry<Tree>)
    returns (ts1: seq<Tree>, ts2: seq<Tree>)
    requires LeastOf(e, Entries(ts)) && LeastOf(f, Entries(ts) - multiset{e})
    requires AllLabelled(ts, m)
    ensures e.key == e.data.freq && f.key == f.data.freq
    ensures Labelled(e.data, m) && Labelled(f.data, m)
    ensures AllLabelled(ts2, m)
    ensures Splits(ts, e.data, ts1, m) && Splits(ts1, f.data, ts2, m)
    ensures IsMin(e.key, Weights(ts)) && IsMin(f.key, Weights(ts1))
  {
    ts1 := TakeLeast(ts, m, e);
    assert Entries(ts1) == Entries(ts) - multiset{e};
    ts2 := TakeLeast(ts1, m, f);
  }

  lemma Regroup(ts: seq<Tree>, l: Tree, ts1: seq<Tree>, r: Tree, ts2: seq<Tree>, m: multiset<Byte>, t: Tree)
    requires Labelled(l, m) && Labelled(r, m)
    requires Splits(ts, l, ts1, m) && Splits(ts1, r, ts2, m)
    requires t.Node? && t.left == l && t.right == r && t.freq == l.freq + r.freq
    ensures Regrouped(ts, l, ts1, r, ts2, t, ts2 + [t], m)
  {
    assert Without(ts2 + [t], |ts2|) == ts2;
    SplitAt(ts2 + [t], |ts2|, m);
  }

  /** Two trees of a labelled forest do not weigh more than the forest. */
  lemma TwoWeights(ts: seq<Tree>, l: Tree, ts1: seq<Tree>, r: Tree, ts2: seq<Tree>, m: multiset<Byte>)
    requires Labelled(l, m) && Labelled(r, m) && AllLabelled(ts2, m)
    requires Total(ts) == l.freq + Total(ts1) && Total(ts1) == r.freq + Total(ts2)
    ensures 0 <= l.freq + r.freq <= Total(ts)
  {
    TotalIsNat(ts2, m);
    LabelledWeight(l, m);
    LabelledWeight(r, m);
  }

  /** Joining the trees of two least entries keeps a forest greedy. */
  lemma MergeLeast(ts: seq<Tree>, m: multiset<Byte>, e: Entry<Tree>, f: Entry<Tree>)
    returns (us: seq<Tree>, t: Tree)
    requires Greedy(ts, m) && Total(ts) <= INT_MAX
    requires LeastOf(e, Entries(ts)) && LeastOf(f, Entries(ts) - multiset{e})
    ensures e.key == e.data.freq && f.key == f.data.freq
    ensures 0 <= e.key + f.key <= INT_MAX
    ensures Joins(ts, e, f, t, us) && Greedy(us, m)
  {
    var ts1, ts2 := TakeTwo(ts, m, e, f);
    var l, r := e.data, f.data;
    TwoWeights(ts, l, ts1, r, ts2, m);
    t := Node(e.key + f.key, l, r);
    us := ts2 + [t];
    Regroup(ts, l, ts1, r, ts2, m, t);
    JoinedEntries(ts, l, ts1, r, ts2, t, us, m);
    JoinedLeaves(ts, l, ts1, r, ts2, t, us, m);
    JoinedBound(ts, l, ts1, r, ts2, t, us, m);
    LabelledSnoc(ts2, t, m);
  }

  /** A forest of single leaves is greedy. */
  lemma {:induction false} LeavesAreGreedy(ts: seq<Tree>, m: multiset<Byte>)
    requires AllLabelled(ts, m) && forall i :: 0 <= i < |ts| ==> ts[i].Leaf?
    ensures AllFreqs(ts, m) == Weights(ts) && AllCost(ts, m) == 0
    ensures Greedy(ts, m)
  {
    if ts != [] {
      LeavesAreGreedy(ts[1..], m);
    }
  }

  /** The counts of a sequence of bytes. */
  ghost function CountsOf(s: seq<Byte>, m: multiset<Byte>): multiset<int> {
    if s == [] then multiset{} else multiset{m[s[0]]} + CountsOf(s[1..], m)
  }

  lemma {:induction false} CountsAppend(s: seq<Byte>, r: seq<Byte>, m: multiset<Byte>)
    ensures CountsOf(s + r, m) == CountsOf(s, m) + CountsOf(r, m)
  {
    if s == [] {
      assert s + r == r;
    } else {
      assert (s + r)[1..] == s[1..] + r;
      CountsAppend(s[1..], r, m);
    }
  }

  lemma {:induction false} FreqsAreCounts(t: Tree, m: multiset<Byte>)
    ensures FreqBag(t, m) == CountsOf(Leaves(t), m)
  {
    if t.Leaf? {
      assert CountsOf([t.byte], m) == multiset{m[t.byte]};
    } else {
      FreqsAreCounts(t.left, m);
      FreqsAreCounts(t.right, m);
      CountsAppend(Leaves(t.left), Leaves(t.right), m);
    }
  }

  lemma WithoutMultiset(s: seq<Byte>, i: nat)
    requires i < |s|
    ensures multiset(Without(s, i)) == multiset(s) - multiset{s[i]}
  {
    assert s == s[..i] + [s[i]] + s[i + 1..];
  }

  lemma CountsWithout(s: seq<Byte>, i: nat, m: multiset<Byte>)
    requires i < |s|
    ensures CountsOf(s, m) == multiset{m[s[i]]} + CountsOf(Without(s, i), m)
  {
    assert s == s[..i] + ([s[i]] + s[i + 1..]);
    CountsAppend(s[..i], [s[i]] + s[i + 1..], m);
    CountsAppend(s[..i], s[i + 1..], m);
  }

  /** The counts do not depend on the order of the bytes. */
  lemma {:induction false} CountsOfPermutation(s: seq<Byte>, r: seq<Byte>, m: multiset<Byte>)
    requires multiset(s) == multiset(r)
    ensures CountsOf(s, m) == CountsOf(r, m)
  {
    if s == [] {
      assert |r| == |multiset(r)| == |multiset(s)| == 0;
    } else {
      assert s[0] in multiset(r);
      var i :| 0 <= i < |r| && r[i] == s[0];
      WithoutMultiset(r, i);
      WithoutMultiset(s, 0);
      assert Without(s, 0) == s[1..];
      CountsWithout(r, i, m);
      CountsOfPermutation(s[1..], Without(r, i), m);
    }
  }

  lemma SingleForest(t: Tree, m: multiset<Byte>)
    ensures Weights([t]) == multiset{t.freq}
    ensures AllFreqs([t], m) == FreqBag(t, m)
    ensures AllCost([t], m) == Cost(t, m)
    ensures AllLeaves([t]) == LeafBag(t)
  {
    SplitAt([t], 0, m);
    assert Without([t], 0) == [];
  }

  /** The one tree of a greedy forest costs no more than any tree of the same leaves. */
  lemma GreedyIsOptimal(t: Tree, u: Tree, m: multiset<Byte>)
    requires Greedy([t], m) && multiset(Leaves(u)) == multiset(Leaves(t))
    ensures Cost(t, m) <= Cost(u, m)
  {
    SingleForest(t, m);
    SingleWeight(t.freq);
    assert LowerBound(FreqBag(t, m), 0 + Cost(t, m));
    FreqsAreCounts(t, m);
    FreqsAreCounts(u, m);
    CountsOfPermutation(Leaves(u), Leaves(t), m);
    CostAbove(u, m, FreqBag(t, m), Cost(t, m));
  }

  lemma CostAbove(u: Tree, m: multiset<Byte>, freqs: multiset<int>, c: int)
    requires LowerBound(freqs, c) && FreqBag(u, m) == freqs
    ensures Cost(u, m) >= c
  {
    CostIsDot(u, m, 0);
    BagsOfSeqs(u, m);
  }
}
