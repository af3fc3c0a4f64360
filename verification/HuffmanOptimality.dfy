/** Why merging two trees of least weight, over and over, gives a shortest code. */
module HuffmanOptimality {
  import opened MinHeap
  import opened HuffmanTree

  /** The depths of the leaves, from left to right, counting from `d` at the root. */
  ghost function Depths(t: Tree, d: nat): (s: seq<nat>)
    ensures |s| == |Leaves(t)|
  {
    match t
    case Leaf(_, _) => [d]
    case Node(_, l, r) => Depths(l, d + 1) + Depths(r, d + 1)
  }

  ghost function Dot(ds: seq<nat>, ws: seq<int>): int
    requires |ds| == |ws|
  {
    if ds == [] then 0 else ds[0] * ws[0] + Dot(ds[1..], ws[1..])
  }

  lemma {:induction false} DotUpdate(ds: seq<nat>, ws: seq<int>, i: nat, w: int)
    requires |ds| == |ws| && i < |ws|
    ensures Dot(ds, ws[i := w]) == Dot(ds, ws) + ds[i] * (w - ws[i])
  {
    if i > 0 {
      assert ws[i := w][1..] == ws[1..][i - 1 := w];
      DotUpdate(ds[1..], ws[1..], i - 1, w);
    }
  }

  lemma {:induction false} DotAppend(ds: seq<nat>, ws: seq<int>, es: seq<nat>, vs: seq<int>)
    requires |ds| == |ws| && |es| == |vs|
    ensures Dot(ds + es, ws + vs) == Dot(ds, ws) + Dot(es, vs)
  {
    if ds == [] {
      assert ds + es == es && ws + vs == vs;
    } else {
      assert (ds + es)[1..] == ds[1..] + es && (ws + vs)[1..] == ws[1..] + vs;
      DotAppend(ds[1..], ws[1..], es, vs);
    }
  }

  /** Every way to hang leaves of the weights `ws` on a tree costs at least `c`. */
  ghost predicate LowerBound(ws: multiset<int>, c: int) {
    forall t: Tree, xs: seq<int> | |xs| == |Depths(t, 0)| && multiset(xs) == ws :: Dot(Depths(t, 0), xs) >= c
  }

  /** `x` is in `m`, and nothing in `m` is smaller. */
  ghost predicate IsMin(x: int, m: multiset<int>) {
    x in m && forall y :: y in m ==> x <= y
  }

  lemma OppositeSigns(d: int, e: int, x: int, y: int)
    requires e <= d && y <= x
    ensures d * (y - x) + e * (x - y) <= 0
  {
    assert d * (y - x) + e * (x - y) == (d - e) * (y - x);
  }

  /** Bringing a smaller weight to a deeper leaf does not raise the cost. */
  lemma BringDown(ds: seq<nat>, ws: seq<int>, i: nat, j: nat) returns (vs: seq<int>)
    requires |ds| == |ws| && i < |ws| && j < |ws|
    requires ds[j] <= ds[i] && ws[j] <= ws[i]
    ensures |vs| == |ws| && multiset(vs) == multiset(ws)
    ensures vs[i] == ws[j]
    ensures forall k :: 0 <= k < |ws| && k != i && k != j ==> vs[k] == ws[k]
    ensures Dot(ds, vs) <= Dot(ds, ws)
  {
    vs := Swapped(ws, i, j);
    SwapKeepsMultiset(ws, i, j);
    if i == j {
      assert vs == ws;
    } else {
      DotUpdate(ds, ws, i, ws[j]);
      DotUpdate(ds, ws[i := ws[j]], j, ws[i]);
      OppositeSigns(ds[i], ds[j], ws[i], ws[j]);
    }
  }

  /** The two least weights can be brought to two given deepest leaves. */
  lemma Exchange(ds: seq<nat>, ws: seq<int>, i: nat, a: int, b: int) returns (vs: seq<int>)
    requires |ds| == |ws| && i + 1 < |ws| && ds[i] == ds[i + 1]
    requires forall k :: 0 <= k < |ds| ==> ds[k] <= ds[i]
    requires IsMin(a, multiset(ws)) && IsMin(b, multiset(ws) - multiset{a})
    ensures |vs| == |ws| && multiset(vs) == multiset(ws)
    ensures vs[i] == a && vs[i + 1] == b
    ensures Dot(ds, vs) <= Dot(ds, ws)
  {
    var j :| 0 <= j < |ws| && ws[j] == a;
    assert ws[i] in multiset(ws);
    var us := BringDown(ds, ws, i, j);
    var k := OtherIndex(us, i, b);
    OtherElement(us, i, i + 1);
    vs := BringDown(ds, us, i + 1, k);
  }

  lemma OtherElement(s: seq<int>, i: nat, k: nat)
    requires i < |s| && k < |s| && k != i
    ensures s[k] in multiset(s) - multiset{s[i]}
  {
    var rest := s[..i] + s[i + 1..];
    assert s == s[..i] + [s[i]] + s[i + 1..];
    assert rest[if k < i then k else k - 1] == s[k];
  }

  lemma WithoutOne(s: seq<int>, i: nat)
    requires i < |s|
    ensures multiset(s[..i] + s[i + 1..]) == multiset(s) - multiset{s[i]}
  {
    assert s == s[..i] + [s[i]] + s[i + 1..];
  }

  lemma OtherIndex(s: seq<int>, i: nat, x: int) returns (k: nat)
    requires i < |s| && x in multiset(s) - multiset{s[i]}
    ensures k < |s| && k != i && s[k] == x
  {
    var rest := s[..i] + s[i + 1..];
    WithoutOne(s, i);
    var m :| 0 <= m < |rest| && rest[m] == x;
    k := if m < i then m else m + 1;
  }

  ghost function MaxDepth(t: Tree, d: nat): (m: nat)
    ensures m >= d
  {
    match t
    case Leaf(_, _) => d
    case Node(_, l, r) => Max(MaxDepth(l, d + 1), MaxDepth(r, d + 1))
  }

  lemma {:induction false} DepthsBelowMax(t: Tree, d: nat)
    ensures forall k :: 0 <= k < |Depths(t, d)| ==> Depths(t, d)[k] <= MaxDepth(t, d)
  {
    if t.Node? {
      DepthsBelowMax(t.left, d + 1);
      DepthsBelowMax(t.right, d + 1);
    }
  }

  /** Two sibling leaves of greatest depth become one leaf on the level above. */
  ghost function Merged(ds: seq<nat>, i: nat): seq<nat>
    requires i + 1 < |ds| && ds[i] > 0
  {
    ds[..i] + [ds[i] - 1] + ds[i + 2..]
  }

  lemma MergedAppend(ds: seq<nat>, es: seq<nat>, i: nat)
    requires i + 1 < |ds| && ds[i] > 0
    ensures Merged(ds + es, i) == Merged(ds, i) + es
    ensures Merged(es + ds, |es| + i) == es + Merged(ds, i)
  {
  }

  /** `i` is the first of two sibling leaves of greatest depth in `t`, and `u` is `t` with them merged. */
  ghost predicate Collapses(t: Tree, d: nat, u: Tree, i: nat) {
    && i + 1 < |Depths(t, d)|
    && Depths(t, d)[i] == Depths(t, d)[i + 1] == MaxDepth(t, d) > 0
    && Depths(u, d) == Merged(Depths(t, d), i)
  }

  lemma CollapseLeft(t: Tree, d: nat, v: Tree, i: nat)
    requires t.Node? && Collapses(t.left, d + 1, v, i)
    requires MaxDepth(t.left, d + 1) >= MaxDepth(t.right, d + 1)
    ensures Collapses(t, d, Node(0, v, t.right), i)
  {
    MergedAppend(Depths(t.left, d + 1), Depths(t.right, d + 1), i);
  }

  lemma CollapseRight(t: Tree, d: nat, v: Tree, i: nat)
    requires t.Node? && Collapses(t.right, d + 1, v, i)
    requires MaxDepth(t.left, d + 1) <= MaxDepth(t.right, d + 1)
    ensures Collapses(t, d, Node(0, t.left, v), |Leaves(t.left)| + i)
  {
    MergedAppend(Depths(t.right, d + 1), Depths(t.left, d + 1), i);
  }

  lemma TwoLeaves(t: Tree, d: nat)
    requires t.Node? && t.left.Leaf? && t.right.Leaf?
    ensures Collapses(t, d, t.left, 0)
  {
    assert Depths(t, d) == [d + 1, d + 1];
  }

  /** Where the greater depth is. */
  lemma DeeperThan(t: Tree, d: nat)
    requires t.Node?
    ensures t.left.Leaf? ==> MaxDepth(t.left, d + 1) <= MaxDepth(t.right, d + 1)
    ensures t.right.Leaf? ==> MaxDepth(t.left, d + 1) >= MaxDepth(t.right, d + 1)
  {
    assert MaxDepth(t.left, d + 1) >= d + 1 && MaxDepth(t.right, d + 1) >= d + 1;
  }

  /** Every tree of two leaves or more has two sibling leaves of greatest depth. */
  lemma {:induction false} CollapseDeepest(t: Tree, d: nat) returns (u: Tree, i: nat)
    requires t.Node?
    ensures Collapses(t, d, u, i)
  {
    hide Collapses, Merged, Depths;
    DeeperThan(t, d);
    if t.left.Leaf? && t.right.Leaf? {
      u, i := t.left, 0;
      TwoLeaves(t, d);
    } else if t.right.Leaf? || (t.left.Node? && MaxDepth(t.left, d + 1) > MaxDepth(t.right, d + 1)) {
      var v;
      v, i := CollapseDeepest(t.left, d + 1);
      u := Node(0, v, t.right);
      CollapseLeft(t, d, v, i);
    } else {
      var v, j := CollapseDeepest(t.right, d + 1);
      u, i := Node(0, t.left, v), |Leaves(t.left)| + j;
      CollapseRight(t, d, v, j);
    }
  }

  ghost function MergedWeights(ws: seq<int>, i: nat): seq<int>
    requires i + 1 < |ws|
  {
    ws[..i] + [ws[i] + ws[i + 1]] + ws[i + 2..]
  }

  /** Merging two sibling leaves saves exactly their joint weight. */
  lemma {:induction false} MergedCost(ds: seq<nat>, ws: seq<int>, i: nat)
    requires |ds| == |ws| && i + 1 < |ws| && ds[i] == ds[i + 1] > 0
    ensures Dot(ds, ws) == Dot(Merged(ds, i), MergedWeights(ws, i)) + ws[i] + ws[i + 1]
  {
    if i == 0 {
      assert ds[1..][1..] == ds[2..] == Merged(ds, 0)[1..];
      assert ws[1..][1..] == ws[2..] == MergedWeights(ws, 0)[1..];
      assert (ds[0] - 1) * (ws[0] + ws[1]) == ds[0] * ws[0] + ds[0] * ws[1] - ws[0] - ws[1];
    } else {
      assert Merged(ds, i)[1..] == Merged(ds[1..], i - 1);
      assert MergedWeights(ws, i)[1..] == MergedWeights(ws[1..], i - 1);
      MergedCost(ds[1..], ws[1..], i - 1);
    }
  }

  lemma MergedMultiset(ws: seq<int>, i: nat)
    requires i + 1 < |ws|
    ensures multiset(MergedWeights(ws, i)) ==
            multiset(ws) - multiset{ws[i]} - multiset{ws[i + 1]} + multiset{ws[i] + ws[i + 1]}
  {
    assert ws == ws[..i] + [ws[i]] + [ws[i + 1]] + ws[i + 2..];
  }

  lemma MergedTo(ws: seq<int>, i: nat, a: int, b: int)
    requires i + 1 < |ws| && ws[i] == a && ws[i + 1] == b
    ensures multiset(MergedWeights(ws, i)) == multiset(ws) - multiset{a} - multiset{b} + multiset{a + b}
    ensures |MergedWeights(ws, i)| == |ws| - 1
  {
    MergedMultiset(ws, i);
  }

  /** Exchange, then merge: the merged weights cost less by at least the joint weight. */
  lemma ExchangeAndMerge(ds: seq<nat>, xs: seq<int>, i: nat, a: int, b: int) returns (ys: seq<int>)
    requires |ds| == |xs| && i + 1 < |xs| && ds[i] == ds[i + 1] > 0
    requires forall k :: 0 <= k < |ds| ==> ds[k] <= ds[i]
    requires IsMin(a, multiset(xs)) && IsMin(b, multiset(xs) - multiset{a})
    ensures |ys| == |Merged(ds, i)|
    ensures multiset(ys) == multiset(xs) - multiset{a} - multiset{b} + multiset{a + b}
    ensures Dot(Merged(ds, i), ys) + a + b <= Dot(ds, xs)
  {
    hide Dot, IsMin, MergedWeights;
    var vs := Exchange(ds, xs, i, a, b);
    MergedCost(ds, vs, i);
    MergedTo(vs, i, a, b);
    ys := MergedWeights(vs, i);
  }

  /** The greedy choice for one tree: some tree of the merged weights saves at least the joint weight. */
  lemma GreedyTree(t: Tree, xs: seq<int>, a: int, b: int) returns (u: Tree, ys: seq<int>)
    requires t.Node? && |xs| == |Depths(t, 0)|
    requires IsMin(a, multiset(xs)) && IsMin(b, multiset(xs) - multiset{a})
    ensures |ys| == |Depths(u, 0)|
    ensures multiset(ys) == multiset(xs) - multiset{a} - multiset{b} + multiset{a + b}
    ensures Dot(Depths(u, 0), ys) + a + b <= Dot(Depths(t, 0), xs)
  {
    var i;
    u, i := CollapseDeepest(t, 0);
    DepthsBelowMax(t, 0);
    ys := ExchangeAndMerge(Depths(t, 0), xs, i, a, b);
  }

  lemma TwoMinima(ws: multiset<int>, a: int, b: int)
    requires a in ws && b in ws - multiset{a}
    ensures |ws| >= 2
  {
    assert ws == multiset{a} + multiset{b} + (ws - multiset{a} - multiset{b});
  }

  /** The greedy choice: merging the two least weights loses no optimal tree. */
  lemma GreedyChoice(ws: multiset<int>, a: int, b: int, c: int)
    requires IsMin(a, ws) && IsMin(b, ws - multiset{a})
    requires LowerBound(ws - multiset{a} - multiset{b} + multiset{a + b}, c)
    ensures LowerBound(ws, c + a + b)
  {
    forall t: Tree, xs: seq<int> | |xs| == |Depths(t, 0)| && multiset(xs) == ws
      ensures Dot(Depths(t, 0), xs) >= c + a + b
    {
      if t.Node? {
        var u, ys := GreedyTree(t, xs, a, b);
        assert Dot(Depths(u, 0), ys) >= c;
      } else {
        TwoMinima(ws, a, b);
        assert false;
      }
    }
  }

  lemma NodeHasTwoLeaves(t: Tree)
    ensures t.Node? ==> |Leaves(t)| >= 2
  {
  }

  lemma SingleWeight(w: int)
    ensures LowerBound(multiset{w}, 0)
  {
    forall t: Tree, xs: seq<int> | |xs| == |Depths(t, 0)| && multiset(xs) == multiset{w}
      ensures Dot(Depths(t, 0), xs) >= 0
    {
      assert |xs| == |multiset(xs)| == 1;
      NodeHasTwoLeaves(t);
    }
  }
}
