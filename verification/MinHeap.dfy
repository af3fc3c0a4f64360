/** The array-backed min heap of gnl_min_heap_t.c. */
module MinHeap {
  import opened Wrappers

  const INT_MAX := 0x7FFF_FFFF

  /** A C `int`. */
  type CInt = k: int | -INT_MAX - 1 <= k <= INT_MAX

  datatype Entry<T> = Entry(data: T, key: CInt)

  function Parent(i: nat): nat
    requires i > 0
  {
    (i - 1) / 2
  }

  /** Every entry but the root has a key no smaller than its parent's. */
  ghost predicate HeapOrdered<T>(s: seq<Entry<T>>) {
    forall j {:trigger Parent(j)} :: 0 < j < |s| ==> s[Parent(j)].key <= s[j].key
  }

  /** The children of entry `i` are no smaller than the parent of `i`. */
  ghost predicate Bridged<T>(s: seq<Entry<T>>, i: nat) {
    0 < i < |s| ==>
      forall j {:trigger Parent(j)} :: 0 < j < |s| && Parent(j) == i ==> s[Parent(i)].key <= s[j].key
  }

  /** Heap order, except that entry `i` may be smaller than its parent. */
  ghost predicate OrderedAbove<T>(s: seq<Entry<T>>, i: nat) {
    && (forall j {:trigger Parent(j)} :: 0 < j < |s| && j != i ==> s[Parent(j)].key <= s[j].key)
    && Bridged(s, i)
  }

  /** Heap order, except that entry `i` may be greater than its children. */
  ghost predicate OrderedBelow<T>(s: seq<Entry<T>>, i: nat) {
    && (forall j {:trigger Parent(j)} :: 0 < j < |s| && Parent(j) != i ==> s[Parent(j)].key <= s[j].key)
    && Bridged(s, i)
  }

  /** In a heap the root carries a least key. */
  lemma {:induction false} RootIsLeast<T>(s: seq<Entry<T>>, i: nat)
    requires HeapOrdered(s) && i < |s|
    ensures s[0].key <= s[i].key
  {
    if i > 0 {
      RootIsLeast(s, Parent(i));
    }
  }

  /** Entry `e` is in `m`, and no entry of `m` has a smaller key. */
  ghost predicate LeastOf<T>(e: Entry<T>, m: multiset<Entry<T>>) {
    e in m && forall f :: f in m ==> e.key <= f.key
  }

  lemma LeastEntry<T>(s: seq<Entry<T>>)
    requires HeapOrdered(s) && |s| > 0
    ensures LeastOf(s[0], multiset(s))
  {
    forall e | e in multiset(s)
      ensures s[0].key <= e.key
    {
      var i :| 0 <= i < |s| && s[i] == e;
      RootIsLeast(s, i);
    }
  }

  /** The entries `es` were taken out of a heap with the entries `all`, least keys first; `left` are left. */
  ghost predicate Drained<T>(es: seq<Entry<T>>, left: multiset<Entry<T>>, all: multiset<Entry<T>>) {
    && multiset(es) + left == all
    && (forall i, j :: 0 <= i < j < |es| ==> es[i].key <= es[j].key)
    && forall i, e :: 0 <= i < |es| && e in left ==> es[i].key <= e.key
  }

  /** The elements of the entries, in order. */
  ghost predicate DataOf<T>(els: seq<T>, es: seq<Entry<T>>) {
    |els| == |es| && forall i :: 0 <= i < |es| ==> els[i] == es[i].data
  }

  lemma OneMoreData<T>(els: seq<T>, es: seq<Entry<T>>, e: Entry<T>)
    requires DataOf(els, es)
    ensures DataOf(els + [e.data], es + [e])
  {
  }

  lemma NothingDrained<T>(all: multiset<Entry<T>>)
    ensures Drained([], all, all)
  {
  }

  lemma DrainOne<T>(es: seq<Entry<T>>, left: multiset<Entry<T>>, all: multiset<Entry<T>>, e: Entry<T>)
    requires Drained(es, left, all) && LeastOf(e, left)
    ensures Drained(es + [e], left - multiset{e}, all)
  {
    assert forall f :: f in left - multiset{e} ==> f in left;
    assert multiset(es + [e]) == multiset(es) + multiset{e};
  }

  lemma AllDrained<T>(es: seq<Entry<T>>, left: multiset<Entry<T>>, all: multiset<Entry<T>>)
    requires Drained(es, left, all) && left == multiset{}
    ensures multiset(es) == all && forall i, j :: 0 <= i < j < |es| ==> es[i].key <= es[j].key
  {
  }

  ghost function Swapped<T>(s: seq<T>, i: nat, j: nat): seq<T>
    requires i < |s| && j < |s|
  {
    s[i := s[j]][j := s[i]]
  }

  lemma SwapKeepsMultiset<T>(s: seq<T>, i: nat, j: nat)
    requires i < |s| && j < |s|
    ensures multiset(Swapped(s, i, j)) == multiset(s)
  {
  }

  /** The last entry moved over the first. */
  ghost function RootReplaced<T>(s: seq<T>): seq<T>
    requires |s| > 0
  {
    s[0 := s[|s| - 1]][..|s| - 1]
  }

  lemma LastOverFirst<T>(s: seq<Entry<T>>)
    requires |s| > 1 && HeapOrdered(s)
    ensures OrderedBelow(RootReplaced(s), 0)
  {
    var n := |s| - 1;
    var r := s[0 := s[n]][..n];
    forall j | 0 < j < n && Parent(j) != 0
      ensures r[Parent(j)].key <= r[j].key
    {
    }
  }

  /** Moving the last entry over the first removes exactly the first. */
  lemma DropFirst<T>(s: seq<Entry<T>>)
    requires |s| > 0 && HeapOrdered(s)
    ensures multiset(RootReplaced(s)) == multiset(s) - multiset{s[0]}
    ensures OrderedBelow(RootReplaced(s), 0)
  {
    var n := |s| - 1;
    if n > 0 {
      LastOverFirst(s);
      assert s == [s[0]] + s[1..n] + [s[n]];
      assert s[0 := s[n]][..n] == [s[n]] + s[1..n];
    }
  }

  /** Swapping a too small entry with its parent moves the disorder up. */
  lemma SiftUpStep<T>(s: seq<Entry<T>>, i: nat)
    requires 0 < i < |s| && OrderedAbove(s, i)
    requires s[i].key < s[Parent(i)].key
    ensures OrderedAbove(Swapped(s, i, Parent(i)), Parent(i))
  {
    var p := Parent(i);
    var r := Swapped(s, i, p);
    forall j | 0 < j < |s| && j != p
      ensures r[Parent(j)].key <= r[j].key
    {
    }
    if p > 0 {
      assert s[Parent(p)].key <= s[p].key;
    }
  }

  /** Entry `c` is entry `i`, or a child of it, and none of them has a smaller key. */
  ghost predicate SmallestOf<T>(s: seq<Entry<T>>, i: nat, c: nat) {
    && i < |s| && c < |s| && (c == i || (c > 0 && Parent(c) == i && s[c].key < s[i].key))
    && forall j {:trigger Parent(j)} :: 0 < j < |s| && Parent(j) == i ==> s[c].key <= s[j].key
  }

  lemma SmallestIsChild<T>(s: seq<Entry<T>>, i: nat, c: nat)
    requires SmallestOf(s, i, c) && c != i
    ensures i < c < |s| && Parent(c) == i
  {
  }

  /** Nothing is left to sift down. */
  lemma Settled<T>(s: seq<Entry<T>>, i: nat)
    requires OrderedBelow(s, i) && (i < |s| ==> SmallestOf(s, i, i))
    ensures HeapOrdered(s)
  {
  }

  /** Swapping a too large entry with its smallest child moves the disorder down. */
  lemma SiftDownStep<T>(s: seq<Entry<T>>, i: nat, c: nat)
    requires i < |s| && OrderedBelow(s, i)
    requires SmallestOf(s, i, c) && c != i
    ensures OrderedBelow(Swapped(s, i, c), c)
  {
    var r := Swapped(s, i, c);
    forall j | 0 < j < |s| && Parent(j) != c
      ensures r[Parent(j)].key <= r[j].key
    {
      if j == i {
        assert Parent(c) == i;
      }
    }
    forall j | 0 < j < |s| && Parent(j) == c
      ensures r[Parent(c)].key <= r[j].key
    {
    }
  }

  class Heap<T> {
    var size: nat
    var list: array<Entry<T>>

    ghost function Repr(): set<object>
      reads this
    {
      {this, list}
    }

    ghost predicate Valid()
      reads this, list
    {
      size <= list.Length && HeapOrdered(list[..size])
    }

    ghost function Contents(): multiset<Entry<T>>
      requires Valid()
      reads this, list
    {
      multiset(list[..size])
    }

    constructor ()
      ensures Valid() && fresh(Repr()) && size == 0 && Contents() == multiset{}
    {
      size := 0;
      list := new Entry<T>[0];
    }

    method Swap(i: nat, j: nat)
      requires i < list.Length && j < list.Length
      modifies list
      ensures list[..] == Swapped(old(list[..]), i, j)
    {
      list[i], list[j] := list[j], list[i];
    }

    /** Sifts entry `i` down until the heap order holds again. */
    method MinHeapify(i: nat)
      requires size <= list.Length && OrderedBelow(list[..size], i)
      modifies list
      ensures Valid() && multiset(list[..size]) == old(multiset(list[..size]))
      decreases size - i
    {
      hide HeapOrdered, OrderedBelow, SmallestOf;
      ghost var s := list[..size];
      var smallest := Smallest(i);
      if smallest != i {
        SmallestIsChild(s, i, smallest);
        Swap(i, smallest);
        assert list[..size] == Swapped(s, i, smallest);
        SwapKeepsMultiset(s, i, smallest);
        SiftDownStep(s, i, smallest);
        MinHeapify(smallest);
      } else {
        Settled(s, i);
      }
    }

    /** The entry of smallest key among entry `i` and its children. */
    method Smallest(i: nat) returns (smallest: nat)
      requires size <= list.Length
      ensures i < size ==> SmallestOf(list[..size], i, smallest)
      ensures i >= size ==> smallest == i
    {
      var l, r := 2 * i + 1, 2 * i + 2;
      smallest := i;
      if l < size && list[l].key < list[i].key {
        smallest := l;
      }
      if r < size && list[r].key < list[smallest].key {
        smallest := r;
      }
      assert forall j :: 0 < j && Parent(j) == i ==> j == l || j == r;
    }

    /** Adds an entry: it is stored with the greatest key, then decreased to `key`. */
    method Insert(el: T, key: CInt)
      requires Valid()
      modifies `size, `list, list
      ensures Valid() && fresh(list)
      ensures size == old(size) + 1
      ensures Contents() == old(Contents()) + multiset{Entry(el, key)}
    {
      ghost var s := list[..size];
      var node := Entry(el, INT_MAX);
      var temp := new Entry<T>[size + 1](i requires i >= 0 reads this, list =>
        if i < size && i < list.Length then list[i] else node);
      list := temp;
      assert list[..size + 1] == s + [node];
      var ok := DecreaseKey(size, key);
      assert (s + [node])[size := Entry(el, key)] == s + [Entry(el, key)];
      size := size + 1;
    }

    /** Removes an entry of least key, unless the heap is empty. */
    method ExtractMin() returns (min: Option<T>, ghost key: CInt)
      requires Valid()
      modifies `size, list
      ensures Valid() && list == old(list)
      ensures old(size) == 0 ==> min == None && size == 0
      ensures old(size) > 0 ==> min.Some? && size == old(size) - 1
      ensures old(size) > 0 ==> LeastOf(Entry(min.value, key), old(Contents()))
      ensures old(size) > 0 ==> Contents() == old(Contents()) - multiset{Entry(min.value, key)}
    {
      hide HeapOrdered, LeastOf;
      if size < 1 {
        return None, 0;
      }
      LeastEntry(list[..size]);
      key := list[0].key;
      min := Some(list[0].data);
      DropRoot();
    }

    /** Takes out all entries; they come in the order of their keys. */
    method Drain() returns (els: seq<T>, ghost es: seq<Entry<T>>)
      requires Valid()
      modifies `size, list
      ensures Valid() && size == 0 && multiset(es) == old(Contents())
      ensures forall i, j :: 0 <= i < j < |es| ==> es[i].key <= es[j].key
      ensures DataOf(els, es)
    {
      els, es := [], [];
      assert DataOf(els, es);
      hide HeapOrdered, Valid, Contents, Drained, LeastOf, DataOf;
      NothingDrained(Contents());
      while size > 0
        invariant Valid() && list == old(list)
        invariant Drained(es, Contents(), old(Contents()))
        invariant DataOf(els, es)
      {
        ghost var m := Contents();
        var min, key := ExtractMin();
        DrainOne(es, m, old(Contents()), Entry(min.value, key));
        OneMoreData(els, es, Entry(min.value, key));
        els, es := els + [min.value], es + [Entry(min.value, key)];
      }
      NoContents();
      AllDrained(es, Contents(), old(Contents()));
    }

    lemma NoContents()
      requires Valid() && size == 0
      ensures Contents() == multiset{}
    {
    }

    /** Puts the last entry in place of the root, and sifts it down. */
    method DropRoot()
      requires Valid() && size > 0
      modifies `size, list
      ensures Valid() && list == old(list) && size == old(size) - 1
      ensures Contents() == old(Contents()) - multiset{old(list[0])}
    {
      hide HeapOrdered, OrderedBelow;
      ghost var s := list[..size];
      size := size - 1;
      list[0] := list[size];
      assert list[..size] == RootReplaced(s);
      hide RootReplaced;
      DropFirst(s);
      MinHeapify(0);
    }

    /** The entries `DecreaseKey(i, _)` works on: `i` may be the slot just past the last entry. */
    ghost function Upto(i: nat): nat
      requires i <= size
      reads this
    {
      if i < size then size else size + 1
    }

    /** Lowers the key of entry `i` and sifts it up; a greater key is refused. */
    method DecreaseKey(i: nat, key: CInt) returns (ok: bool)
      requires i <= size && Upto(i) <= list.Length && HeapOrdered(list[..Upto(i)])
      modifies list
      ensures ok <==> key <= old(list[i].key)
      ensures !ok ==> list[..] == old(list[..])
      ensures ok ==> HeapOrdered(list[..Upto(i)])
      ensures ok ==>
        multiset(list[..Upto(i)]) == multiset(old(list[..Upto(i)])[i := Entry(old(list[i].data), key)])
    {
      if key > list[i].key {
        return false;
      }
      ghost var n := Upto(i);
      list[i] := list[i].(key := key);
      ghost var s := list[..n];
      assert s == old(list[..n])[i := Entry(old(list[i].data), key)];
      var k := i;
      while k > 0 && list[Parent(k)].key > list[k].key
        invariant k < n
        invariant OrderedAbove(list[..n], k)
        invariant multiset(list[..n]) == multiset(s)
      {
        ghost var before := list[..n];
        Swap(k, Parent(k));
        assert list[..n] == Swapped(before, k, Parent(k));
        SwapKeepsMultiset(before, k, Parent(k));
        SiftUpStep(before, k);
        k := Parent(k);
      }
      return true;
    }
  }
}
