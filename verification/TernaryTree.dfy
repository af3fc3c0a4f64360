/** Ternary search trees as values, and the laws that make them a map. */
module TernaryTree {
  import opened Wrappers

  /** `mid` continues the keys that go through `key`; `left` and `right` hold alternatives for it. */
  datatype Tree<V> = Nil | Branch(key: char, data: Option<V>, left: Tree<V>, mid: Tree<V>, right: Tree<V>)

  function Put<V>(t: Tree<V>, key: string, el: Option<V>): Tree<V>
    requires key != ""
    decreases |key|, t
  {
    var n := if t.Nil? then Branch(key[0], None, Nil, Nil, Nil) else t;
    if key[0] < n.key then n.(left := Put(n.left, key, el))
    else if key[0] > n.key then n.(right := Put(n.right, key, el))
    else if |key| == 1 then n.(data := el)
    else n.(mid := Put(n.mid, key[1..], el))
  }

  function Nodes<V>(t: Tree<V>): nat {
    if t.Nil? then 0 else 1 + Nodes(t.left) + Nodes(t.mid) + Nodes(t.right)
  }

  function Get<V>(t: Tree<V>, key: string): Option<V>
    decreases t
  {
    if t.Nil? || key == "" then None
    else if key[0] < t.key then Get(t.left, key)
    else if key[0] > t.key then Get(t.right, key)
    else if |key| == 1 then t.data
    else Get(t.mid, key[1..])
  }

  predicate HasChild<V>(t: Tree<V>)
    requires t.Branch?
  {
    t.left.Branch? || t.mid.Branch? || t.right.Branch?
  }

  /** The nodes of a key exist; the removal of any other key dereferences a null pointer. */
  predicate HasPath<V>(t: Tree<V>, key: string)
    decreases t
  {
    t.Branch? && key != "" &&
    if key[0] < t.key then HasPath(t.left, key)
    else if key[0] > t.key then HasPath(t.right, key)
    else |key| == 1 || HasPath(t.mid, key[1..])
  }

  /** The tree without a key, and whether its root is of no more use. */
  function Remove<V>(t: Tree<V>, key: string): (r: (Tree<V>, bool))
    requires HasPath(t, key)
    ensures r.0.Branch? && r.0.key == t.key
    ensures r.1 ==> r.0.data.None? && !HasChild(r.0)
    decreases t
  {
    if key[0] < t.key then (t.(left := Remove(t.left, key).0), false)
    else if key[0] > t.key then (t.(right := Remove(t.right, key).0), false)
    else if |key| == 1 then
      if t.data.None? then (t, false)
      else
        var n := t.(data := None);
        (n, !HasChild(n))
    else
      var r := Remove(t.mid, key[1..]);
      if r.1 then
        var n := t.(mid := Nil);
        (n, n.data.None? && !HasChild(n))
      else (t.(mid := r.0), false)
  }

  // ---------- laws ----------

  lemma {:induction false} GetAfterPut<V>(t: Tree<V>, key: string, el: Option<V>, k: string)
    requires key != ""
    ensures Get(Put(t, key, el), k) == if k == key then el else Get(t, k)
    decreases |key|, t
  {
    var n := if t.Nil? then Branch(key[0], None, Nil, Nil, Nil) else t;
    assert Get(t, k) == Get(n, k);
    if key[0] < n.key {
      GetAfterPut(n.left, key, el, k);
    } else if key[0] > n.key {
      GetAfterPut(n.right, key, el, k);
    } else if |key| > 1 && k != "" {
      GetAfterPut(n.mid, key[1..], el, k[1..]);
      assert k[0] == key[0] && k[1..] == key[1..] ==> k == [key[0]] + key[1..] == key;
    }
  }

  lemma {:induction false} GetAfterRemove<V>(t: Tree<V>, key: string, k: string)
    requires HasPath(t, key)
    ensures Get(Remove(t, key).0, k) == if k == key then None else Get(t, k)
    decreases t
  {
    if key[0] < t.key {
      GetAfterRemove(t.left, key, k);
    } else if key[0] > t.key {
      GetAfterRemove(t.right, key, k);
    } else if |key| > 1 && k != "" {
      GetAfterRemove(t.mid, key[1..], k[1..]);
      assert k[0] == key[0] && k[1..] == key[1..] ==> k == [key[0]] + key[1..] == key;
      if Remove(t.mid, key[1..]).1 {
        NothingLeft(Remove(t.mid, key[1..]).0, k[1..]);
      }
    }
  }

  /** A node without data and children holds no key. */
  lemma NothingLeft<V>(t: Tree<V>, k: string)
    requires t.Branch? && t.data.None? && !HasChild(t)
    ensures Get(t, k).None?
  {
  }

  lemma {:induction false} PresentHasPath<V>(t: Tree<V>, key: string)
    requires Get(t, key).Some?
    ensures HasPath(t, key)
    decreases t
  {
    if key[0] < t.key {
      PresentHasPath(t.left, key);
    } else if key[0] > t.key {
      PresentHasPath(t.right, key);
    } else if |key| > 1 {
      PresentHasPath(t.mid, key[1..]);
    }
  }

  /** The characters a search may meet before it takes a `mid` link. */
  ghost function Level<V>(t: Tree<V>): set<char> {
    if t.Nil? then {} else {t.key} + Level(t.left) + Level(t.right)
  }

  /** On every level, smaller characters are to the left and greater ones to the right. */
  ghost predicate Ordered<V>(t: Tree<V>) {
    t.Branch? ==>
      && Ordered(t.left) && Ordered(t.mid) && Ordered(t.right)
      && (forall c :: c in Level(t.left) ==> c < t.key)
      && (forall c :: c in Level(t.right) ==> c > t.key)
  }

  lemma {:induction false} PutKeepsOrder<V>(t: Tree<V>, key: string, el: Option<V>)
    requires key != "" && Ordered(t)
    ensures Ordered(Put(t, key, el)) && Level(Put(t, key, el)) == Level(t) + {key[0]}
    decreases |key|, t
  {
    var n := if t.Nil? then Branch(key[0], None, Nil, Nil, Nil) else t;
    if key[0] < n.key {
      PutKeepsOrder(n.left, key, el);
    } else if key[0] > n.key {
      PutKeepsOrder(n.right, key, el);
    } else if |key| > 1 {
      PutKeepsOrder(n.mid, key[1..], el);
    }
  }

  lemma {:induction false} RemoveKeepsOrder<V>(t: Tree<V>, key: string)
    requires HasPath(t, key) && Ordered(t)
    ensures Ordered(Remove(t, key).0) && Level(Remove(t, key).0) == Level(t)
    decreases t
  {
    if key[0] < t.key {
      RemoveKeepsOrder(t.left, key);
    } else if key[0] > t.key {
      RemoveKeepsOrder(t.right, key);
    } else if |key| > 1 {
      RemoveKeepsOrder(t.mid, key[1..]);
    }
  }

  // ---------- the tree as a map ----------

  /** The tree finds exactly the keys of the map. */
  ghost predicate Represents<V>(t: Tree<V>, m: map<string, V>) {
    && Ordered(t)
    && forall k :: Get(t, k) == if k in m then Some(m[k]) else None
  }

  lemma NilRepresents<V>()
    ensures Represents<V>(Nil, map[])
  {
  }

  /** `put` is map update; putting a null pointer removes the key. */
  lemma PutRefines<V>(t: Tree<V>, m: map<string, V>, key: string, el: Option<V>)
    requires Represents(t, m) && key != ""
    ensures Represents(Put(t, key, el), if el.Some? then m[key := el.value] else m - {key})
  {
    PutKeepsOrder(t, key, el);
    forall k
      ensures Get(Put(t, key, el), k) == if k == key then el else Get(t, k)
    {
      GetAfterPut(t, key, el, k);
    }
  }

  /** The removal of a present key, or of the prefix of one, deletes exactly that key. */
  lemma RemoveRefines<V>(t: Tree<V>, m: map<string, V>, key: string)
    requires Represents(t, m) && HasPath(t, key)
    ensures Represents(Remove(t, key).0, m - {key})
  {
    RemoveKeepsOrder(t, key);
    forall k
      ensures Get(Remove(t, key).0, k) == if k == key then None else Get(t, k)
    {
      GetAfterRemove(t, key, k);
    }
  }
}
