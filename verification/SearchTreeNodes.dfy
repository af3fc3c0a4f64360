/** The linked nodes of gnl_ternary_search_tree_t.c, changed in place. */
module SearchTreeNodes {
  import opened Wrappers
  import T = TernaryTree

  class Node<V> {
    var key: char
    var data: Option<V>
    var left: Node?<V>
    var mid: Node?<V>
    var right: Node?<V>

    /** The nodes of the subtree, and the subtree as a value. */
    ghost var repr: set<Node<V>>
    ghost var model: T.Tree<V>

    ghost predicate Valid()
      reads this, repr
      decreases repr
    {
      && this in repr
      && (left != null ==> left in repr && left.repr < repr && this !in left.repr && left.Valid())
      && (mid != null ==> mid in repr && mid.repr < repr && this !in mid.repr && mid.Valid())
      && (right != null ==> right in repr && right.repr < repr && this !in right.repr && right.Valid())
      && ReprOf(left) !! ReprOf(mid) && ReprOf(left) !! ReprOf(right) && ReprOf(mid) !! ReprOf(right)
      && model == T.Branch(key, data, ModelOf(left), ModelOf(mid), ModelOf(right))
    }

    constructor (key: char)
      ensures Valid() && fresh(repr) && model == T.Branch(key, None, T.Nil, T.Nil, T.Nil)
    {
      this.key, data, left, mid, right := key, None, null, null, null;
      repr := {this};
      model := T.Branch(key, None, T.Nil, T.Nil, T.Nil);
    }

    method HasChild() returns (b: bool)
      requires Valid()
      ensures b == T.HasChild(model)
    {
      if left != null {
        return true;
      }
      if mid != null {
        return true;
      }
      return right != null;
    }
  }

  ghost function ReprOf<V>(n: Node?<V>): set<Node<V>>
    reads n
  {
    if n == null then {} else n.repr
  }

  ghost function ModelOf<V>(n: Node?<V>): T.Tree<V>
    reads n
  {
    if n == null then T.Nil else n.model
  }

  ghost predicate ValidTree<V>(n: Node?<V>)
    reads n, ReprOf(n)
  {
    n == null || n.Valid()
  }

  ghost predicate IsChild<V>(n: Node<V>, c: Node?<V>)
    reads n, c, ReprOf(c)
  {
    c != null ==> c in c.repr && c.repr < n.repr && n !in c.repr && c.Valid()
  }

  /** What `Valid` says, without its recursion. */
  ghost predicate Parts<V>(n: Node<V>)
    reads n, ReprOf(n.left), ReprOf(n.mid), ReprOf(n.right), n.left, n.mid, n.right
  {
    && n in n.repr && IsChild(n, n.left) && IsChild(n, n.mid) && IsChild(n, n.right)
    && ReprOf(n.left) !! ReprOf(n.mid) && ReprOf(n.left) !! ReprOf(n.right) && ReprOf(n.mid) !! ReprOf(n.right)
    && n.model == T.Branch(n.key, n.data, ModelOf(n.left), ModelOf(n.mid), ModelOf(n.right))
  }

  lemma ValidParts<V>(n: Node<V>)
    ensures n.Valid() <==> Parts(n)
  {
  }

  /** How far a search for the character can go on the level of `t`. */
  ghost function Reach<V>(t: Node?<V>, c: char): nat
    reads t
  {
    if t == null || t.key == c then 0 else T.Nodes(t.model)
  }

  /** Puts an element below `t`; a missing node is added. */
  method PutNode<V>(t: Node?<V>, key: string, el: Option<V>) returns (n: Node<V>)
    requires ValidTree(t) && key != ""
    modifies ReprOf(t)
    ensures n.Valid() && n.model == T.Put(old(ModelOf(t)), key, el)
    ensures fresh(n.repr - old(ReprOf(t))) && (t != null ==> n == t) && n in n.repr
    decreases |key|, Reach(t, key[0]), 2
  {
    if t == null {
      n := new Node<V>(key[0]);
    } else {
      n := t;
    }
    PutAt(n, key, el);
  }

  method PutAt<V>(n: Node<V>, key: string, el: Option<V>)
    requires n.Valid() && key != ""
    modifies n.repr
    ensures n.Valid() && n.model == T.Put(old(n.model), key, el)
    ensures fresh(n.repr - old(n.repr))
    decreases |key|, Reach(n, key[0]), 1
  {
    if key[0] < n.key {
      PutLeft(n, key, el);
    } else if key[0] > n.key {
      PutRight(n, key, el);
    } else if |key| == 1 {
      n.data := el;
      n.model := n.model.(data := el);
    } else {
      PutMid(n, key, el);
    }
  }

  method SetLeft<V>(n: Node<V>, c: Node<V>)
    requires c.Valid() && c in c.repr && n !in c.repr && n in n.repr && n.model.Branch?
    requires IsChild(n, n.mid) && IsChild(n, n.right) && ReprOf(n.mid) !! ReprOf(n.right)
    requires c.repr !! ReprOf(n.mid) && c.repr !! ReprOf(n.right)
    requires n.model == T.Branch(n.key, n.data, n.model.left, ModelOf(n.mid), ModelOf(n.right))
    modifies n`left, n`repr, n`model
    ensures n.Valid() && n.model == old(n.model).(left := c.model) && n.repr == old(n.repr) + c.repr
  {
    hide Node.Valid;
    n.left := c;
    n.repr := n.repr + c.repr;
    n.model := n.model.(left := c.model);
    ValidParts(n);
  }

  method PutLeft<V>(n: Node<V>, key: string, el: Option<V>)
    requires n.Valid() && key != "" && key[0] < n.key
    modifies n.repr
    ensures n.Valid() && n.model == old(n.model).(left := T.Put(old(n.model).left, key, el))
    ensures fresh(n.repr - old(n.repr))
    decreases |key|, Reach(n, key[0]), 0
  {
    hide T.Put, Node.Valid;
    ValidParts(n);
    var c := PutNode(n.left, key, el);
    SetLeft(n, c);
  }

  method SetRight<V>(n: Node<V>, c: Node<V>)
    requires c.Valid() && c in c.repr && n !in c.repr && n in n.repr && n.model.Branch?
    requires IsChild(n, n.left) && IsChild(n, n.mid) && ReprOf(n.left) !! ReprOf(n.mid)
    requires c.repr !! ReprOf(n.left) && c.repr !! ReprOf(n.mid)
    requires n.model == T.Branch(n.key, n.data, ModelOf(n.left), ModelOf(n.mid), n.model.right)
    modifies n`right, n`repr, n`model
    ensures n.Valid() && n.model == old(n.model).(right := c.model) && n.repr == old(n.repr) + c.repr
  {
    hide Node.Valid;
    n.right := c;
    n.repr := n.repr + c.repr;
    n.model := n.model.(right := c.model);
    ValidParts(n);
  }

  method PutRight<V>(n: Node<V>, key: string, el: Option<V>)
    requires n.Valid() && key != "" && key[0] > n.key
    modifies n.repr
    ensures n.Valid() && n.model == old(n.model).(right := T.Put(old(n.model).right, key, el))
    ensures fresh(n.repr - old(n.repr))
    decreases |key|, Reach(n, key[0]), 0
  {
    hide T.Put, Node.Valid;
    ValidParts(n);
    var c := PutNode(n.right, key, el);
    SetRight(n, c);
  }

  method SetMid<V>(n: Node<V>, c: Node<V>)
    requires c.Valid() && c in c.repr && n !in c.repr && n in n.repr && n.model.Branch?
    requires IsChild(n, n.left) && IsChild(n, n.right) && ReprOf(n.left) !! ReprOf(n.right)
    requires c.repr !! ReprOf(n.left) && c.repr !! ReprOf(n.right)
    requires n.model == T.Branch(n.key, n.data, ModelOf(n.left), n.model.mid, ModelOf(n.right))
    modifies n`mid, n`repr, n`model
    ensures n.Valid() && n.model == old(n.model).(mid := c.model) && n.repr == old(n.repr) + c.repr
  {
    hide Node.Valid;
    n.mid := c;
    n.repr := n.repr + c.repr;
    n.model := n.model.(mid := c.model);
    ValidParts(n);
  }

  method PutMid<V>(n: Node<V>, key: string, el: Option<V>)
    requires n.Valid() && |key| > 1
    modifies n.repr
    ensures n.Valid() && n.model == old(n.model).(mid := T.Put(old(n.model).mid, key[1..], el))
    ensures fresh(n.repr - old(n.repr))
    decreases |key|, 0, 0
  {
    hide T.Put, Node.Valid;
    ValidParts(n);
    var c := PutNode(n.mid, key[1..], el);
    SetMid(n, c);
  }

  method GetNode<V>(t: Node?<V>, key: string) returns (r: Option<V>)
    requires ValidTree(t)
    ensures r == T.Get(ModelOf(t), key)
    decreases ModelOf(t)
  {
    if t == null || key == "" {
      return None;
    }
    if key[0] < t.key {
      r := GetNode(t.left, key);
    } else if key[0] > t.key {
      r := GetNode(t.right, key);
    } else if |key| == 1 {
      r := t.data;
    } else {
      r := GetNode(t.mid, key[1..]);
    }
  }

  /** Removes a key below `t`, and says whether the node `t` is of no more use. */
  method RemoveNode<V>(t: Node<V>, key: string) returns (useless: bool)
    requires t.Valid() && T.HasPath(t.model, key)
    modifies t.repr
    ensures t.Valid() && t.repr == old(t.repr) && (t.model, useless) == T.Remove(old(t.model), key)
    decreases t.model, 1
  {
    if key[0] < t.key {
      RemoveLeft(t, key);
      return false;
    } else if key[0] > t.key {
      RemoveRight(t, key);
      return false;
    } else if |key| == 1 {
      useless := ClearData(t);
    } else {
      useless := RemoveMid(t, key);
    }
  }

  method ClearData<V>(t: Node<V>) returns (useless: bool)
    requires t.Valid()
    modifies t`data, t`model
    ensures t.Valid() && t.model == old(t.model).(data := None)
    ensures useless <==> old(t.model).data.Some? && !T.HasChild(t.model)
  {
    if t.data.None? {
      return false;
    }
    hide Node.Valid;
    ValidParts(t);
    t.data := None;
    t.model := t.model.(data := None);
    ValidParts(t);
    var child := t.HasChild();
    return !child;
  }

  method RemoveLeft<V>(t: Node<V>, key: string)
    requires t.Valid() && t.model.left.Branch? && T.HasPath(t.model.left, key)
    modifies t.repr
    ensures t.Valid() && t.repr == old(t.repr)
    ensures t.model == old(t.model).(left := T.Remove(old(t.model).left, key).0)
    decreases t.model, 0
  {
    hide T.Remove, T.HasPath, Node.Valid;
    ValidParts(t);
    var c := t.left;
    var useless := RemoveNode(c, key);
    SetLeft(t, c);
  }

  method RemoveRight<V>(t: Node<V>, key: string)
    requires t.Valid() && t.model.right.Branch? && T.HasPath(t.model.right, key)
    modifies t.repr
    ensures t.Valid() && t.repr == old(t.repr)
    ensures t.model == old(t.model).(right := T.Remove(old(t.model).right, key).0)
    decreases t.model, 0
  {
    hide T.Remove, T.HasPath, Node.Valid;
    ValidParts(t);
    var c := t.right;
    var useless := RemoveNode(c, key);
    SetRight(t, c);
  }

  /** Removes the rest of a key; a node of no more use is cut off. */
  method RemoveMid<V>(t: Node<V>, key: string) returns (useless: bool)
    requires t.Valid() && |key| > 1 && t.model.mid.Branch? && T.HasPath(t.model.mid, key[1..])
    modifies t.repr
    ensures t.Valid() && t.repr == old(t.repr)
    ensures var r := T.Remove(old(t.model).mid, key[1..]);
            && t.model == old(t.model).(mid := if r.1 then T.Nil else r.0)
            && (useless <==> r.1 && t.model.data.None? && !T.HasChild(t.model))
    decreases t.model, 0
  {
    hide T.Remove, T.HasPath, Node.Valid;
    ValidParts(t);
    var c := t.mid;
    var cut := RemoveNode(c, key[1..]);
    SetMid(t, c);
    if !cut {
      return false;
    }
    CutMid(t);
    var child := t.HasChild();
    return t.data == None && !child;
  }

  method CutMid<V>(t: Node<V>)
    requires t.Valid()
    modifies t`mid, t`model
    ensures t.Valid() && t.model == old(t.model).(mid := T.Nil)
  {
    hide Node.Valid;
    ValidParts(t);
    t.mid := null;
    t.model := t.model.(mid := T.Nil);
    ValidParts(t);
  }

  /** The tree as its users see it: a map from keys to elements. */
  class SearchTree<V> {
    var root: Node?<V>
    ghost var contents: map<string, V>

    ghost predicate Valid()
      reads this, root, ReprOf(root)
    {
      ValidTree(root) && T.Represents(ModelOf(root), contents)
    }

    constructor ()
      ensures Valid() && contents == map[] && root == null
    {
      root, contents := null, map[];
      new;
      T.NilRepresents<V>();
    }

    /** An empty key is refused; a missing element takes the key out. */
    method Put(key: string, el: Option<V>) returns (ok: bool)
      requires Valid()
      modifies this, ReprOf(root)
      ensures Valid() && (ok <==> key != "")
      ensures contents ==
        if !ok then old(contents) else if el.Some? then old(contents)[key := el.value] else old(contents) - {key}
    {
      hide Node.Valid, T.Put, T.Represents;
      if key == "" {
        return false;
      }
      ghost var was := ModelOf(root);
      root := PutNode(root, key, el);
      T.PutRefines(was, contents, key, el);
      contents := if el.Some? then contents[key := el.value] else contents - {key};
      return true;
    }

    method Get(key: string) returns (r: Option<V>)
      requires Valid()
      ensures r == if key in contents then Some(contents[key]) else None
    {
      r := GetNode(root, key);
    }

    /** Removes a key; the empty tree refuses. */
    method Remove(key: string) returns (ok: bool)
      requires Valid() && (root == null || T.HasPath(ModelOf(root), key))
      modifies this, ReprOf(root)
      ensures Valid() && (ok <==> old(root) != null)
      ensures contents == if ok then old(contents) - {key} else old(contents)
    {
      hide Node.Valid, T.Remove, T.HasPath, T.Represents;
      if root == null {
        return false;
      }
      T.RemoveRefines(root.model, contents, key);
      var useless := RemoveNode(root, key);
      contents := contents - {key};
      return true;
    }

    /** Removes a key that can be found; no null link is followed. */
    method RemovePresent(key: string) returns (ok: bool)
      requires Valid() && key in contents
      modifies this, ReprOf(root)
      ensures Valid() && ok && contents == old(contents) - {key}
    {
      PresentCanBeRemoved(key);
      ok := Remove(key);
    }

    /** A key that can be found has a path in the tree. */
    lemma PresentCanBeRemoved(key: string)
      requires Valid() && key in contents
      ensures root != null && T.HasPath(ModelOf(root), key)
    {
      T.PresentHasPath(ModelOf(root), key);
    }
  }
}
