/** Nodes of the unbalanced binary search tree, the abstract map they stand for, and
    the read-only recursion over them (find, contains, min, max, clone). Keys are
    fixed to `int` ordered by `<`; values are of any type. */
module BstNodes {

  /** The `std::pair<K, V>` a node holds. */
  datatype Entry<V> = Entry(key: int, value: V)

  /** A subtree. `Nil` is the null node pointer; a `Node` owns its two children. */
  datatype Tree<V> = Nil | Node(element: Entry<V>, left: Tree<V>, right: Tree<V>)

  /** The keys stored in a subtree. */
  ghost function Keys<V>(t: Tree<V>): set<int>
  {
    match t
    case Nil => {}
    case Node(e, l, r) => Keys(l) + Keys(r) + {e.key}
  }

  /** The key-to-value map a subtree stands for; its domain is exactly its key set. */
  ghost function Map<V>(t: Tree<V>): (m: map<int, V>)
    ensures m.Keys == Keys(t)
  {
    match t
    case Nil => map[]
    case Node(e, l, r) => (Map(l) + Map(r))[e.key := e.value]
  }

  /** The number of nodes reachable from `t`, which is what `_size` counts. */
  function Count<V>(t: Tree<V>): nat
  {
    match t
    case Nil => 0
    case Node(_, l, r) => Count(l) + Count(r) + 1
  }

  /** Binary-search-tree ordering: every key of a left subtree is smaller than the
      node's key and every key of a right subtree is larger. */
  ghost predicate BST<V>(t: Tree<V>)
  {
    match t
    case Nil => true
    case Node(e, l, r) =>
      && BST(l) && BST(r)
      && (forall k :: k in Keys(l) ==> k < e.key)
      && (forall k :: k in Keys(r) ==> e.key < k)
  }

  /** In an ordered tree no key occurs twice, so the node count is the number of
      distinct keys, which is the size of the abstract map. */
  lemma {:induction false} CountIsKeys<V>(t: Tree<V>)
    requires BST(t)
    ensures Count(t) == |Keys(t)| == |Map(t)|
  {
    match t
    case Nil =>
    case Node(e, l, r) =>
      CountIsKeys(l);
      CountIsKeys(r);
      assert Keys(l) !! Keys(r) by {
        forall k | k in Keys(l) ensures k !in Keys(r) {
          assert k < e.key;
        }
      }
      assert e.key !in Keys(l) + Keys(r);
      assert |Keys(l) + Keys(r)| == |Keys(l)| + |Keys(r)|;
      assert |Map(t).Keys| == |Map(t)|;
  }

  /** Map algebra behind a node's map `(ml + mr)[k := v]` when one child's map gains
      the key `x` that the other child lacks. */
  lemma UpdateUnion<V>(ml: map<int, V>, mr: map<int, V>, k: int, v: V, x: int, w: V)
    requires x != k
    ensures x !in mr ==> (ml[x := w] + mr)[k := v] == (ml + mr)[k := v][x := w]
    ensures (ml + mr[x := w])[k := v] == (ml + mr)[k := v][x := w]
  {
    if x !in mr {
      var a, b := (ml[x := w] + mr)[k := v], (ml + mr)[k := v][x := w];
      assert a.Keys == b.Keys;
      forall y | y in a ensures a[y] == b[y] {
      }
    }
    var a, b := (ml + mr[x := w])[k := v], (ml + mr)[k := v][x := w];
    assert a.Keys == b.Keys;
    forall y | y in a ensures a[y] == b[y] {
    }
  }

  /** Map algebra behind a node's map `(ml + mr)[k := v]` when one child's map loses
      the key `x` that the other child lacks. */
  lemma RemoveUnion<V>(ml: map<int, V>, mr: map<int, V>, k: int, v: V, x: int)
    requires x != k
    ensures x !in mr ==> ((ml - {x}) + mr)[k := v] == (ml + mr)[k := v] - {x}
    ensures x !in ml ==> (ml + (mr - {x}))[k := v] == (ml + mr)[k := v] - {x}
  {
    if x !in mr {
      var a, b := ((ml - {x}) + mr)[k := v], (ml + mr)[k := v] - {x};
      assert a.Keys == b.Keys;
      forall y | y in a ensures a[y] == b[y] {
      }
    }
    if x !in ml {
      var a, b := (ml + (mr - {x}))[k := v], (ml + mr)[k := v] - {x};
      assert a.Keys == b.Keys;
      forall y | y in a ensures a[y] == b[y] {
      }
    }
  }

  /** Map algebra behind the two-children case of erase: `m` is in `mr`, not in `ml`,
      and replaces the node key `k`, which is in neither child. */
  lemma SuccessorUnion<V>(ml: map<int, V>, mr: map<int, V>, k: int, v: V, m: int)
    requires k !in ml && k !in mr && m !in ml && m in mr
    ensures (ml + (mr - {m}))[m := mr[m]] == (ml + mr)[k := v] - {k}
  {
    var a, b := (ml + (mr - {m}))[m := mr[m]], (ml + mr)[k := v] - {k};
    assert a.Keys == b.Keys;
    forall y | y in a ensures a[y] == b[y] {
    }
  }

  /** Replacing the left child by one that maps one more key below the node's key keeps
      the order and updates the node's map by that key. */
  lemma UpdateLeft<V>(e: Entry<V>, l: Tree<V>, r: Tree<V>, l': Tree<V>, x: Entry<V>)
    requires BST(Node(e, l, r)) && BST(l') && x.key < e.key
    requires Map(l') == Map(l)[x.key := x.value]
    ensures BST(Node(e, l', r))
    ensures Map(Node(e, l', r)) == Map(Node(e, l, r))[x.key := x.value]
  {
    assert Keys(l') == Keys(l) + {x.key};
    assert x.key !in Keys(r) by {
      assert forall k :: k in Keys(r) ==> e.key < k;
    }
    UpdateUnion(Map(l), Map(r), e.key, e.value, x.key, x.value);
  }

  /** The mirror image of `UpdateLeft` for a key above the node's key. */
  lemma UpdateRight<V>(e: Entry<V>, l: Tree<V>, r: Tree<V>, r': Tree<V>, x: Entry<V>)
    requires BST(Node(e, l, r)) && BST(r') && e.key < x.key
    requires Map(r') == Map(r)[x.key := x.value]
    ensures BST(Node(e, l, r'))
    ensures Map(Node(e, l, r')) == Map(Node(e, l, r))[x.key := x.value]
  {
    assert Keys(r') == Keys(r) + {x.key};
    UpdateUnion(Map(l), Map(r), e.key, e.value, x.key, x.value);
  }

  /** Replacing the left child by one with a key below the node's key removed keeps the
      order and removes that key from the node's map. */
  lemma RemoveLeft<V>(e: Entry<V>, l: Tree<V>, r: Tree<V>, l': Tree<V>, key: int)
    requires BST(Node(e, l, r)) && BST(l') && key < e.key
    requires Map(l') == Map(l) - {key}
    ensures BST(Node(e, l', r))
    ensures Map(Node(e, l', r)) == Map(Node(e, l, r)) - {key}
  {
    assert Keys(l') == Keys(l) - {key};
    assert key !in Keys(r) by {
      assert forall k :: k in Keys(r) ==> e.key < k;
    }
    RemoveUnion(Map(l), Map(r), e.key, e.value, key);
  }

  /** The mirror image of `RemoveLeft` for a key above the node's key. */
  lemma RemoveRight<V>(e: Entry<V>, l: Tree<V>, r: Tree<V>, r': Tree<V>, key: int)
    requires BST(Node(e, l, r)) && BST(r') && e.key < key
    requires Map(r') == Map(r) - {key}
    ensures BST(Node(e, l, r'))
    ensures Map(Node(e, l, r')) == Map(Node(e, l, r)) - {key}
  {
    assert Keys(r') == Keys(r) - {key};
    assert key !in Keys(l) by {
      assert forall k :: k in Keys(l) ==> k < e.key;
    }
    RemoveUnion(Map(l), Map(r), e.key, e.value, key);
  }

  /** Removing a node's own key leaves the union of its children's maps. */
  lemma RemoveOwnKey<V>(e: Entry<V>, l: Tree<V>, r: Tree<V>)
    requires BST(Node(e, l, r))
    ensures Map(Node(e, l, r)) - {e.key} == Map(l) + Map(r)
  {
    assert forall k :: k in Keys(l) ==> k < e.key;
    assert forall k :: k in Keys(r) ==> e.key < k;
    var ml, mr := Map(l), Map(r);
    var a, b := (ml + mr)[e.key := e.value] - {e.key}, ml + mr;
    assert a == b by {
      assert a.Keys == b.Keys;
      forall k | k in a ensures a[k] == b[k] {
      }
    }
  }

  /** The two-children case of erase: the node takes the pair of the smallest node of
      its right subtree `r`, and `r'` is `r` without that key. The result is ordered and
      maps exactly what the node mapped, minus the node's own key. */
  lemma ReplaceBySuccessor<V>(e: Entry<V>, l: Tree<V>, r: Tree<V>, r': Tree<V>)
    requires BST(Node(e, l, r)) && r.Node? && BST(r')
    requires Map(r') == Map(r) - {MinNode(r).element.key}
    ensures BST(Node(MinNode(r).element, l, r'))
    ensures Map(Node(MinNode(r).element, l, r')) == Map(Node(e, l, r)) - {e.key}
  {
    var m := MinNode(r).element;
    assert Keys(r') == Keys(r) - {m.key};
    assert forall k :: k in Keys(l) ==> k < e.key;
    assert forall k :: k in Keys(r) ==> e.key < k;
    assert m.key !in Keys(l) && e.key !in Keys(l) && e.key !in Keys(r);
    SuccessorUnion(Map(l), Map(r), e.key, e.value, m.key);
  }

  /** Descends by comparison as the private `find` does: the node holding `key`, or
      `Nil` (the null pointer) when the descent falls off the tree. On an ordered tree
      the node is found exactly when the key is present, and it carries the key's value. */
  function FindNode<V>(key: int, t: Tree<V>): (found: Tree<V>)
    ensures found.Nil? || found.element.key == key
    ensures BST(t) ==> (found.Node? <==> key in Keys(t))
    ensures BST(t) && found.Node? ==> key in Map(t) && found.element.value == Map(t)[key]
  {
    match t
    case Nil => Nil
    case Node(e, l, r) =>
      if key < e.key then FindNode(key, l)
      else if e.key < key then FindNode(key, r)
      else t
  }

  /** True exactly when `find` yields a node, that is, on an ordered tree, exactly when
      the key is present. */
  function Contains<V>(key: int, t: Tree<V>): (b: bool)
    ensures BST(t) ==> (b <==> key in Keys(t))
  {
    FindNode(key, t) != Nil
  }

  /** The leftmost node of a non-empty subtree (the recursive result is returned). On an
      ordered tree it holds the smallest key, with that key's value. */
  function MinNode<V>(t: Tree<V>): (m: Tree<V>)
    requires t.Node?
    ensures m.Node? && m.left.Nil?
    ensures m.element.key in Keys(t)
    ensures BST(t) ==> Map(t)[m.element.key] == m.element.value
    ensures BST(t) ==> forall k :: k in Keys(t) ==> m.element.key <= k
  {
    if t.left.Nil? then t else MinNode(t.left)
  }

  /** The rightmost node of a non-empty subtree (the recursive result is returned). On an
      ordered tree it holds the largest key, with that key's value. */
  function MaxNode<V>(t: Tree<V>): (m: Tree<V>)
    requires t.Node?
    ensures m.Node? && m.right.Nil?
    ensures m.element.key in Keys(t)
    ensures BST(t) ==> Map(t)[m.element.key] == m.element.value
    ensures BST(t) ==> forall k :: k in Keys(t) ==> k <= m.element.key
  {
    if t.right.Nil? then t else MaxNode(t.right)
  }

  /** Deep copy of a subtree: the copy has the same shape and the same pairs as the
      original. The order in which the nodes are copied is not modelled. */
  function Clone<V>(t: Tree<V>): (c: Tree<V>)
    ensures c == t
  {
    match t
    case Nil => Nil
    case Node(e, l, r) => Node(e, Clone(l), Clone(r))
  }

  /** The pairs held by the nodes of a subtree, one per node. */
  ghost function Elements<V>(t: Tree<V>): multiset<Entry<V>>
  {
    match t
    case Nil => multiset{}
    case Node(e, l, r) => Elements(l) + Elements(r) + multiset{e}
  }

  /** The pairs in the order a post-order walk visits them: the left subtree's, the
      right subtree's, then the node's own. */
  ghost function PostOrder<V>(t: Tree<V>): seq<Entry<V>>
  {
    match t
    case Nil => []
    case Node(e, l, r) => PostOrder(l) + PostOrder(r) + [e]
  }

  /** The turns (`false` for left, `true` for right) that a search for `k` takes from
      the top of `t` before it stops at the node holding `k` or falls off the tree. For
      a stored key of an ordered tree this is the position of the key's node. */
  ghost function Path<V>(k: int, t: Tree<V>): seq<bool>
  {
    match t
    case Nil => []
    case Node(e, l, r) =>
      if k < e.key then [false] + Path(k, l)
      else if e.key < k then [true] + Path(k, r)
      else []
  }

  /** The subtree that upserting `x` into `t` yields: the search for `x.key` is
      followed, the node holding the key takes `x`, or the null link where the search
      falls off becomes a leaf; every link off the search path is kept. */
  ghost function Inserted<V>(x: Entry<V>, t: Tree<V>): Tree<V>
  {
    match t
    case Nil => Node(x, Nil, Nil)
    case Node(e, l, r) =>
      if x.key == e.key then Node(x, l, r)
      else if x.key < e.key then Node(e, Inserted(x, l), r)
      else Node(e, l, Inserted(x, r))
  }

  /** The subtree that erasing `key` from `t` yields: the search for `key` is followed
      and, when it reaches the key's node, that node is removed by the three-case
      policy (splice in the only child, or null; or take the in-order successor's pair
      and erase the successor from the right subtree). Every other link is kept. */
  ghost function Erased<V>(key: int, t: Tree<V>): Tree<V>
    decreases t
  {
    match t
    case Nil => Nil
    case Node(e, l, r) =>
      if key < e.key then Node(e, Erased(key, l), r)
      else if e.key < key then Node(e, l, Erased(key, r))
      else if l.Nil? then r
      else if r.Nil? then l
      else Node(MinNode(r).element, l, Erased(MinNode(r).element.key, r))
  }

  /** Upsert on an ordered tree: the result is ordered, maps the old entries updated at
      `x.key`, and has one node more exactly when the key was absent. */
  lemma {:induction false} InsertedIsUpsert<V>(x: Entry<V>, t: Tree<V>)
    requires BST(t)
    ensures BST(Inserted(x, t))
    ensures Map(Inserted(x, t)) == Map(t)[x.key := x.value]
    ensures Count(Inserted(x, t)) == if x.key in Keys(t) then Count(t) else Count(t) + 1
  {
    match t
    case Nil =>
    case Node(e, l, r) =>
      if x.key == e.key {
        assert Map(Inserted(x, t)) == Map(t)[x.key := x.value] by {
          var a, b := Map(Inserted(x, t)), Map(t)[x.key := x.value];
          assert a.Keys == b.Keys;
          forall k | k in a ensures a[k] == b[k] {
          }
        }
      } else if x.key < e.key {
        InsertedIsUpsert(x, l);
        UpdateLeft(e, l, r, Inserted(x, l), x);
        assert x.key in Keys(t) <==> x.key in Keys(l) by {
          assert forall k :: k in Keys(r) ==> e.key < k;
        }
      } else {
        InsertedIsUpsert(x, r);
        UpdateRight(e, l, r, Inserted(x, r), x);
        assert x.key in Keys(t) <==> x.key in Keys(r) by {
          assert forall k :: k in Keys(l) ==> k < e.key;
        }
      }
  }

  /** Upsert moves no node: every stored key is still reached by the same turns, and
      the new key sits where the search for it used to fall off the tree. */
  lemma {:induction false} InsertedKeepsPaths<V>(x: Entry<V>, t: Tree<V>, k: int)
    requires BST(t) && (k in Keys(t) || k == x.key)
    ensures Path(k, Inserted(x, t)) == Path(k, t)
  {
    match t
    case Nil =>
    case Node(e, l, r) =>
      if k < e.key && x.key < e.key {
        assert k in Keys(l) || k == x.key by {
          assert forall j :: j in Keys(r) ==> e.key < j;
        }
        InsertedKeepsPaths(x, l, k);
      } else if e.key < k && e.key < x.key {
        assert k in Keys(r) || k == x.key by {
          assert forall j :: j in Keys(l) ==> j < e.key;
        }
        InsertedKeepsPaths(x, r, k);
      }
  }

  /** Erase on an ordered tree: the result is ordered, maps the old entries minus `key`,
      has one node fewer exactly when the key was present, and is the very same tree
      when it was absent. */
  lemma {:induction false} ErasedIsRemoval<V>(key: int, t: Tree<V>)
    requires BST(t)
    ensures BST(Erased(key, t))
    ensures Map(Erased(key, t)) == Map(t) - {key}
    ensures Count(Erased(key, t)) == if key in Keys(t) then Count(t) - 1 else Count(t)
    ensures key !in Keys(t) ==> Erased(key, t) == t
    decreases t
  {
    match t
    case Nil =>
    case Node(e, l, r) =>
      if key < e.key {
        ErasedIsRemoval(key, l);
        RemoveLeft(e, l, r, Erased(key, l), key);
        assert key in Keys(t) <==> key in Keys(l) by {
          assert forall k :: k in Keys(r) ==> e.key < k;
        }
      } else if e.key < key {
        ErasedIsRemoval(key, r);
        RemoveRight(e, l, r, Erased(key, r), key);
        assert key in Keys(t) <==> key in Keys(r) by {
          assert forall k :: k in Keys(l) ==> k < e.key;
        }
      } else if l.Nil? || r.Nil? {
        RemoveOwnKey(e, l, r);
      } else {
        var m := MinNode(r).element.key;
        ErasedIsRemoval(m, r);
        ReplaceBySuccessor(e, l, r, Erased(m, r));
      }
  }

  /** Erase moves no node outside the erased key's subtree: every stored key that does
      not lie below the matched node is still reached by the same turns. */
  lemma {:induction false} ErasedKeepsPaths<V>(key: int, t: Tree<V>, k: int)
    requires BST(t) && k in Keys(t) && k !in Keys(FindNode(key, t))
    ensures Path(k, Erased(key, t)) == Path(k, t)
  {
    match t
    case Nil =>
    case Node(e, l, r) =>
      if key < e.key && k < e.key {
        assert k in Keys(l) by {
          assert forall j :: j in Keys(r) ==> e.key < j;
        }
        ErasedKeepsPaths(key, l, k);
      } else if e.key < key && e.key < k {
        assert k in Keys(r) by {
          assert forall j :: j in Keys(l) ==> j < e.key;
        }
        ErasedKeepsPaths(key, r, k);
      }
  }
}
