/** The ordered map itself: a root link and an entry count that the mutating
    operations rewrite in place. */
module BstMap {
  import opened BstNodes

  /** The blocks of a post-order release log: the left subtree's pairs, the right
      subtree's, then the node's own. */
  lemma ReleaseOrder<T>(left: seq<T>, right: seq<T>, e: T)
    ensures (left + right + [e])[..|left|] == left
    ensures (left + right + [e])[|left|..|left| + |right|] == right
    ensures multiset(left + right + [e]) == multiset(left) + multiset(right) + multiset{e}
  {
    var s := left + right + [e];
    assert s[..|left|] == left;
    assert s[|left|..|left| + |right|] == right;
  }

  class BinarySearchTree<V> {
    /** `_root`: `Nil` stands for the null pointer. */
    var root: Tree<V>
    /** `_size`: the number of stored entries. */
    var size: nat

    /** The object invariant: the tree is ordered and `size` counts its nodes. */
    ghost predicate Valid()
      reads this
    {
      BST(root) && size == Count(root)
    }

    /** The abstract key-to-value map held by the tree. */
    ghost function Contents(): map<int, V>
      reads this
    {
      Map(root)
    }

    /** The default constructor: an empty map. */
    constructor ()
      ensures Valid() && root == Nil && size == 0 && Contents() == map[]
    {
      root := Nil;
      size := 0;
    }

    /** The copy constructor: a deep clone of `rhs`'s nodes and its size. */
    constructor Copy(rhs: BinarySearchTree<V>)
      requires rhs.Valid()
      ensures Valid() && root == rhs.root && size == rhs.size
      ensures Contents() == rhs.Contents()
    {
      root := Clone(rhs.root);
      size := rhs.size;
    }

    /** The move constructor: takes over `rhs`'s root and size and leaves `rhs` empty. */
    constructor Move(rhs: BinarySearchTree<V>)
      requires rhs.Valid()
      modifies rhs
      ensures Valid() && root == old(rhs.root) && size == old(rhs.size)
      ensures Contents() == old(rhs.Contents())
      ensures rhs.Valid() && rhs.root == Nil && rhs.size == 0 && rhs.Contents() == map[]
    {
      root := rhs.root;
      size := rhs.size;
      new;
      rhs.root := Nil;
      rhs.size := 0;
    }

    /** The pair with the smallest key; the map must not be empty. */
    function Min(): (e: Entry<V>)
      reads this
      requires Valid() && Contents() != map[]
      ensures e.key in Contents() && Contents()[e.key] == e.value
      ensures forall k :: k in Contents() ==> e.key <= k
    {
      MinNode(root).element
    }

    /** The pair with the largest key; the map must not be empty. */
    function Max(): (e: Entry<V>)
      reads this
      requires Valid() && Contents() != map[]
      ensures e.key in Contents() && Contents()[e.key] == e.value
      ensures forall k :: k in Contents() ==> k <= e.key
    {
      MaxNode(root).element
    }

    /** The pair stored at the root node; the map must not be empty. */
    function Root(): (e: Entry<V>)
      reads this
      requires Valid() && Contents() != map[]
      ensures e.key in Contents() && Contents()[e.key] == e.value
    {
      root.element
    }

    /** Whether `key` is stored. */
    function Contains(key: int): (b: bool)
      reads this
      requires Valid()
      ensures b <==> key in Contents()
    {
      BstNodes.Contains(key, root)
    }

    /** The value stored under `key`, which must be present. */
    function Find(key: int): (v: V)
      reads this
      requires Valid() && key in Contents()
      ensures v == Contents()[key]
    {
      FindNode(key, root).element.value
    }

    /** Whether the map holds no entry. */
    function Empty(): (b: bool)
      reads this
      ensures Valid() ==> (b <==> Contents() == map[])
      ensures Valid() ==> (b <==> root == Nil)
    {
      size == 0
    }

    /** The number of entries. */
    function Size(): (n: nat)
      reads this
      requires Valid()
      ensures n == |Contents()|
    {
      CountIsKeys(root);
      size
    }

    /** Releases every node and resets the count. */
    method Clear()
      modifies this
      ensures Valid() && root == Nil && size == 0 && Contents() == map[]
    {
      var freed;
      root, freed := ClearAt(root);
      size := 0;
    }

    /** Upsert: stores `x.value` under `x.key`, overwriting an existing value. */
    method Insert(x: Entry<V>)
      requires Valid()
      modifies this
      ensures Valid()
      ensures root == Inserted(x, old(root))
      ensures Contents() == old(Contents())[x.key := x.value]
      ensures size == if x.key in old(Contents()) then old(size) else old(size) + 1
      ensures forall k :: k in old(Contents()) || k == x.key ==> Path(k, root) == Path(k, old(root))
      ensures old(root) == Nil ==> root == Node(x, Nil, Nil)
      ensures old(root).Node? ==> root.Node? && root.element.key == old(root).element.key
      ensures old(root).Node? && x.key == old(root).element.key ==> root.element == x
      ensures old(root).Node? && x.key != old(root).element.key ==>
                root.element == old(root).element
      ensures old(root).Node? && x.key < old(root).element.key ==>
                root.left.Node? && root.right == old(root).right
      ensures old(root).Node? && old(root).element.key < x.key ==>
                root.right.Node? && root.left == old(root).left
    {
      root := InsertAt(x, root);
    }

    /** Removes `key` and its value when present; otherwise nothing changes. */
    method Erase(key: int)
      requires Valid()
      modifies this
      ensures Valid()
      ensures root == Erased(key, old(root))
      ensures Contents() == old(Contents()) - {key}
      ensures size == if key in old(Contents()) then old(size) - 1 else old(size)
      ensures key !in old(Contents()) ==> root == old(root)
      ensures forall k :: k in old(Contents()) && k !in Keys(FindNode(key, old(root))) ==>
                Path(k, root) == Path(k, old(root))
      ensures old(root).Node? && key != old(root).element.key ==>
                root.Node? && root.element == old(root).element
      ensures old(root).Node? && key < old(root).element.key ==> root.right == old(root).right
      ensures old(root).Node? && old(root).element.key < key ==> root.left == old(root).left
      ensures old(root).Node? && key == old(root).element.key && old(root).left.Nil? ==>
                root == old(root).right
      ensures old(root).Node? && key == old(root).element.key && old(root).right.Nil? ==>
                root == old(root).left
      ensures old(root).Node? && key == old(root).element.key &&
              old(root).left.Node? && old(root).right.Node? ==>
                root.Node? && root.element == MinNode(old(root).right).element &&
                root.left == old(root).left
    {
      root := EraseAt(key, root);
    }

    /** Copy assignment: unless `rhs` is this very map, releases the old nodes and
        takes a deep clone of `rhs`'s nodes and its size. */
    method CopyAssign(rhs: BinarySearchTree<V>)
      requires Valid() && rhs.Valid()
      modifies this
      ensures Valid() && root == old(rhs.root) && size == old(rhs.size)
      ensures Contents() == old(rhs.Contents())
    {
      if this != rhs {
        Clear();
        root := Clone(rhs.root);
        size := rhs.size;
      }
    }

    /** Move assignment: unless `rhs` is this very map, releases the old nodes, takes
        over `rhs`'s root and size, and leaves `rhs` empty. */
    method MoveAssign(rhs: BinarySearchTree<V>)
      requires Valid() && rhs.Valid()
      modifies this, rhs
      ensures Valid() && root == old(rhs.root) && size == old(rhs.size)
      ensures Contents() == old(rhs.Contents())
      ensures rhs.Valid()
      ensures rhs != this ==> rhs.root == Nil && rhs.size == 0
    {
      if this != rhs {
        Clear();
        root := rhs.root;
        size := rhs.size;
        rhs.root := Nil;
        rhs.size := 0;
      }
    }

    /** The private recursive insert. The link `t` is passed in and its new value
        returned; reaching an absent position creates a leaf and counts it. */
    method InsertAt(x: Entry<V>, t: Tree<V>) returns (t': Tree<V>)
      requires BST(t)
      modifies this`size
      ensures t' == Inserted(x, t)
      ensures BST(t')
      ensures Map(t') == Map(t)[x.key := x.value]
      ensures x.key in Keys(t) ==> Count(t') == Count(t) && size == old(size)
      ensures x.key !in Keys(t) ==> Count(t') == Count(t) + 1 && size == old(size) + 1
      ensures forall k :: k in Keys(t) || k == x.key ==> Path(k, t') == Path(k, t)
      ensures t == Nil ==> t' == Node(x, Nil, Nil)
      ensures t.Node? ==> t'.Node? && t'.element.key == t.element.key
      ensures t.Node? && x.key == t.element.key ==> t'.element == x
      ensures t.Node? && x.key != t.element.key ==> t'.element == t.element
      ensures t.Node? && x.key < t.element.key ==> t'.left.Node? && t'.right == t.right
      ensures t.Node? && t.element.key < x.key ==> t'.right.Node? && t'.left == t.left
      decreases t
    {
      if t == Nil {
        size := size + 1;
        t' := Node(x, Nil, Nil);
      } else if x.key == t.element.key {
        t' := t.(element := x);
      } else if x.key < t.element.key {
        var l := InsertAt(x, t.left);
        t' := t.(left := l);
        assert x.key in Keys(t) <==> x.key in Keys(t.left) by {
          assert forall k :: k in Keys(t.right) ==> t.element.key < k;
        }
      } else {
        var r := InsertAt(x, t.right);
        t' := t.(right := r);
        assert x.key in Keys(t) <==> x.key in Keys(t.right) by {
          assert forall k :: k in Keys(t.left) ==> k < t.element.key;
        }
      }
      InsertedIsUpsert(x, t);
      forall k | k in Keys(t) || k == x.key ensures Path(k, t') == Path(k, t) {
        InsertedKeepsPaths(x, t, k);
      }
    }

    /** The private recursive erase, with the three removal cases. A node with two
        children takes its in-order successor's pair, and the successor is then erased
        from the right subtree, where the single decrement of `size` happens. */
    method EraseAt(key: int, t: Tree<V>) returns (t': Tree<V>)
      requires BST(t) && Count(t) <= size
      modifies this`size
      ensures t' == Erased(key, t)
      ensures BST(t')
      ensures Map(t') == Map(t) - {key}
      ensures key in Keys(t) ==> Count(t') == Count(t) - 1 && size == old(size) - 1
      ensures key !in Keys(t) ==> t' == t && size == old(size)
      ensures forall k :: k in Keys(t) && k !in Keys(FindNode(key, t)) ==>
                Path(k, t') == Path(k, t)
      ensures t.Node? && key != t.element.key ==> t'.Node? && t'.element == t.element
      ensures t.Node? && key < t.element.key ==> t'.right == t.right
      ensures t.Node? && t.element.key < key ==> t'.left == t.left
      ensures t.Node? && key == t.element.key && t.left.Nil? ==> t' == t.right
      ensures t.Node? && key == t.element.key && t.right.Nil? ==> t' == t.left
      ensures t.Node? && key == t.element.key && t.left.Node? && t.right.Node? ==>
                t'.Node? && t'.element == MinNode(t.right).element && t'.left == t.left
      decreases t
    {
      ErasedIsRemoval(key, t);
      if t == Nil {
        t' := t;
      } else if key < t.element.key {
        var l := EraseAt(key, t.left);
        t' := t.(left := l);
        assert key in Keys(t) <==> key in Keys(t.left) by {
          assert forall k :: k in Keys(t.right) ==> t.element.key < k;
        }
      } else if t.element.key < key {
        var r := EraseAt(key, t.right);
        t' := t.(right := r);
        assert key in Keys(t) <==> key in Keys(t.right) by {
          assert forall k :: k in Keys(t.left) ==> k < t.element.key;
        }
      } else if t.left == Nil && t.right == Nil {
        size := size - 1;
        t' := Nil;
      } else if t.left == Nil {
        size := size - 1;
        t' := t.right;
      } else if t.right == Nil {
        size := size - 1;
        t' := t.left;
      } else {
        var successor := MinNode(t.right).element;
        var r := EraseAt(MinNode(t.right).element.key, t.right);
        t' := Node(successor, t.left, r);
      }
      forall k | k in Keys(t) && k !in Keys(FindNode(key, t)) ensures Path(k, t') == Path(k, t) {
        ErasedKeepsPaths(key, t, k);
      }
    }

    /** The private recursive clear: releases the left subtree, then the right one,
        then the node itself, and nulls the link. `freed` lists the released pairs in
        that order. */
    method ClearAt(t: Tree<V>) returns (t': Tree<V>, freed: seq<Entry<V>>)
      ensures t' == Nil
      ensures freed == PostOrder(t)
      ensures multiset(freed) == Elements(t)
      ensures |freed| == Count(t)
      ensures t.Node? ==> freed[|freed| - 1] == t.element
      ensures t.Node? ==> multiset(freed[..Count(t.left)]) == Elements(t.left)
      ensures t.Node? ==> multiset(freed[Count(t.left)..|freed| - 1]) == Elements(t.right)
      decreases t
    {
      t' := Nil;
      match t
      case Nil =>
        freed := [];
      case Node(e, l, r) =>
        var _, freedLeft := ClearAt(l);
        var _, freedRight := ClearAt(r);
        freed := freedLeft + freedRight + [e];
        ReleaseOrder(freedLeft, freedRight, e);
    }
  }
}
