/** A client of the map that relies on the contracts alone: they fix both the entries
    and the shape of the tree after typical call sequences. */
module BstScenarios {
  import opened BstNodes
  import opened BstMap

  method InsertAndQuery()
  {
    var m := new BinarySearchTree<string>();
    m.Insert(Entry(5, "a"));
    m.Insert(Entry(3, "b"));
    m.Insert(Entry(8, "c"));
    assert m.Contents() == map[5 := "a", 3 := "b", 8 := "c"];
    assert m.size == 3 && m.Find(3) == "b";
    ExtremesOf(m);
  }

  method ExtremesOf(m: BinarySearchTree<string>)
    requires m.Valid() && m.Contents() == map[5 := "a", 3 := "b", 8 := "c"]
  {
    assert 3 in m.Contents() && 8 in m.Contents();
    var least := m.Min();
    assert least.key <= 3 && least.key in {5, 3, 8};
    assert least == Entry(3, "b");
    var greatest := m.Max();
    assert 8 <= greatest.key && greatest.key in {5, 3, 8};
    assert greatest == Entry(8, "c");
  }

  method EraseNodeWithTwoChildren()
  {
    var m := new BinarySearchTree<string>();
    m.Insert(Entry(5, "a"));
    m.Insert(Entry(3, "b"));
    m.Insert(Entry(8, "c"));
    assert m.Contents() == map[5 := "a", 3 := "b", 8 := "c"];
    // 5 has two children here; erasing it removes exactly one entry.
    m.Erase(5);
    assert m.size == 2 && !m.Contains(5);
    assert m.Find(3) == "b" && m.Find(8) == "c";
    // The matched root stays in place and takes its in-order successor's pair.
    assert m.Root() == Entry(8, "c");
    // Erasing an absent key changes nothing.
    m.Erase(42);
    assert m.size == 2;
  }

  method OverwriteThenEraseAll()
  {
    var m := new BinarySearchTree<string>();
    m.Insert(Entry(1, "x"));
    m.Insert(Entry(1, "y"));
    assert m.Contents() == map[1 := "y"];
    assert m.size == 1 && m.Find(1) == "y";
    m.Erase(1);
    assert m.Empty();
  }

  method CopyIsIndependent()
  {
    var a := new BinarySearchTree<int>();
    a.Insert(Entry(1, 10));
    var b := new BinarySearchTree<int>.Copy(a);
    b.Insert(Entry(2, 20));
    b.Erase(1);
    assert a.Contents() == map[1 := 10];
    assert b.Contents() == map[2 := 20];

    var c := new BinarySearchTree<int>.Move(b);
    assert b.Empty() && c.Find(2) == 20;
    a.MoveAssign(c);
    assert a.Contents() == map[2 := 20] && c.Empty();
    c.CopyAssign(a);
    a.Clear();
    assert a.Empty() && c.Contents() == map[2 := 20];
  }

  method SortedInsertionMakesAChain()
  {
    var m := new BinarySearchTree<int>();
    m.Insert(Entry(1, 0));
    m.Insert(Entry(2, 0));
    m.Insert(Entry(3, 0));
    // No rebalancing: ascending keys hang off each other to the right.
    assert m.root == Node(Entry(1, 0), Nil, Node(Entry(2, 0), Nil, Node(Entry(3, 0), Nil, Nil)));
    assert m.root.right.left == Nil;
  }

  method EraseRootWithOnlyRightChild()
  {
    var m := new BinarySearchTree<int>();
    m.Insert(Entry(5, 0));
    m.Insert(Entry(8, 1));
    m.Insert(Entry(7, 2));
    // 7 hangs under 8, and erasing 5 moves 8's whole subtree up.
    m.Erase(5);
    assert m.root == Node(Entry(8, 1), Node(Entry(7, 2), Nil, Nil), Nil);
    assert m.Root() == Entry(8, 1);
  }

  method EraseKeepsTheOtherSide()
  {
    var m := new BinarySearchTree<int>();
    m.Insert(Entry(5, 0));
    m.Insert(Entry(3, 0));
    m.Insert(Entry(8, 1));
    m.Insert(Entry(9, 2));
    ghost var right := m.root.right;
    m.Erase(3);
    assert m.root.right == right;
    assert m.root == Node(Entry(5, 0), Nil, Node(Entry(8, 1), Nil, Node(Entry(9, 2), Nil, Nil)));
  }

  method ClearReleasesInPostOrder()
  {
    var m := new BinarySearchTree<int>();
    var e0, e1, e2 := Entry(0, 0), Entry(1, 1), Entry(2, 2);
    var link, freed := m.ClearAt(Node(e2, Node(e1, Node(e0, Nil, Nil), Nil), Nil));
    assert link == Nil && freed == [e0, e1, e2];
  }
}
