/** Trees that `AddNode` and `RemoveNode` break as the original writes them, without the two missing links. */
module MissingLinks {
  import opened BlockTree
  import opened DoubleLinkedTrees
  import opened FreeMemory

  method NewNode(key: int) returns (n: TreeNode)
    ensures fresh(n) && n.addressIdx.value == key
  {
    n := new TreeNode();
    n.addressIdx := NodeData(key, null, null, null);
  }

  /** `tree` is a search tree of the shape `t` with the keys `v`. */
  ghost predicate HasKeys(tree: DoubleLinkedTree, t: Tree, v: Keys)
    reads tree, Nodes(t)
  {
    tree.tree == t && tree.Valid(Address) && tree.Sorted(Address) && Values(Read(Nodes(t), Address)) == v
  }

  method NewTree() returns (tree: DoubleLinkedTree)
    ensures fresh(tree) && HasKeys(tree, Nil, map[])
  {
    tree := new DoubleLinkedTree();
  }

  method AddKey(tree: DoubleLinkedTree, n: TreeNode, intended: bool, ghost t: Tree, ghost v: Keys)
    requires HasKeys(tree, t, v) && n !in Nodes(t) && 0 <= n.addressIdx.value < LIMIT
    modifies tree, n, Nodes(t)
    ensures var v' := v[n := old(n.addressIdx.value)];
      && v.Keys == Nodes(t) && (tree.Valid(Address) <==> intended || !Squeezes(t, n, v'))
      && (tree.Valid(Address) ==> HasKeys(tree, Inserted(t, n, v'), v'))
  {
    hide Focus, Ordered, Inserted, Squeezes, Nodes;
    assert Values(Read(Nodes(t) + {n}, Address)) == v[n := n.addressIdx.value];
    tree.AddNode(n, Address, intended, Nodes(t) + {n});
  }

  /** Keys 5, 7 and 5 again: the node of key 7 drops out of the tree. */
  method EqualKeyBreaksLinks() returns (tree: DoubleLinkedTree)
    ensures !tree.Valid(Address)
  {
    hide HasKeys;
    var five := NewNode(5);
    var seven := NewNode(7);
    var again := NewNode(5);
    tree := NewTree();
    AddKey(tree, five, false, Nil, map[]);
    AddKey(tree, seven, false, Bin(Nil, five, Nil), map[five := 5]);
    ghost var t := Bin(Nil, five, Bin(Nil, seven, Nil));
    assert Nodes(t) == {five, seven};
    AddKey(tree, again, false, t, map[five := 5][seven := 7]);
  }

  /** Keys 5, 3, 2 and 4, then the node of key 3 removed: the node of key 4 keeps its link to it. */
  method InnerRemovalBreaksLinks() returns (tree: DoubleLinkedTree)
    ensures !tree.Valid(Address)
  {
    hide HasKeys;
    var five := NewNode(5);
    var three := NewNode(3);
    var two := NewNode(2);
    var four := NewNode(4);
    tree := NewTree();
    BuildAndBreak(tree, five, three, two, four);
  }

  method BuildAndBreak(tree: DoubleLinkedTree, five: TreeNode, three: TreeNode, two: TreeNode, four: TreeNode)
    requires HasKeys(tree, Nil, map[]) && five !in {three, two, four} && three !in {two, four} && two != four
    requires five.addressIdx.value == 5 && three.addressIdx.value == 3 && two.addressIdx.value == 2 && four.addressIdx.value == 4
    modifies tree, five, three, two, four
    ensures !tree.Valid(Address)
  {
    hide HasKeys, Inserted, Nodes, Squeezes;
    ghost var t1, t2, t3, t4, v1, v2, v3, v4 := FourShapes(five, three, two, four);
    AddKey(tree, five, false, Nil, map[]);
    AddKey(tree, three, false, t1, v1);
    AddKey(tree, two, false, t2, v2);
    AddKey(tree, four, false, t3, v3);
    RemoveInner(tree, three, t4, v4);
  }

  lemma FourShapes(five: TreeNode, three: TreeNode, two: TreeNode, four: TreeNode)
      returns (t1: Tree, t2: Tree, t3: Tree, t4: Tree, v1: Keys, v2: Keys, v3: Keys, v4: Keys)
    requires five !in {three, two, four} && three !in {two, four} && two != four
    ensures Nodes(Nil) == {} && Nodes(t1) == {five} && Nodes(t2) == {five, three} && Nodes(t3) == {five, three, two}
    ensures Nodes(t4) == {five, three, two, four}
    ensures v1 == map[][five := 5] && v2 == v1[three := 3] && v3 == v2[two := 2] && v4 == v3[four := 4]
    ensures t1 == Inserted(Nil, five, v1) && t2 == Inserted(t1, three, v2)
    ensures t3 == Inserted(t2, two, v3) && t4 == Inserted(t3, four, v4)
    ensures t4 == Bin(Bin(Bin(Nil, two, Nil), three, Bin(Nil, four, Nil)), five, Nil)
    ensures !Squeezes(Nil, five, v1) && !Squeezes(t1, three, v2) && !Squeezes(t2, two, v3) && !Squeezes(t3, four, v4)
  {
    v1 := map[][five := 5];
    v2 := v1[three := 3];
    v3 := v2[two := 2];
    v4 := v3[four := 4];
    var low, both := Bin(Bin(Nil, two, Nil), three, Nil), Bin(Bin(Nil, two, Nil), three, Bin(Nil, four, Nil));
    t1, t2, t3, t4 := Bin(Nil, five, Nil), Bin(Bin(Nil, three, Nil), five, Nil), Bin(low, five, Nil), Bin(both, five, Nil);
    assert Nodes(t2.left) == {three} && Nodes(low) == {three, two} && Nodes(both) == {three, two, four};
    assert Inserted(t2.left, two, v3) == low && Inserted(low, four, v4) == both;
    assert !Squeezes(t2.left, two, v3) && !Squeezes(low, four, v4);
  }

  method RemoveInner(tree: DoubleLinkedTree, n: TreeNode, ghost t: Tree, ghost v: Keys)
    requires HasKeys(tree, t, v) && t.Bin? && t.left.Bin? && t.left.node == n && t.left.left.Bin? && t.left.right.Bin?
    modifies tree, Nodes(t)
    ensures !tree.Valid(Address)
  {
    hide Focus, Removed, Values, Ordered;
    HasTwo(Nodes(t), tree.root, Read(Nodes(t), Address), t);
    tree.RemoveNode(n, Address, false);
  }

  lemma HasTwo(s: set<TreeNode>, root: TreeNode?, h: Links, t: Tree)
    requires Focus(s, root, h, Top, t) && t.Bin? && t.left.Bin? && t.left.left.Bin? && t.left.right.Bin?
    ensures t.left.node in h && Holds(h, t.left.node, t.node, t.left.left.node, t.left.right.node)
  {
    Sites(s, root, h, Top, t);
  }

  // ----- The manager -----

  lemma NoTrees(m: FreeMemoryManager)
    requires m.Valid() && m.free == map[]
    ensures m.Holding(m.free) && m.Indices(m.Live()) == (Nil, map[], Nil, map[])
  {
    m.IndexedNodes(m.Live());
    assert FreeMemoryManager.Blocks(m.Live()).Keys == {};
    assert m.Live() == {};
  }

  /** Three new blocks of one size: the search for the third one meets the first, which has the second as its right child. */
  lemma ThirdIsCrowded(i1: (Tree, Keys, Tree, Keys), i2: (Tree, Keys, Tree, Keys), n1: TreeNode, n2: TreeNode, n3: TreeNode,
                       a1: int, a2: int, a3: int, size: int)
    requires a1 < a2
    requires FreeMemoryManager.Entered((Nil, map[], Nil, map[]), n1, a1, size, i1) && FreeMemoryManager.Entered(i1, n2, a2, size, i2)
    ensures !FreeMemoryManager.Crowded((Nil, map[], Nil, map[]), n1, a1, size) && !FreeMemoryManager.Crowded(i1, n2, a2, size)
    ensures n3 !in i2.1 && n3 !in i2.3 ==> FreeMemoryManager.Crowded(i2, n3, a3, size)
  {
    assert i1.0 == Bin(Nil, n1, Nil) && i1.2 == Bin(Nil, n1, Nil);
    assert i2.1[n1] == a1 && Inserted(Nil, n2, i2.1) == Bin(Nil, n2, Nil) && !Squeezes(Nil, n2, i2.1);
    assert i2.2 == Bin(Nil, n1, Bin(Nil, n2, Nil)) && i2.0 == Bin(Nil, n1, Bin(Nil, n2, Nil));
    assert Nodes(i2.0.right) == {n2};
  }

  /** As written, three ranges of one page each that touch nothing cannot be freed one after the other: the size index is
      broken then. */
  method EqualSizesBreakIndices() returns (m: FreeMemoryManager)
    ensures !m.Holding(m.free)
  {
    hide FreeMemoryManager.Holding, FreeMemoryManager.Valid, FreeMemoryManager.Footprint;
    m := new FreeMemoryManager();
    PagesInFootprint(m);
    ThreeBlocks(m);
  }

  lemma PagesInFootprint(m: FreeMemoryManager)
    requires m.Valid()
    ensures m.addressIdxTree in m.Footprint() && m.sizeIdxTree in m.Footprint() && m.Slots() <= m.Footprint()
    ensures m.currentPage in m.Footprint() && m.nextPage in m.Footprint() && |m.pages| >= 2
  {
  }

  method ThreeBlocks(m: FreeMemoryManager)
    requires m.Valid() && m.free == map[] && m.used == 0 && |m.pages| >= 2
    modifies m, m.currentPage, m.nextPage, m.addressIdxTree, m.sizeIdxTree, m.Slots()
    ensures !m.Holding(m.free)
  {
    NoTrees(m);
    hide FreeMemoryManager.Crowded, FreeMemoryManager.Entered, FreeMemoryManager.Indices, FreeMemoryManager.Holding,
      FreeMemoryManager.Valid, FreeMemoryManager.LiveIn;
    var n1 := m.AddBlock(0x100_0000, 0x1000, false);
    ghost var i1 := m.Indices(m.Live());
    NotCrowded(n1, 0x100_0000, 0x1000);
    var n2 := m.AddBlock(0x200_0000, 0x1000, false);
    ghost var i2 := m.Indices(m.Live());
    ThirdIsCrowded(i1, i2, n1, n2, n2, 0x100_0000, 0x200_0000, 0, 0x1000);
    var n3 := m.AddBlock(0x300_0000, 0x1000, false);
    EnteredIsNew(i2, n3, 0x300_0000, 0x1000, m.Indices(m.Live()));
    ThirdIsCrowded(i1, i2, n1, n2, n3, 0x100_0000, 0x200_0000, 0x300_0000, 0x1000);
  }

  lemma EnteredIsNew(i: (Tree, Keys, Tree, Keys), n: TreeNode, address: int, size: int, i': (Tree, Keys, Tree, Keys))
    requires FreeMemoryManager.Entered(i, n, address, size, i')
    ensures n !in i.1 && n !in i.3
  {
  }

  lemma NotCrowded(n: TreeNode, address: int, size: int)
    ensures !FreeMemoryManager.Crowded((Nil, map[], Nil, map[]), n, address, size)
  {
  }
}
