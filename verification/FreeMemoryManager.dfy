/** The physical memory manager: free blocks indexed twice, in nodes that live in pages of free memory. */
module FreeMemory {
  import opened BlockTree
  import opened DoubleLinkedTrees
  import opened FreeTable

  const ALLOC_PAGE_NODE_THRESHOLD := 50 - 6
  const FREE_PAGE_NODE_THRESHOLD := 6
  const NODES_PER_PAGE := 50

  /** A page of tree nodes at the physical address `base`. */
  class PageLinkNode {
    var prevNode: PageLinkNode?
    var nextNode: PageLinkNode?
    const nodes: seq<TreeNode>
    var nodeUsed: int
    const base: int

    constructor (base: int, nodes: seq<TreeNode>)
      ensures this.base == base && this.nodes == nodes && nodeUsed == 0 && prevNode == null && nextNode == null
    {
      this.base, this.nodes, nodeUsed, prevNode, nextNode := base, nodes, 0, null, null;
    }

    ghost function Nodes(): set<TreeNode> {
      set j | 0 <= j < |nodes| :: nodes[j]
    }

    ghost predicate Full() {
      |nodes| == NODES_PER_PAGE && forall j, j' :: 0 <= j < j' < NODES_PER_PAGE ==> nodes[j] != nodes[j']
    }

    method AllocNode() returns (node: TreeNode?)
      requires |nodes| == NODES_PER_PAGE && 0 <= nodeUsed <= NODES_PER_PAGE
      modifies `nodeUsed
      ensures if old(nodeUsed) == NODES_PER_PAGE then node == null && nodeUsed == old(nodeUsed)
              else node == nodes[old(nodeUsed)] && nodeUsed == old(nodeUsed) + 1
    {
      if nodeUsed == NODES_PER_PAGE {
        return null;
      }
      node := nodes[nodeUsed];
      nodeUsed := nodeUsed + 1;
    }

    method PopNode(count: int) returns (popped: int)
      modifies `nodeUsed
      ensures nodeUsed == old(nodeUsed) - popped
      ensures popped == if count > old(nodeUsed) then old(nodeUsed) else if count <= 0 then 0 else count
    {
      popped := count;
      if count > nodeUsed {
        popped := nodeUsed;
      } else if count <= 0 {
        return 0;
      }
      nodeUsed := nodeUsed - popped;
    }
  }

  class FreeMemoryManager {
    const addressIdxTree: DoubleLinkedTree
    const sizeIdxTree: DoubleLinkedTree
    var currentPage: PageLinkNode
    var nextPage: PageLinkNode
    var totalFreeMemory: int
    /** All node pages in order, and how many of their nodes are in use. */
    ghost var pages: seq<PageLinkNode>
    ghost var used: nat
    /** The free blocks. */
    ghost var free: Table

    // ----- The two indices -----

    /** Both trees are search trees over exactly the nodes `s`. */
    ghost predicate Indexed(s: set<TreeNode>)
      reads addressIdxTree, sizeIdxTree, s
    {
      && addressIdxTree != sizeIdxTree
      && Tight(addressIdxTree.root, addressIdxTree.tree, Read(s, Address), s)
      && Tight(sizeIdxTree.root, sizeIdxTree.tree, Read(s, Size), s)
    }

    /** The links `h` spell out the search tree `t` over the nodes `s`. */
    static ghost predicate Tight(root: TreeNode?, t: Tree, h: Links, s: set<TreeNode>) {
      Nodes(t) == s && Focus(s, root, h, Top, t) && Ordered(t, Values(h), 0, LIMIT)
    }

    /** The same with the keys `v`; `node` alone may have another key by now. */
    static ghost predicate Loose(root: TreeNode?, t: Tree, h: Links, s: set<TreeNode>, node: TreeNode, v: Keys) {
      && Nodes(t) == s && Focus(s, root, h, Top, t) && Ordered(t, v, 0, LIMIT)
      && forall n :: n in s && n != node ==> n in v && n in h && v[n] == h[n].value
    }

    static ghost function BlockOf(n: TreeNode): Block
      reads n
    {
      Block(n.addressIdx.value, n.sizeIdx.value)
    }

    static ghost function Blocks(s: set<TreeNode>): Table
      reads s
    {
      map n | n in s :: BlockOf(n)
    }

    /** The node leaves a tree and comes back in the place of its new key. */
    static method Reinsert(tree: DoubleLinkedTree, node: TreeNode, i: Index, ghost s: set<TreeNode>, ghost v: Keys)
      requires Loose(tree.root, tree.tree, Read(s, i), s, node, v) && node in s && 0 <= node.At(i).value < LIMIT
      modifies tree, s
      ensures Tight(tree.root, tree.tree, Read(s, i), s)
      ensures Blocks(s) == old(Blocks(s)) && Read(s, Other(i)) == old(Read(s, Other(i)))
    {
      ValidDistinct(tree, i);
      hide Focus, Removed, Inserted, Squeezes, Ordered, Distinct, Nodes, Values;
      RemovedOrdered(tree.tree, node, v, 0, LIMIT);
      KeysOf(s, i);
      tree.RemoveNode(node, i, true);
      KeysOf(s, i);
      KeysOf(Nodes(tree.tree), i);
      OrderedWiden(tree.tree, v, 0, LIMIT, Values(Read(Nodes(tree.tree), i)), 0, LIMIT);
      assert Nodes(tree.tree) + {node} == s;
      tree.AddNode(node, i, true, s);
      KeysOf(s, i);
    }

    static lemma ValidDistinct(tree: DoubleLinkedTree, i: Index)
      ensures Focus(Nodes(tree.tree), tree.root, Read(Nodes(tree.tree), i), Top, tree.tree) ==> Distinct(tree.tree)
    {
    }

    static lemma KeyAt(node: TreeNode, address: int, size: int, s: set<TreeNode>)
      requires node in s && Blocks(s).Keys == s && Blocks(s)[node] == Block(address, size)
      ensures node.At(Address).value == address && node.At(Size).value == size
    {
    }

    static lemma KeysOf(s: set<TreeNode>, i: Index)
      ensures Values(Read(s, i)).Keys == s
      ensures forall n :: n in s ==> Values(Read(s, i))[n] == n.At(i).value
      ensures forall n :: n in s ==> n in Read(s, Other(i)) && Read(s, Other(i))[n] == n.At(Other(i))
    {
    }

    /** A key of a node is overwritten where it hangs. */
    static method WriteKey(tree: DoubleLinkedTree, node: TreeNode, i: Index, value: int, ghost s: set<TreeNode>)
        returns (ghost v: Keys)
      requires Tight(tree.root, tree.tree, Read(s, i), s) && node in s
      modifies node
      ensures Loose(tree.root, tree.tree, Read(s, i), s, node, v)
      ensures Read(s, i) == old(Read(s, i))[node := old(node.At(i)).(value := value)]
      ensures Read(s, Other(i)) == old(Read(s, Other(i)))
    {
      hide Tight, Loose, Values;
      ghost var h := Read(s, i);
      v := Values(h);
      node.Put(i, node.At(i).(value := value));
      Loosen(tree.root, tree.tree, h, Read(s, i), s, node);
    }

    static lemma Loosen(root: TreeNode?, t: Tree, h: Links, h': Links, s: set<TreeNode>, node: TreeNode)
      requires Tight(root, t, h, s) && h.Keys == s && node in s && Unchanged(h, h', s - {node})
      requires node in h' && h'[node].(value := 0) == h[node].(value := 0)
      ensures Loose(root, t, h', s, node, Values(h))
    {
      FocusFrame(s, root, h, h', Top, t);
    }

    static lemma BlocksRead(s: set<TreeNode>)
      ensures Blocks(s).Keys == s == Read(s, Address).Keys == Read(s, Size).Keys
      ensures forall n :: n in s ==> Blocks(s)[n] == Block(Read(s, Address)[n].value, Read(s, Size)[n].value)
    {
    }

    /** A block changes its size and is moved in the size tree. */
    method Resize(node: TreeNode, size: int, ghost s: set<TreeNode>)
      requires Indexed(s) && node in s && 0 <= size < LIMIT
      modifies sizeIdxTree, s
      ensures Indexed(s) && Blocks(s) == old(Blocks(s))[node := Block(old(node.addressIdx.value), size)]
    {
      hide Tight, Loose, Blocks;
      BlocksRead(s);
      ghost var vs := WriteKey(sizeIdxTree, node, Size, size, s);
      BlocksRead(s);
      KeyAt(node, node.addressIdx.value, size, s);
      Reinsert(sizeIdxTree, node, Size, s, vs);
    }

    /** Both keys of a node are overwritten where it hangs. */
    method WriteKeys(node: TreeNode, address: int, size: int, ghost s: set<TreeNode>)
        returns (ghost va: Keys, ghost vs: Keys)
      requires Indexed(s) && node in s
      modifies node
      ensures Loose(addressIdxTree.root, addressIdxTree.tree, Read(s, Address), s, node, va)
      ensures Loose(sizeIdxTree.root, sizeIdxTree.tree, Read(s, Size), s, node, vs)
      ensures Blocks(s) == old(Blocks(s))[node := Block(address, size)]
    {
      hide Tight, Loose, Blocks, Read;
      BlocksRead(s);
      vs := WriteKey(sizeIdxTree, node, Size, size, s);
      va := WriteKey(addressIdxTree, node, Address, address, s);
      BlocksRead(s);
    }

    /** A block changes its address and its size and is moved in both trees. */
    method Relocate(node: TreeNode, address: int, size: int, ghost s: set<TreeNode>)
      requires Indexed(s) && node in s && 0 <= address < LIMIT && 0 <= size < LIMIT
      modifies addressIdxTree, sizeIdxTree, s
      ensures Indexed(s) && Blocks(s) == old(Blocks(s))[node := Block(address, size)]
    {
      hide Tight, Loose, Blocks, Read;
      BlocksRead(s);
      ghost var va, vs := WriteKeys(node, address, size, s);
      KeyAt(node, address, size, s);
      Reinsert(sizeIdxTree, node, Size, s, vs);
      KeyAt(node, address, size, s);
      Reinsert(addressIdxTree, node, Address, s, va);
    }

    /** Both trees with the keys of their nodes. */
    ghost function Indices(s: set<TreeNode>): (Tree, Keys, Tree, Keys)
      reads addressIdxTree, sizeIdxTree, s
    {
      (addressIdxTree.tree, Values(Read(s, Address)), sizeIdxTree.tree, Values(Read(s, Size)))
    }

    /** A search for the place of the block meets an equal key that has a right child. */
    static ghost predicate Crowded(i: (Tree, Keys, Tree, Keys), n: TreeNode, address: int, size: int) {
      && Nodes(i.0) <= i.1.Keys && Nodes(i.2) <= i.3.Keys
      && (Squeezes(i.2, n, i.3[n := size]) || Squeezes(i.0, n, i.1[n := address]))
    }

    static ghost predicate Entered(i: (Tree, Keys, Tree, Keys), n: TreeNode, address: int, size: int, i': (Tree, Keys, Tree, Keys)) {
      && Nodes(i.0) <= i.1.Keys && Nodes(i.2) <= i.3.Keys && n !in i.1 && n !in i.3
      && i'.1 == i.1[n := address] && i'.0 == Inserted(i.0, n, i'.1)
      && i'.3 == i.3[n := size] && i'.2 == Inserted(i.2, n, i'.3)
    }

    lemma IndexedNodes(s: set<TreeNode>)
      requires Indexed(s)
      ensures Nodes(addressIdxTree.tree) == s && Nodes(sizeIdxTree.tree) == s
    {
    }

    /** A new block enters both trees. As written, they stay search trees if and only if no search meets an equal key with a
        right child. */
    method Register(node: TreeNode, address: int, size: int, intended: bool, ghost s: set<TreeNode>)
      requires Indexed(s) && node !in s && 0 <= address < LIMIT && 0 <= size < LIMIT
      modifies addressIdxTree, sizeIdxTree, s, node
      ensures Indexed(s + {node}) <==> intended || !Crowded(old(Indices(s)), node, address, size)
      ensures Entered(old(Indices(s)), node, address, size, Indices(s + {node}))
      ensures Blocks(s + {node}) == old(Blocks(s))[node := Block(address, size)]
    {
      IndexedNodes(s);
      KeysOf(s, Address);
      KeysOf(s, Size);
      hide Indexed, Squeezes, Inserted, Values, Read, Blocks, Nodes;
      AddToBoth(node, address, size, intended, s);
    }

    method AddToBoth(node: TreeNode, address: int, size: int, intended: bool, ghost s: set<TreeNode>)
      requires Indexed(s) && node !in s && 0 <= address < LIMIT && 0 <= size < LIMIT
      modifies addressIdxTree, sizeIdxTree, s, node
      ensures Indexed(s + {node}) <==>
                intended || !(Squeezes(old(sizeIdxTree.tree), node, old(Values(Read(s, Size)))[node := size])
                              || Squeezes(old(addressIdxTree.tree), node, old(Values(Read(s, Address)))[node := address]))
      ensures Blocks(s + {node}) == old(Blocks(s))[node := Block(address, size)]
      ensures sizeIdxTree.tree == Inserted(old(sizeIdxTree.tree), node, old(Values(Read(s, Size)))[node := size])
      ensures addressIdxTree.tree == Inserted(old(addressIdxTree.tree), node, old(Values(Read(s, Address)))[node := address])
      ensures Values(Read(s + {node}, Size)) == old(Values(Read(s, Size)))[node := size]
      ensures Values(Read(s + {node}, Address)) == old(Values(Read(s, Address)))[node := address]
    {
      hide Tight, Squeezes, Inserted;
      ghost var s' := s + {node};
      node.addressIdx := node.addressIdx.(value := address);
      node.sizeIdx := node.sizeIdx.(value := size);
      assert Read(s, Address) == old(Read(s, Address)) && Read(s, Size) == old(Read(s, Size));
      assert Blocks(s') == old(Blocks(s))[node := Block(address, size)];
      assert s' - {node} == s;
      KeysWith(s, node, Size);
      KeysWith(s, node, Address);
      AddTo(sizeIdxTree, node, Size, intended, s');
      KeyAt(node, address, size, s');
      AddTo(addressIdxTree, node, Address, intended, s');
    }

    static lemma KeysWith(s: set<TreeNode>, node: TreeNode, i: Index)
      ensures Values(Read(s + {node}, i)) == Values(Read(s, i))[node := node.At(i).value]
    {
    }

    static method AddTo(tree: DoubleLinkedTree, node: TreeNode, i: Index, intended: bool, ghost s: set<TreeNode>)
      requires node in s && Tight(tree.root, tree.tree, Read(s - {node}, i), s - {node})
      requires 0 <= node.At(i).value < LIMIT
      modifies tree, s
      ensures tree.tree == Inserted(old(tree.tree), node, old(Values(Read(s, i))))
      ensures Tight(tree.root, tree.tree, Read(s, i), s) <==> intended || !Squeezes(old(tree.tree), node, old(Values(Read(s, i))))
      ensures Blocks(s) == old(Blocks(s)) && Read(s, Other(i)) == old(Read(s, Other(i)))
      ensures Values(Read(s, i)) == old(Values(Read(s, i)))
      ensures Read(s - {node}, Other(i)) == old(Read(s - {node}, Other(i)))
    {
      hide Focus, Inserted, Squeezes, Ordered, Nodes, Values;
      KeysOf(s, i);
      tree.AddNode(node, i, intended, s);
      KeysOf(s, i);
    }

    /** A block leaves both trees. As written, they stay search trees if and only if in neither of them its node is an inner
        one with two children. */
    method Unregister(node: TreeNode, intended: bool, ghost s: set<TreeNode>)
      requires Indexed(s) && node in s
      modifies addressIdxTree, sizeIdxTree, s
      ensures Indexed(s - {node}) <==>
                intended || !(old(DoubleLinkedTree.InnerWithTwo(node, Size)) || old(DoubleLinkedTree.InnerWithTwo(node, Address)))
      ensures Blocks(s - {node}) == old(Blocks(s)) - {node}
    {
      hide Tight;
      RemoveFrom(sizeIdxTree, node, Size, intended, s);
      RemoveFrom(addressIdxTree, node, Address, intended, s);
    }

    static method RemoveFrom(tree: DoubleLinkedTree, node: TreeNode, i: Index, intended: bool, ghost s: set<TreeNode>)
      requires Tight(tree.root, tree.tree, Read(s, i), s) && node in s
      modifies tree, s
      ensures Tight(tree.root, tree.tree, Read(s - {node}, i), s - {node}) <==> intended || !old(DoubleLinkedTree.InnerWithTwo(node, i))
      ensures Blocks(s) == old(Blocks(s)) && Read(s, Other(i)) == old(Read(s, Other(i)))
      ensures Read(s - {node}, Other(i)) == old(Read(s - {node}, Other(i)))
      ensures node.At(Other(i)) == old(node.At(Other(i)))
    {
      ValidDistinct(tree, i);
      hide Focus, Removed, Ordered, Distinct, Nodes, DoubleLinkedTree.InnerWithTwo;
      ghost var v := Values(Read(s, i));
      RemovedOrdered(tree.tree, node, v, 0, LIMIT);
      KeysOf(s, i);
      tree.RemoveNode(node, i, intended);
      KeysOf(s, i);
      KeysOf(Nodes(tree.tree), i);
      OrderedWiden(tree.tree, v, 0, LIMIT, Values(Read(Nodes(tree.tree), i)), 0, LIMIT);
    }

    // ----- moveNode -----

    /** The nodes that a move redirects are there and are different ones. */
    static ghost predicate Movable(h: Links, dest: TreeNode, src: TreeNode) {
      && src in h && dest in h && dest != src
      && var d := h[src];
      && d.parent !in {dest, src} && d.leftChild !in {dest, src} && d.rightChild !in {dest, src}
      && (d.parent != null ==> d.parent in h && d.parent !in {d.leftChild, d.rightChild})
      && (d.leftChild != null ==> d.leftChild in h && d.leftChild != d.rightChild)
      && (d.rightChild != null ==> d.rightChild in h)
    }

    /** One turn of the loop over the two indices. */
    static method Redirect(dest: TreeNode, src: TreeNode, i: Index, ghost s: set<TreeNode>)
      requires Movable(Read(s, i), dest, src) && dest.At(i) == src.At(i)
      modifies s
      ensures Moved(old(Read(s, i)), Read(s, i), dest, src)
      ensures Read(s, Other(i)) == old(Read(s, Other(i)))
    {
      var parent, lc, rc := src.At(i).parent, src.At(i).leftChild, src.At(i).rightChild;
      if parent != null {
        if parent.At(i).leftChild == src {
          parent.Put(i, parent.At(i).(leftChild := dest));
        } else {
          parent.Put(i, parent.At(i).(rightChild := dest));
        }
      }
      if lc != null {
        lc.Put(i, lc.At(i).(parent := dest));
      }
      if rc != null {
        rc.Put(i, rc.At(i).(parent := dest));
      }
    }

    static method MoveNode(dest: TreeNode, src: TreeNode, ghost s: set<TreeNode>)
      requires dest != src ==> Movable(Read(s, Address), dest, src) && Movable(Read(s, Size), dest, src)
      modifies s
      ensures dest == src ==> Read(s, Address) == old(Read(s, Address)) && Read(s, Size) == old(Read(s, Size))
      ensures dest != src ==> Moved(old(Read(s, Address)), Read(s, Address), dest, src)
      ensures dest != src ==> Moved(old(Read(s, Size)), Read(s, Size), dest, src)
    {
      if dest == src {
        return;
      }
      hide Moved;
      ghost var ha, hs := Read(s, Address), Read(s, Size);
      dest.addressIdx, dest.sizeIdx := src.addressIdx, src.sizeIdx;
      assert Read(s, Address) == ha[dest := ha[src]] && Read(s, Size) == hs[dest := hs[src]];
      Redirect(dest, src, Address, s);
      Copied(ha, Read(s, Address), dest, src);
      Redirect(dest, src, Size, s);
      Copied(hs, Read(s, Size), dest, src);
    }

    static lemma Copied(h: Links, h': Links, dest: TreeNode, src: TreeNode)
      requires Movable(h, dest, src) && Moved(h[dest := h[src]], h', dest, src)
      ensures Moved(h, h', dest, src)
    {
    }

    /** Every node of a valid tree can be moved to a node outside. */
    static lemma CanMove(tree: DoubleLinkedTree, i: Index, s: set<TreeNode>, dest: TreeNode, src: TreeNode)
        returns (c: Context, t: Tree)
      requires Tight(tree.root, tree.tree, Read(s, i), s) && src in s && dest !in s
      ensures Movable(Read(s + {dest}, i), dest, src) && src != dest && Read(s + {dest}, i).Keys == s + {dest}
      ensures tree.tree == Plug(c, t) && t.Bin? && t.node == src
      ensures Nodes(tree.tree) == s && Focus(s, tree.root, Read(s + {dest}, i), c, t) && (c.Top? <==> tree.root == src)
      ensures Ordered(tree.tree, Values(Read(s + {dest}, i)), 0, LIMIT)
    {
      var h := Read(s + {dest}, i);
      FocusFrame(s, tree.root, Read(s, i), h, Top, tree.tree);
      OrderedWiden(tree.tree, Values(Read(s, i)), 0, LIMIT, Values(h), 0, LIMIT);
      hide Focus, Ordered, Nodes, Movable;
      c, t := Locate(Top, tree.tree, src);
      PlugTop(tree.tree);
      Place(s, tree.root, h, c, t);
      MovableAt(s, tree.root, h, c, t, dest);
      Sites(s, tree.root, h, c, t);
    }

    static lemma MovableAt(s: set<TreeNode>, root: TreeNode?, h: Links, c: Context, t: Tree, dest: TreeNode)
      requires Focus(s, root, h, c, t) && t.Bin? && dest !in s && h.Keys == s + {dest}
      ensures Movable(h, dest, t.node)
    {
      Sites(s, root, h, c, t);
      if t.left.Bin? && t.right.Bin? {
        Apart(s, root, h, c, t);
      }
      hide Focus, Linked, Distinct, LinkedAround, Nodes;
    }

    static lemma Apart(s: set<TreeNode>, root: TreeNode?, h: Links, c: Context, t: Tree)
      requires Focus(s, root, h, c, t) && t.Bin? && t.left.Bin? && t.right.Bin?
      ensures t.left.node != t.right.node
    {
      assert t.left.node in Nodes(t.left) && t.right.node in Nodes(t.right);
    }

    /** The ghost tree follows a move; `s'` has `dest` in the place of `src`. */
    static ghost method Follow(tree: DoubleLinkedTree, i: Index, s: set<TreeNode>, s': set<TreeNode>, dest: TreeNode, src: TreeNode,
                               h: Links, root: TreeNode?, c: Context, t: Tree)
      requires s' == s - {src} + {dest} && dest !in s && src in s && h.Keys == s + {dest}
      requires Nodes(tree.tree) == s && tree.tree == Plug(c, t) && t.Bin? && t.node == src && Focus(s, root, h, c, t)
      requires Moved(h, Read(s + {dest}, i), dest, src) && tree.root == if c.Top? then dest else root
      requires Ordered(tree.tree, Values(h), 0, LIMIT) && Movable(h, dest, src)
      modifies tree`tree
      ensures tree.tree == Renamed(old(tree.tree), src, dest)
      ensures Tight(tree.root, tree.tree, Read(s', i), s')
      ensures forall n :: n in s' ==> n.At(i).value == if n == dest then h[src].value else h[n].value
    {
      var h' := Read(s + {dest}, i);
      MovedFocus(s, root, h, c, t, dest, h');
      RenamedHere(s, root, h, c, t, dest);
      hide Focus;
      MovedValues(h, h', dest, src);
      RenamedOrdered(tree.tree, src, dest, Values(h), Values(h'), 0, LIMIT);
      tree.Settle(i, s + {dest}, s', c, Bin(t.left, dest, t.right));
      KeysOf(s + {dest}, i);
      KeysOf(s', i);
      OrderedWiden(tree.tree, Values(h'), 0, LIMIT, Values(Read(s', i)), 0, LIMIT);
    }

    static lemma MovedValues(h: Links, h': Links, dest: TreeNode, src: TreeNode)
      requires Movable(h, dest, src) && Moved(h, h', dest, src)
      ensures dest in h' && h'[dest].value == h[src].value
      ensures forall n :: n in h && n != dest ==> n in h' && h'[n].value == h[n].value
    {
    }

    /** `back` gives up its place in both trees to `target`, and the roots follow. */
    method Transplant(target: TreeNode, back: TreeNode, ghost s: set<TreeNode>)
      requires Indexed(s) && target !in s && back in s
      modifies addressIdxTree, sizeIdxTree, s, target
      ensures Indexed(s - {back} + {target})
      ensures Blocks(s - {back} + {target}) == Passed(old(Blocks(s)), back, target)
      ensures addressIdxTree.tree == Renamed(old(addressIdxTree.tree), back, target)
      ensures sizeIdxTree.tree == Renamed(old(sizeIdxTree.tree), back, target)
    {
      hide Tight, Focus, Ordered, Values, Renamed, Moved, Movable, Plug, Blocks, Passed, Read;
      BlocksAre(s, s + {target});
      ghost var m := Blocks(s);
      ghost var ha, hs := Read(s + {target}, Address), Read(s + {target}, Size);
      ghost var ra, rs := addressIdxTree.root, sizeIdxTree.root;
      ghost var ca, ta := CanMove(addressIdxTree, Address, s, target, back);
      ghost var cs, ts := CanMove(sizeIdxTree, Size, s, target, back);
      MoveAll(target, back, s + {target});
      ghost var s' := s - {back} + {target};
      Follow(addressIdxTree, Address, s, s', target, back, ha, ra, ca, ta);
      Follow(sizeIdxTree, Size, s, s', target, back, hs, rs, cs, ts);
      BlocksPassed(m, s, s', target, back, ha, hs);
    }

    /** The move and the two root fix-ups after it. */
    method MoveAll(target: TreeNode, back: TreeNode, ghost s: set<TreeNode>)
      requires target != back && Movable(Read(s, Address), target, back) && Movable(Read(s, Size), target, back)
      requires addressIdxTree != sizeIdxTree
      modifies addressIdxTree`root, sizeIdxTree`root, s
      ensures Moved(old(Read(s, Address)), Read(s, Address), target, back) && Moved(old(Read(s, Size)), Read(s, Size), target, back)
      ensures addressIdxTree.root == if old(addressIdxTree.root) == back then target else old(addressIdxTree.root)
      ensures sizeIdxTree.root == if old(sizeIdxTree.root) == back then target else old(sizeIdxTree.root)
    {
      hide Moved, Movable, Read;
      MoveNode(target, back, s);
      FixRoot(sizeIdxTree, target, back);
      FixRoot(addressIdxTree, target, back);
    }

    static method FixRoot(tree: DoubleLinkedTree, target: TreeNode, back: TreeNode)
      modifies tree`root
      ensures tree.root == if old(tree.root) == back then target else old(tree.root)
    {
      if tree.root == back {
        tree.root := target;
      }
    }

    static lemma BlocksAre(s: set<TreeNode>, s': set<TreeNode>)
      requires s <= s'
      ensures Blocks(s).Keys == s
      ensures forall n :: n in s ==> Blocks(s)[n] == Block(Read(s', Address)[n].value, Read(s', Size)[n].value)
    {
    }

    static lemma BlocksPassed(m: Table, s: set<TreeNode>, s': set<TreeNode>, dest: TreeNode, src: TreeNode, ha: Links, hs: Links)
      requires m.Keys == s && src in s && dest !in s && s' == s - {src} + {dest} && s <= ha.Keys && s <= hs.Keys
      requires forall n :: n in s ==> m[n] == Block(ha[n].value, hs[n].value)
      requires forall n :: n in s' ==> n.At(Address).value == if n == dest then ha[src].value else ha[n].value
      requires forall n :: n in s' ==> n.At(Size).value == if n == dest then hs[src].value else hs[n].value
      ensures Blocks(s') == Passed(m, src, dest)
    {
      forall n | n in s'
        ensures BlockOf(n) == Passed(m, src, dest)[n]
      {
        assert n.addressIdx == n.At(Address) && n.sizeIdx == n.At(Size);
      }
    }

    /** A hole in the node storage is filled with the last node; nothing happens if that is the hole itself. */
    method Backfill(target: TreeNode, back: TreeNode, ghost s: set<TreeNode>) returns (ghost s': set<TreeNode>)
      requires Indexed(s) && target !in s && (back != target ==> back in s)
      modifies addressIdxTree, sizeIdxTree, s, target
      ensures s' == (if back == target then s else s - {back} + {target}) && Indexed(s')
      ensures Blocks(s') == if back == target then old(Blocks(s)) else Passed(old(Blocks(s)), back, target)
    {
      if target == back {
        return s;
      }
      Transplant(target, back, s);
      return s - {back} + {target};
    }

    // ----- The pages of nodes -----

    /** How many nodes of page `k` are in use when `used` nodes are, from the first page on. */
    static function Filled(k: int, used: int): int {
      if used <= NODES_PER_PAGE * k then 0
      else if used >= NODES_PER_PAGE * (k + 1) then NODES_PER_PAGE
      else used - NODES_PER_PAGE * k
    }

    /** The nodes in use: a dense prefix of all nodes of all pages. */
    static ghost function LiveIn(pages: seq<PageLinkNode>, used: int): set<TreeNode> {
      set k, j | 0 <= k < |pages| && 0 <= j < Filled(k, used) && j < |pages[k].nodes| :: pages[k].nodes[j]
    }

    /** Every page has its nodes, and no two places hold the same node. */
    static ghost predicate Stocked(pages: seq<PageLinkNode>) {
      && (forall k :: 0 <= k < |pages| ==> |pages[k].nodes| == NODES_PER_PAGE)
      && (forall k, j, k', j' ::
            0 <= k < |pages| && 0 <= j < NODES_PER_PAGE && 0 <= k' < |pages| && 0 <= j' < NODES_PER_PAGE
            && pages[k].nodes[j] == pages[k'].nodes[j']
            ==> k == k' && j == j')
    }

    static function Before(pages: seq<PageLinkNode>, k: nat): PageLinkNode?
      requires k < |pages|
    {
      if k == 0 then null else pages[k - 1]
    }

    static function After(pages: seq<PageLinkNode>, k: nat): PageLinkNode?
      requires k < |pages|
    {
      if k == |pages| - 1 then null else pages[k + 1]
    }

    /** The pages are chained in order. */
    static ghost predicate Chained(pages: seq<PageLinkNode>)
      reads pages`prevNode, pages`nextNode
    {
      forall k :: 0 <= k < |pages| ==> pages[k].prevNode == Before(pages, k) && pages[k].nextNode == After(pages, k)
    }

    /** What the links of the pages read. */
    static ghost predicate Linkage(pages: seq<PageLinkNode>, prevs: seq<PageLinkNode?>, nexts: seq<PageLinkNode?>)
      reads pages`prevNode, pages`nextNode
    {
      && |prevs| == |nexts| == |pages|
      && forall k :: 0 <= k < |pages| ==> prevs[k] == pages[k].prevNode && nexts[k] == pages[k].nextNode
    }

    static ghost predicate InChain(pages: seq<PageLinkNode>, prevs: seq<PageLinkNode?>, nexts: seq<PageLinkNode?>) {
      && |prevs| == |nexts| == |pages|
      && forall k :: 0 <= k < |pages| ==> prevs[k] == Before(pages, k) && nexts[k] == After(pages, k)
    }

    static lemma ReadChain(pages: seq<PageLinkNode>) returns (prevs: seq<PageLinkNode?>, nexts: seq<PageLinkNode?>)
      requires Chained(pages) && |pages| >= 2
      ensures Linkage(pages, prevs, nexts) && InChain(pages, prevs, nexts)
      ensures pages[|pages| - 2].nextNode == pages[|pages| - 1]
      ensures |pages| > 2 ==> pages[|pages| - 2].prevNode == pages[|pages| - 3] && pages[|pages| - 3].nextNode == pages[|pages| - 2]
    {
      prevs := seq(|pages|, k requires 0 <= k < |pages| => Before(pages, k));
      nexts := seq(|pages|, k requires 0 <= k < |pages| => After(pages, k));
      assert pages[|pages| - 2].nextNode == After(pages, |pages| - 2);
      if |pages| > 2 {
        assert pages[|pages| - 2].prevNode == Before(pages, |pages| - 2);
        assert pages[|pages| - 3].nextNode == After(pages, |pages| - 3);
      }
    }

    static lemma ChainRead(pages: seq<PageLinkNode>, prevs: seq<PageLinkNode?>, nexts: seq<PageLinkNode?>)
      requires Linkage(pages, prevs, nexts) && InChain(pages, prevs, nexts)
      ensures Chained(pages)
    {
    }

    /** The nodes in use are counted page by page: a page holds some only when those before it are full. */
    static ghost predicate Counted(pages: seq<PageLinkNode>, used: int)
      reads pages`nodeUsed
    {
      forall k :: 0 <= k < |pages| ==> pages[k].nodeUsed == Filled(k, used)
    }

    /** The current page is the last but one, and the pages before it are full. */
    ghost predicate Paged()
      reads `pages, `used, `currentPage, `nextPage, pages
    {
      && |pages| >= 2 && Stocked(pages) && Chained(pages) && Counted(pages, used)
      && currentPage == pages[|pages| - 2] && nextPage == pages[|pages| - 1]
      && NODES_PER_PAGE * (|pages| - 2) <= used <= NODES_PER_PAGE * |pages|
    }

    static lemma PagesDiffer(pages: seq<PageLinkNode>)
      requires Stocked(pages)
      ensures forall j, k :: 0 <= j < k < |pages| ==> pages[j] != pages[k]
    {
      forall j, k | 0 <= j < k < |pages|
        ensures pages[j] != pages[k]
      {
        assert pages[j].nodes[0] != pages[k].nodes[0];
      }
    }

    static lemma PageDiffers(pages: seq<PageLinkNode>, i: nat)
      requires Stocked(pages) && i < |pages|
      ensures forall k :: 0 <= k < |pages| && k != i ==> pages[k] != pages[i]
    {
      PagesDiffer(pages);
    }

    static lemma OneMore(pages: seq<PageLinkNode>, used: nat, k: nat, j: nat)
      requires Stocked(pages) && k < |pages| && j < NODES_PER_PAGE && used == NODES_PER_PAGE * k + j
      ensures LiveIn(pages, used + 1) == LiveIn(pages, used) + {pages[k].nodes[j]}
      ensures pages[k].nodes[j] !in LiveIn(pages, used)
    {
      forall n | n in LiveIn(pages, used + 1) && n != pages[k].nodes[j]
        ensures n in LiveIn(pages, used)
      {
        var k', j' :| 0 <= k' < |pages| && 0 <= j' < Filled(k', used + 1) && j' < |pages[k'].nodes| && n == pages[k'].nodes[j'];
        assert 0 <= j' < Filled(k', used);
      }
      forall n | n in LiveIn(pages, used)
        ensures n in LiveIn(pages, used + 1)
      {
        var k', j' :| 0 <= k' < |pages| && 0 <= j' < Filled(k', used) && j' < |pages[k'].nodes| && n == pages[k'].nodes[j'];
        assert 0 <= j' < Filled(k', used + 1);
      }
      assert 0 <= j < Filled(k, used + 1);
    }

    /** A node for a new block: from the current page, or from the next one when that is full. */
    method TakeSlot() returns (node: TreeNode)
      requires Paged() && used < NODES_PER_PAGE * |pages|
      modifies `used, currentPage`nodeUsed, nextPage`nodeUsed
      ensures Paged() && used == old(used) + 1
      ensures node !in LiveIn(pages, old(used)) && LiveIn(pages, used) == LiveIn(pages, old(used)) + {node}
    {
      hide LiveIn, Chained;
      PageDiffers(pages, |pages| - 1);
      PageDiffers(pages, |pages| - 2);
      var fromCurrent := currentPage.AllocNode();
      if fromCurrent == null {
        var fromNext := nextPage.AllocNode();
        node := fromNext;
        OneMore(pages, used, |pages| - 1, used - NODES_PER_PAGE * (|pages| - 1));
      } else {
        node := fromCurrent;
        OneMore(pages, used, |pages| - 2, used - NODES_PER_PAGE * (|pages| - 2));
      }
      used := used + 1;
    }

    /** The last node in use. */
    method LastSlot() returns (back: TreeNode)
      requires Paged() && used > NODES_PER_PAGE * (|pages| - 2)
      ensures back !in LiveIn(pages, used - 1) && LiveIn(pages, used) == LiveIn(pages, used - 1) + {back}
    {
      hide LiveIn, Chained;
      if nextPage.nodeUsed > 0 {
        back := nextPage.nodes[nextPage.nodeUsed - 1];
        OneMore(pages, used - 1, |pages| - 1, used - 1 - NODES_PER_PAGE * (|pages| - 1));
      } else {
        back := currentPage.nodes[currentPage.nodeUsed - 1];
        OneMore(pages, used - 1, |pages| - 2, used - 1 - NODES_PER_PAGE * (|pages| - 2));
      }
    }

    method DropSlot()
      requires Paged() && used > NODES_PER_PAGE * (|pages| - 2)
      modifies `used, currentPage`nodeUsed, nextPage`nodeUsed
      ensures Paged() && used == old(used) - 1
    {
      hide Chained, Stocked;
      PageDiffers(pages, |pages| - 1);
      PageDiffers(pages, |pages| - 2);
      if nextPage.nodeUsed > 0 {
        var _ := nextPage.PopNode(1);
      } else {
        var _ := currentPage.PopNode(1);
      }
      used := used - 1;
    }

    // ----- The manager at rest -----

    /** The nodes in use. */
    ghost function Live(): set<TreeNode>
      reads `pages, `used
    {
      LiveIn(pages, used)
    }

    ghost predicate Holding(m: Table)
      reads `pages, `used, `currentPage, `nextPage, pages, addressIdxTree, sizeIdxTree, LiveIn(pages, used)
    {
      Paged() && Indexed(Live()) && Blocks(Live()) == m
    }

    /** All nodes, in use or not. */
    ghost function Slots(): set<TreeNode>
      reads this
    {
      LiveIn(pages, NODES_PER_PAGE * |pages|)
    }

    // ----- free -----

    method FindNeighbours(address: int, ghost m: Table) returns (lessNode: TreeNode?, moreNode: TreeNode?)
      requires Holding(m)
      ensures Holding(m) && Neighbours(m, address, lessNode, moreNode)
    {
      hide Focus, Ordered, Values, Read, Paged;
      lessNode := addressIdxTree.FindNode(address, Address, MatchOrLess);
      moreNode := addressIdxTree.FindNode(address, Address, MatchOrMore);
      BlocksRead(Live());
      KeysOf(Live(), Address);
      BestAreNeighbours(m, Values(Read(Live(), Address)), address, lessNode, moreNode);
    }

    static lemma BestAreNeighbours(m: Table, v: Keys, address: int, lessNode: TreeNode?, moreNode: TreeNode?)
      requires m.Keys == v.Keys && forall n :: n in m ==> m[n].address == v[n]
      requires DoubleLinkedTree.BestMatch(lessNode, v, address, MatchOrLess)
      requires DoubleLinkedTree.BestMatch(moreNode, v, address, MatchOrMore)
      ensures Neighbours(m, address, lessNode, moreNode)
    {
    }

    /** Which node a free range ends up in before a merge with the block after it. */
    static ghost predicate Receives(m: Table, address: int, size: int, less: TreeNode?, more: TreeNode?, target: TreeNode)
      requires Neighbours(m, address, less, more)
    {
      if TouchesLeft(m, address, less) then target == less
      else if TouchesRight(m, address + size, more) then target == more
      else target !in m
    }

    /** The block of that node. */
    static ghost function Grown(m: Table, address: int, size: int, less: TreeNode?, more: TreeNode?): Block
      requires Neighbours(m, address, less, more)
    {
      if TouchesLeft(m, address, less) then Block(m[less].address, m[less].size + size)
      else if TouchesRight(m, address + size, more) then Block(address, m[more].size + size)
      else Block(address, size)
    }

    lemma LiveAmongSlots()
      requires used <= NODES_PER_PAGE * |pages|
      ensures Live() <= Slots()
    {
      forall n | n in Live()
        ensures n in Slots()
      {
        var k, j :| 0 <= k < |pages| && 0 <= j < Filled(k, used) && j < |pages[k].nodes| && n == pages[k].nodes[j];
        assert 0 <= j < Filled(k, NODES_PER_PAGE * |pages|);
      }
    }

    lemma HeldBlock(n: TreeNode)
      requires Holding(free) && n in free
      ensures n in Live() && free[n] == Block(n.addressIdx.value, n.sizeIdx.value)
    {
    }

    static lemma SensibleBlock(m: Table, n: TreeNode)
      requires WellSpaced(m) && n in m
      ensures Sensible(m[n])
    {
    }

    /** A node of its own for a new block. As written, the indices survive it exactly if no search meets an equal key with a
        right child. */
    method AddBlock(address: int, size: int, intended: bool) returns (target: TreeNode)
      requires Holding(free) && used < NODES_PER_PAGE * |pages| && 0 <= address < LIMIT && 0 <= size < LIMIT
      modifies `used, `free, currentPage`nodeUsed, nextPage`nodeUsed, addressIdxTree, sizeIdxTree, Slots()
      ensures Holding(free) <==> intended || !Crowded(old(Indices(Live())), target, address, size)
      ensures Entered(old(Indices(Live())), target, address, size, Indices(Live()))
      ensures target !in old(free) && free == old(free)[target := Block(address, size)]
      ensures used == old(used) + 1
    {
      hide Indexed, Blocks, Stocked, Chained, Counted, LiveIn, Indices, Crowded, Entered;
      LiveAmongSlots();
      ghost var live, i := Live(), Indices(Live());
      BlocksRead(live);
      assert Indexed(live);
      target := TakeSlot();
      assert Indexed(live) && Indices(live) == i;
      LiveAmongSlots();
      Register(target, address, size, intended, live);
      free := free[target := Block(address, size)];
    }

    /** A block changes its size, or both its ends. */
    method ResizeBlock(node: TreeNode, size: int)
      requires Holding(free) && node in free && 0 <= size < LIMIT
      modifies `free, sizeIdxTree, Slots()
      ensures Holding(free) && free == old(free)[node := Block(old(free)[node].address, size)]
    {
      hide Indexed, Stocked, Chained, Counted, LiveIn;
      LiveAmongSlots();
      Resize(node, size, Live());
      free := free[node := Block(free[node].address, size)];
    }

    method RelocateBlock(node: TreeNode, address: int, size: int)
      requires Holding(free) && node in free && 0 <= address < LIMIT && 0 <= size < LIMIT
      modifies `free, addressIdxTree, sizeIdxTree, Slots()
      ensures Holding(free) && free == old(free)[node := Block(address, size)]
    {
      hide Indexed, Stocked, Chained, Counted, LiveIn;
      LiveAmongSlots();
      Relocate(node, address, size, Live());
      free := free[node := Block(address, size)];
    }

    /** A free range becomes part of the block before it, of the block after it, or a block of its own. */
    method Join(address: int, size: int, lessNode: TreeNode?, moreNode: TreeNode?) returns (target: TreeNode)
      requires Holding(free) && WellSpaced(free) && Fits(free, address, size, lessNode, moreNode) && size > 0
      requires used < NODES_PER_PAGE * |pages|
      requires 0 <= address && address + size < LIMIT
      modifies `used, `free, currentPage`nodeUsed, nextPage`nodeUsed, addressIdxTree, sizeIdxTree, Slots()
      ensures Holding(free) && Receives(old(free), address, size, lessNode, moreNode, target)
      ensures free == old(free)[target := Grown(old(free), address, size, lessNode, moreNode)]
      ensures old(used) <= used <= old(used) + 1
    {
      hide Holding, WellSpaced, Crowded, Entered;
      if lessNode != null {
        HeldBlock(lessNode);
        SensibleBlock(free, lessNode);
      }
      if moreNode != null {
        HeldBlock(moreNode);
        SensibleBlock(free, moreNode);
      }
      if lessNode != null && lessNode.addressIdx.value + lessNode.sizeIdx.value == address {
        ResizeBlock(lessNode, lessNode.sizeIdx.value + size);
        target := lessNode;
      } else if moreNode != null && moreNode.addressIdx.value == address + size {
        RelocateBlock(moreNode, address, moreNode.sizeIdx.value + size);
        target := moreNode;
      } else {
        target := AddBlock(address, size, true);
      }
    }

    /** A block disappears. */
    method DropBlock(target: TreeNode) returns (back: TreeNode)
      requires Holding(free) && target in free && used > NODES_PER_PAGE * (|pages| - 2)
      modifies `used, `free, currentPage`nodeUsed, nextPage`nodeUsed, addressIdxTree, sizeIdxTree, Slots()
      ensures Holding(free) && used == old(used) - 1 && (back == target || back in old(free))
      ensures free == Vacated(old(free), target, back)
    {
      hide Indexed, Blocks, Stocked, Chained, Counted, LiveIn, Vacated;
      LiveAmongSlots();
      BlocksRead(Live());
      back := ReleaseNode(target, Live());
      free := Blocks(Live());
    }

    /** The node of a block leaves both trees, and the last node in use fills the hole. */
    method ReleaseNode(target: TreeNode, ghost live: set<TreeNode>) returns (back: TreeNode)
      requires Paged() && used > NODES_PER_PAGE * (|pages| - 2)
      requires live == Live() && Indexed(live) && target in live
      modifies `used, currentPage`nodeUsed, nextPage`nodeUsed, addressIdxTree, sizeIdxTree, live
      ensures Paged() && used == old(used) - 1 && back in live && Live() == live - {back}
      ensures Indexed(live - {back}) && Blocks(live - {back}) == Vacated(old(Blocks(live)), target, back)
    {
      hide Indexed, Blocks, Paged, LiveIn, Passed;
      Unregister(target, true, live);
      ghost var rest := live - {target};
      ghost var m := Blocks(rest);
      assert Indexed(rest);
      back := PopBack();
      assert Indexed(rest) && Blocks(rest) == m;
      ghost var live' := Backfill(target, back, rest);
      assert live' == live - {back};
    }

    /** The block of `target` is gone, and `target` stands for that of `back` instead. */
    static ghost function Vacated(m: Table, target: TreeNode, back: TreeNode): Table
      requires target in m && back in m
    {
      if back == target then m - {target} else Passed(m - {target}, back, target)
    }

    method PopBack() returns (back: TreeNode)
      requires Paged() && used > NODES_PER_PAGE * (|pages| - 2)
      modifies `used, currentPage`nodeUsed, nextPage`nodeUsed
      ensures Paged() && used == old(used) - 1 && back in old(Live()) && Live() == old(Live()) - {back}
    {
      hide LiveIn, Paged;
      back := LastSlot();
      DropSlot();
    }

    /** The manager is at rest: its blocks are apart, and their total is what it says. */
    ghost predicate Sound()
      reads this, pages, addressIdxTree, sizeIdxTree, Live()
    {
      Holding(free) && WellSpaced(free) && totalFreeMemory == Total(free)
    }

    /** What is left to do once a range has joined one block, if the table is to become `whole`. */
    static ghost predicate Mergeable(m: Table, target: TreeNode, less: TreeNode?, more: TreeNode?, whole: Table) {
      && target in m
      && if less != null && less != target then less in m && m[less].End() != m[target].address && m == whole
         else if more != null && more != target then
           more in m && if m[more].address == m[target].End() then MergesInto(m, target, more, whole) else m == whole
         else m == whole
    }

    static ghost predicate MergesInto(m: Table, target: TreeNode, more: TreeNode, whole: Table)
      requires target in m && more in m
    {
      var k := Block(m[target].address, m[more].size + m[target].size);
      more != target && 0 <= k.address < LIMIT && 0 <= k.size < LIMIT && whole == m[more := k] - {target}
    }

    static lemma JoinedIsMergeable(m: Table, address: int, size: int, less: TreeNode?, more: TreeNode?, target: TreeNode)
      requires WellSpaced(m) && Fits(m, address, size, less, more) && size > 0 && 0 <= address && address + size < LIMIT
      requires Receives(m, address, size, less, more, target)
      ensures target !in m || TouchesLeft(m, address, less) || TouchesRight(m, address + size, more)
      ensures Mergeable(m[target := Grown(m, address, size, less, more)], target, less, more,
                        Freed(m, address, size, less, more, target))
    {
    }

    static lemma VacatedIsSame(m: Table, target: TreeNode, back: TreeNode)
      requires target in m && back in m && WellSpaced(m - {target})
      ensures var m', m1 := Vacated(m, target, back), m - {target};
              Bytes(m') == Bytes(m1) && Total(m') == Total(m1) && WellSpaced(m') && (PageSized(m1) ==> PageSized(m'))
    {
      assert PageSized(m - {target}) ==> PageSized(Vacated(m, target, back));
      hide WellSpaced, Bytes, Total, Passed;
      if back != target {
        PassedBytes(m - {target}, back, target);
        PassedWellSpaced(m - {target}, back, target);
      }
    }

    /** The counter stays inside the last two pages while at most one node is taken or given back. */
    ghost predicate Roomy()
      reads this
    {
      |pages| >= 2 && used < NODES_PER_PAGE * |pages| && (|pages| > 2 ==> used > NODES_PER_PAGE * (|pages| - 2))
    }

    lemma SomeUsed(n: TreeNode)
      requires Holding(free) && n in free
      ensures used > 0
    {
    }

    /** The blocks after a range has joined one of them are merged if they touch now. */
    method Merge(target: TreeNode, lessNode: TreeNode?, moreNode: TreeNode?, ghost whole: Table)
      requires Holding(free) && Mergeable(free, target, lessNode, moreNode, whole) && WellSpaced(whole)
      requires |pages| > 2 ==> used > NODES_PER_PAGE * (|pages| - 2)
      modifies `used, `free, currentPage`nodeUsed, nextPage`nodeUsed, addressIdxTree, sizeIdxTree, Slots()
      ensures Holding(free) && WellSpaced(free) && Bytes(free) == Bytes(whole) && Total(free) == Total(whole)
      ensures old(used) - 1 <= used <= old(used) && (PageSized(whole) ==> PageSized(free))
    {
      hide Holding, WellSpaced, Bytes, Total, Vacated, PageSized;
      HeldBlock(target);
      if lessNode != null && lessNode != target {
        HeldBlock(lessNode);
        // The merge with the block before never happens: the range has already joined that block if they touch.
        assert lessNode.addressIdx.value + lessNode.sizeIdx.value != target.addressIdx.value;
      } else if moreNode != null && target != moreNode {
        HeldBlock(moreNode);
        if moreNode.addressIdx.value == target.addressIdx.value + target.sizeIdx.value {
          RelocateBlock(moreNode, target.addressIdx.value, moreNode.sizeIdx.value + target.sizeIdx.value);
          SomeUsed(target);
          ghost var m' := free;
          var back := DropBlock(target);
          VacatedIsSame(m', target, back);
        }
      }
    }

    /** A free range joins the blocks it touches. */
    method Absorb(address: int, size: int, lessNode: TreeNode?, moreNode: TreeNode?)
      requires Holding(free) && WellSpaced(free) && Fits(free, address, size, lessNode, moreNode) && size > 0
      requires Roomy() && 0 <= address && address + size < LIMIT
      modifies `used, `free, currentPage`nodeUsed, nextPage`nodeUsed, addressIdxTree, sizeIdxTree, Slots()
      ensures Holding(free) && WellSpaced(free) && old(used) - 1 <= used <= old(used) + 1
      ensures Bytes(free) == old(Bytes(free)) + Range(address, size) && Total(free) == old(Total(free)) + size
      ensures old(PageSized(free)) && Aligned(address) && Aligned(size) ==> PageSized(free)
    {
      ghost var m := free;
      assert Neighbours(m, address, lessNode, moreNode);
      hide Holding, WellSpaced, Fits, Neighbours, Receives, Grown, TouchesLeft, TouchesRight, Freed, Mergeable, Bytes, Range, Total, PageSized;
      var target := Join(address, size, lessNode, moreNode);
      JoinedIsMergeable(m, address, size, lessNode, moreNode, target);
      FreedBytes(m, address, size, lessNode, moreNode, target);
      FreedWellSpaced(m, address, size, lessNode, moreNode, target);
      FreedTotal(m, address, size, lessNode, moreNode, target);
      FreedPageSized(m, address, size, lessNode, moreNode, target);
      Merge(target, lessNode, moreNode, Freed(m, address, size, lessNode, moreNode, target));
    }

    /** Freeing without a look at the node pages. */
    method FreeRange(address: int, size: int) returns (changed: bool)
      requires Sound() && Roomy() && 0 <= address && 0 <= size && address + size < LIMIT && !Underruns(free, address, size)
      modifies `used, `free, `totalFreeMemory, currentPage`nodeUsed, nextPage`nodeUsed, addressIdxTree, sizeIdxTree, Slots()
      ensures Sound() && old(used) - 1 <= used <= old(used) + 1 && (!changed ==> used == old(used))
      ensures Bytes(free) == old(Bytes(free)) + old(Added(free, address, size))
      ensures old(PageSized(free)) && Aligned(address) && Aligned(size) ==> PageSized(free)
    {
      hide WellSpaced, Fits, Neighbours, Added, Bytes, Range, Total, Stocked, Chained, Counted, Indexed, Blocks, LiveIn, PageSized;
      if size == 0 {
        NothingAdded(free, address);
        return false;
      }
      var lessNode, moreNode := FindNeighbours(address, free);
      NeighboursHeld(address, lessNode, moreNode);
      CutFits(free, address, size, lessNode, moreNode);
      CutAligned(free, address, size, lessNode, moreNode);
      var begin, length := address, size;
      if lessNode != null {
        var lessNodeUpBound := lessNode.addressIdx.value + lessNode.sizeIdx.value;
        if lessNodeUpBound >= address + size {
          return false;
        } else if lessNodeUpBound > address {
          length := length - (lessNodeUpBound - address);
          begin := lessNodeUpBound;
        }
      }
      if moreNode != null {
        var moreNodeAddr := moreNode.addressIdx.value;
        // The early return for a range that begins with the next block never happens.
        assert begin != moreNodeAddr;
        if begin + length > moreNodeAddr {
          length := moreNodeAddr - begin;
        }
      }
      totalFreeMemory := totalFreeMemory + length;
      Absorb(begin, length, lessNode, moreNode);
      changed := true;
    }

    lemma NeighboursHeld(address: int, lessNode: TreeNode?, moreNode: TreeNode?)
      requires Holding(free) && Neighbours(free, address, lessNode, moreNode)
      ensures lessNode != null ==> lessNode in free && free[lessNode] == Block(lessNode.addressIdx.value, lessNode.sizeIdx.value)
      ensures moreNode != null ==> moreNode in free && free[moreNode] == Block(moreNode.addressIdx.value, moreNode.sizeIdx.value)
    {
    }

    static lemma NothingAdded(m: Table, address: int)
      ensures Added(m, address, 0) == iset{}
    {
    }

    // ----- alloc -----

    static ghost predicate Available(m: Table, size: int) {
      exists n :: n in m && m[n].size >= size
    }

    /** A smallest block that is large enough. */
    static ghost predicate BestFit(m: Table, size: int, n: TreeNode) {
      n in m && m[n].size >= size && forall j :: j in m && m[j].size >= size ==> m[n].size <= m[j].size
    }

    /** The upper end of a best fit. */
    static ghost predicate CutFromBestFit(m: Table, size: int, result: int) {
      exists n :: n in m && BestFit(m, size, n) && result == m[n].End() - size
    }

    method FindBestFit(size: int) returns (node: TreeNode?)
      requires Holding(free)
      ensures Holding(free) && (if node == null then !Available(free, size) else BestFit(free, size, node))
    {
      hide Focus, Ordered, Values, Read, Paged;
      node := sizeIdxTree.FindNode(size, Size, MatchOrMore);
      BlocksRead(Live());
      KeysOf(Live(), Size);
      BestIsFit(free, Values(Read(Live(), Size)), size, node);
    }

    static lemma BestIsFit(m: Table, v: Keys, size: int, node: TreeNode?)
      requires m.Keys == v.Keys && forall n :: n in m ==> m[n].size == v[n]
      requires DoubleLinkedTree.BestMatch(node, v, size, MatchOrMore)
      ensures if node == null then !Available(m, size) else BestFit(m, size, node)
    {
    }

    static lemma TakenKeeps(m: Table, n: TreeNode, size: int)
      requires WellSpaced(m) && n in m && 0 <= size <= m[n].size
      ensures Bytes(Taken(m, n, size)) == Bytes(m) - Range(m[n].End() - size, size)
      ensures Range(m[n].End() - size, size) <= Bytes(m) && WellSpaced(Taken(m, n, size))
      ensures Total(Taken(m, n, size)) == Total(m) - size && (PageSized(m) && Aligned(size) ==> PageSized(Taken(m, n, size)))
    {
      TakenBytes(m, n, size);
      TakenWellSpaced(m, n, size);
      TakenTotal(m, n, size);
      TakenPageSized(m, n, size);
    }

    /** Allocating without a look at the node pages. */
    method AllocRange(size: int) returns (result: int, nodeRemoved: bool)
      requires Sound() && 0 <= size < LIMIT && (|pages| > 2 ==> used > NODES_PER_PAGE * (|pages| - 2))
      modifies `used, `free, `totalFreeMemory, currentPage`nodeUsed, nextPage`nodeUsed, addressIdxTree, sizeIdxTree, Slots()
      ensures Sound() && used == if nodeRemoved then old(used) - 1 else old(used)
      ensures old(PageSized(free)) && Aligned(size) ==> PageSized(free)
      ensures !old(Available(free, size)) ==>
                result == 0 && !nodeRemoved && free == old(free) && totalFreeMemory == old(totalFreeMemory)
      ensures old(Available(free, size)) ==>
                && CutFromBestFit(old(free), size, result) && Range(result, size) <= old(Bytes(free))
                && Bytes(free) == old(Bytes(free)) - Range(result, size) && totalFreeMemory == old(totalFreeMemory) - size
    {
      hide WellSpaced, Bytes, Range, Total, Stocked, Chained, Counted, Indexed, Blocks, LiveIn, Vacated, PageSized;
      nodeRemoved := false;
      var node := FindBestFit(size);
      if node == null {
        return 0, false;
      }
      HeldBlock(node);
      SensibleBlock(free, node);
      ghost var m := free;
      TakenKeeps(m, node, size);
      if node.sizeIdx.value == size {
        result := node.addressIdx.value;
        SomeUsed(node);
        var back := DropBlock(node);
        VacatedIsSame(m, node, back);
        nodeRemoved := true;
      } else {
        result := node.addressIdx.value + node.sizeIdx.value - size;
        ResizeBlock(node, node.sizeIdx.value - size);
      }
      totalFreeMemory := totalFreeMemory - size;
    }

    // ----- The node pages -----

    /** A byte of one of the node pages that were taken from free memory: all but the first two. */
    static ghost predicate InPage(pages: seq<PageLinkNode>, b: int) {
      exists k :: 2 <= k < |pages| && Within(b, pages[k].base, PAGE_SIZE)
    }

    static ghost function PageBytes(pages: seq<PageLinkNode>): iset<int> {
      iset b | InPage(pages, b)
    }

    /** Those pages are whole pages of memory, apart from each other and from free memory. */
    static ghost predicate Housed(pages: seq<PageLinkNode>, m: Table) {
      && (forall k :: 2 <= k < |pages| ==> Aligned(pages[k].base) && 0 <= pages[k].base < LIMIT - PAGE_SIZE)
      && (forall j, k :: 2 <= j < k < |pages| ==> Range(pages[j].base, PAGE_SIZE) !! Range(pages[k].base, PAGE_SIZE))
      && Bytes(m) !! PageBytes(pages)
    }

    /** The thresholds: between two calls, the current page is not nearly empty unless it is the first one, and
        the next page is not nearly full. */
    ghost predicate Settled()
      reads `pages, `used
    {
      && |pages| >= 2 && used <= NODES_PER_PAGE * (|pages| - 1) + ALLOC_PAGE_NODE_THRESHOLD
      && (|pages| > 2 ==> used >= NODES_PER_PAGE * (|pages| - 2) + FREE_PAGE_NODE_THRESHOLD)
    }

    ghost predicate Valid()
      reads this, pages, addressIdxTree, sizeIdxTree, Live()
    {
      Sound() && PageSized(free) && Housed(pages, free) && Settled()
    }

    /** All memory that the manager answers for: free bytes and its own pages. */
    ghost function Managed(): iset<int>
      reads this
    {
      Bytes(free) + PageBytes(pages)
    }

    static lemma PagesWith(pages: seq<PageLinkNode>, page: PageLinkNode)
      requires |pages| >= 2
      ensures PageBytes(pages + [page]) == PageBytes(pages) + Range(page.base, PAGE_SIZE)
    {
      var pages' := pages + [page];
      forall b
        ensures InPage(pages', b) <==> InPage(pages, b) || Within(b, page.base, PAGE_SIZE)
      {
        if InPage(pages, b) {
          var k :| 2 <= k < |pages| && Within(b, pages[k].base, PAGE_SIZE);
          assert pages'[k] == pages[k];
        }
        if Within(b, page.base, PAGE_SIZE) {
          assert pages'[|pages|] == page;
        }
      }
    }

    static lemma HousedWith(pages: seq<PageLinkNode>, page: PageLinkNode, m: Table, m': Table)
      requires Housed(pages, m) && |pages| >= 2 && Aligned(page.base) && 0 <= page.base < LIMIT - PAGE_SIZE
      requires Range(page.base, PAGE_SIZE) <= Bytes(m) && Bytes(m') == Bytes(m) - Range(page.base, PAGE_SIZE)
      ensures Housed(pages + [page], m')
      ensures Bytes(m') + PageBytes(pages + [page]) == Bytes(m) + PageBytes(pages)
    {
      PagesWith(pages, page);
      hide Bytes;
      forall k | 2 <= k < |pages|
        ensures Range(pages[k].base, PAGE_SIZE) !! Range(page.base, PAGE_SIZE)
      {
        assert forall b :: b in Range(pages[k].base, PAGE_SIZE) ==> InPage(pages, b);
      }
    }

    static lemma HousedWithout(pages: seq<PageLinkNode>, m: Table, m': Table)
      requires Housed(pages, m) && |pages| > 2
      requires var base := pages[|pages| - 1].base; Bytes(m') == Bytes(m) + Range(base, PAGE_SIZE)
      ensures Housed(pages[..|pages| - 1], m')
      ensures Bytes(m') + PageBytes(pages[..|pages| - 1]) == Bytes(m) + PageBytes(pages)
    {
      var rest, page := pages[..|pages| - 1], pages[|pages| - 1];
      assert pages == rest + [page];
      PagesWith(rest, page);
      hide Bytes;
      forall b | b in Range(page.base, PAGE_SIZE)
        ensures !InPage(rest, b)
      {
        assert forall k :: 2 <= k < |rest| ==> rest[k] == pages[k] && Range(rest[k].base, PAGE_SIZE) !! Range(page.base, PAGE_SIZE);
        assert forall k :: 2 <= k < |rest| ==> (Within(b, rest[k].base, PAGE_SIZE) <==> b in Range(rest[k].base, PAGE_SIZE));
      }
    }

    static lemma LiveWithout(pages: seq<PageLinkNode>, used: int)
      requires |pages| > 0 && used <= NODES_PER_PAGE * (|pages| - 1)
      ensures LiveIn(pages[..|pages| - 1], used) == LiveIn(pages, used)
    {
      var rest := pages[..|pages| - 1];
      assert Filled(|pages| - 1, used) == 0;
      forall n | n in LiveIn(pages, used)
        ensures n in LiveIn(rest, used)
      {
        var k, j :| 0 <= k < |pages| && 0 <= j < Filled(k, used) && j < |pages[k].nodes| && n == pages[k].nodes[j];
        assert rest[k] == pages[k];
      }
      forall n | n in LiveIn(rest, used)
        ensures n in LiveIn(pages, used)
      {
        var k, j :| 0 <= k < |rest| && 0 <= j < Filled(k, used) && j < |rest[k].nodes| && n == rest[k].nodes[j];
        assert rest[k] == pages[k];
      }
    }

    /** A page with fresh nodes at `base`. */
    static method NewPage(base: int) returns (page: PageLinkNode)
      ensures fresh(page) && page.base == base && page.Full() && fresh(page.Nodes())
      ensures page.nodeUsed == 0 && page.prevNode == null && page.nextNode == null
    {
      var nodes: seq<TreeNode> := [];
      while |nodes| < NODES_PER_PAGE
        invariant |nodes| <= NODES_PER_PAGE && forall n :: n in nodes ==> fresh(n)
        invariant forall j, j' :: 0 <= j < j' < |nodes| ==> nodes[j] != nodes[j']
      {
        var node := new TreeNode();
        nodes := nodes + [node];
      }
      page := new PageLinkNode(base, nodes);
      assert forall n :: n in page.Nodes() ==> n in nodes;
    }

    /** The last page, which holds no node in use, is cut off. */
    method DetachPage()
      requires Holding(free) && |pages| > 2
      requires NODES_PER_PAGE * (|pages| - 3) <= used <= NODES_PER_PAGE * (|pages| - 1)
      modifies `pages, `currentPage, `nextPage, pages
      ensures Holding(free) && pages == old(pages[..|pages| - 1])
    {
      hide Indexed, Blocks, Paged;
      ghost var live := Live();
      assert Indexed(live) && Blocks(live) == free;
      LiveWithout(pages, used);
      UnlinkPage();
      assert Indexed(live) && Blocks(live) == free;
    }

    method UnlinkPage()
      requires Paged() && |pages| > 2
      requires NODES_PER_PAGE * (|pages| - 3) <= used <= NODES_PER_PAGE * (|pages| - 1)
      modifies `pages, `currentPage, `nextPage, pages
      ensures Paged() && pages == old(pages[..|pages| - 1])
    {
      hide Stocked, Chained, Counted, InChain;
      ghost var before, n := pages, |pages| - 1;
      ghost var prevs, nexts := ReadChain(before);
      PageDiffers(before, n - 1);
      currentPage := currentPage.prevNode;
      nextPage := currentPage.nextNode;
      nextPage.nextNode := null;
      pages := pages[..n];
      Prefix(before, used);
      Shortened(before, prevs, nexts);
      ChainRead(pages, prevs[..n], nexts[..n][n - 1 := null]);
    }

    static lemma Shortened(pages: seq<PageLinkNode>, prevs: seq<PageLinkNode?>, nexts: seq<PageLinkNode?>)
      requires InChain(pages, prevs, nexts) && |pages| >= 2
      ensures var n := |pages| - 1; InChain(pages[..n], prevs[..n], nexts[..n][n - 1 := null])
    {
      forall k: nat | k < |pages| - 1 {
        PrefixNeighbours(pages, k);
      }
    }

    static lemma Lengthened(pages: seq<PageLinkNode>, prevs: seq<PageLinkNode?>, nexts: seq<PageLinkNode?>, page: PageLinkNode)
      requires InChain(pages, prevs, nexts) && |pages| >= 1
      ensures var n := |pages| - 1; InChain(pages + [page], prevs + [pages[n]], nexts[n := page] + [null])
    {
      var pages' := pages + [page];
      assert pages == pages'[..|pages|];
      forall k: nat | k < |pages| {
        PrefixNeighbours(pages', k);
      }
    }

    static lemma PrefixNeighbours(pages: seq<PageLinkNode>, k: nat)
      requires k < |pages| - 1
      ensures var rest := pages[..|pages| - 1];
        && rest[k] == pages[k] && Before(rest, k) == Before(pages, k)
        && After(rest, k) == if k == |pages| - 2 then null else After(pages, k)
    {
    }

    static lemma Prefix(pages: seq<PageLinkNode>, used: int)
      requires |pages| > 0
      ensures Stocked(pages) ==> Stocked(pages[..|pages| - 1])
      ensures Counted(pages, used) ==> Counted(pages[..|pages| - 1], used)
    {
      var rest := pages[..|pages| - 1];
      assert forall k :: 0 <= k < |rest| ==> rest[k] == pages[k];
    }

    /** A new page with unused nodes is chained behind the next one, which becomes the current one. */
    method AppendPage(base: int)
      requires Holding(free) && NODES_PER_PAGE * (|pages| - 1) <= used <= NODES_PER_PAGE * |pages|
      modifies `pages, `currentPage, `nextPage, pages
      ensures Holding(free) && |pages| == old(|pages|) + 1 && pages[..|pages| - 1] == old(pages) && pages[|pages| - 1].base == base
      ensures fresh(pages[|pages| - 1]) && fresh(pages[|pages| - 1].Nodes())
    {
      hide Indexed, Blocks, Paged, Stocked, PageLinkNode.Nodes;
      ghost var before, live := pages, Live();
      var page := ExtraPage(base);
      LinkPage(page);
      assert pages[..|before|] == before;
      LiveWithout(pages, used);
      assert Indexed(live) && Blocks(live) == free;
    }

    method ExtraPage(base: int) returns (page: PageLinkNode)
      requires Paged()
      ensures fresh(page) && page.base == base && fresh(page.Nodes())
      ensures Paged() && Stocked(pages + [page])
    {
      assert Stocked(pages);
      hide Paged, Stocked, LiveIn, PageLinkNode.Nodes, PageLinkNode.Full;
      ghost var slots := Slots();
      page := NewPage(base);
      StockedWith(pages, page);
    }

    method LinkPage(page: PageLinkNode)
      requires Paged() && NODES_PER_PAGE * (|pages| - 1) <= used <= NODES_PER_PAGE * |pages|
      requires page !in pages && Stocked(pages + [page])
      modifies `pages, `currentPage, `nextPage, pages, page
      ensures Paged() && pages == old(pages) + [page]
    {
      hide Stocked, Chained, Counted, InChain;
      ghost var before, n := pages, |pages| - 1;
      ghost var prevs, nexts := ReadChain(before);
      PageDiffers(before, n);
      Hook(page);
      pages := pages + [page];
      CountedWith(before, page, used);
      Lengthened(before, prevs, nexts, page);
      ChainRead(pages, prevs + [before[n]], nexts[n := page] + [null]);
    }

    method Hook(page: PageLinkNode)
      requires currentPage.nextNode == nextPage && currentPage != nextPage && page != currentPage && page != nextPage
      modifies `currentPage, `nextPage, nextPage`nextNode, page
      ensures currentPage == old(nextPage) && nextPage == page && currentPage.nextNode == page
      ensures page.nextNode == null && page.prevNode == currentPage && page.nodeUsed == 0
    {
      nextPage := page;
      nextPage.nextNode := null;
      nextPage.nodeUsed := 0;
      nextPage.prevNode := currentPage.nextNode;
      currentPage := currentPage.nextNode;
      currentPage.nextNode := nextPage;
    }

    static lemma StockedWith(pages: seq<PageLinkNode>, page: PageLinkNode)
      requires Stocked(pages) && page.Full() && page.Nodes() !! LiveIn(pages, NODES_PER_PAGE * |pages|)
      ensures Stocked(pages + [page])
    {
      var pages' := pages + [page];
      forall k, j | 0 <= k < |pages| && 0 <= j < NODES_PER_PAGE
        ensures pages[k].nodes[j] in LiveIn(pages, NODES_PER_PAGE * |pages|)
      {
        assert j < Filled(k, NODES_PER_PAGE * |pages|);
      }
      assert forall j :: 0 <= j < NODES_PER_PAGE ==> page.nodes[j] in page.Nodes();
    }

    static lemma CountedWith(pages: seq<PageLinkNode>, page: PageLinkNode, used: int)
      requires Counted(pages, used) && page.nodeUsed == 0 && used <= NODES_PER_PAGE * |pages|
      ensures Counted(pages + [page], used)
    {
    }

    ghost function Footprint(): set<object>
      reads this
    {
      {addressIdxTree, sizeIdxTree} + (set p: object | p in pages) + Slots()
    }

    /** One step away from `Settled`. */
    ghost predicate NearlySettled()
      reads `pages, `used
    {
      && |pages| >= 2 && used <= NODES_PER_PAGE * (|pages| - 1) + ALLOC_PAGE_NODE_THRESHOLD + 1
      && (|pages| > 2 ==> used >= NODES_PER_PAGE * (|pages| - 2) + FREE_PAGE_NODE_THRESHOLD - 1)
    }

    static lemma LastPageApart(pages: seq<PageLinkNode>, m: Table)
      requires Housed(pages, m) && |pages| > 2 && WellSpaced(m)
      ensures var base := pages[|pages| - 1].base;
        && Aligned(base) && 0 <= base && base + PAGE_SIZE < LIMIT
        && !Underruns(m, base, PAGE_SIZE) && Added(m, base, PAGE_SIZE) == Range(base, PAGE_SIZE)
    {
      var base := pages[|pages| - 1].base;
      forall b | b in Range(base, PAGE_SIZE)
        ensures b !in Bytes(m)
      {
        assert InPage(pages, b);
      }
      DisjointAdded(m, base, PAGE_SIZE);
    }

    lemma PageAvailable()
      requires Holding(free) && WellSpaced(free) && PageSized(free) && used > 0
      ensures Available(free, PAGE_SIZE)
    {
      hide Indexed, WellSpaced, PageSized, Available, Blocks, LiveIn, Chained, Counted;
      SomeLive(pages, used);
      BlocksRead(Live());
      AnyFits(free);
    }

    static lemma SomeLive(pages: seq<PageLinkNode>, used: int)
      requires |pages| > 0 && Stocked(pages) && used > 0
      ensures LiveIn(pages, used) != {}
    {
      assert 0 < Filled(0, used);
      assert pages[0].nodes[0] in LiveIn(pages, used);
    }

    static lemma AnyFits(m: Table)
      requires WellSpaced(m) && PageSized(m) && m.Keys != {}
      ensures Available(m, PAGE_SIZE)
    {
      var n: TreeNode :| n in m;
      assert Sensible(m[n]) && Aligned(m[n].size);
    }

    lemma Ends()
      requires Holding(free)
      ensures |pages| >= 2 && currentPage == pages[|pages| - 2] && nextPage == pages[|pages| - 1]
    {
    }

    lemma Used()
      requires Paged()
      ensures currentPage.nodeUsed == Filled(|pages| - 2, used) && nextPage.nodeUsed == Filled(|pages| - 1, used)
      ensures currentPage.prevNode != null <==> |pages| > 2
    {
      assert currentPage.prevNode == Before(pages, |pages| - 2);
    }

    /** Every block has one node, and no node in use is without a block. */
    lemma UsedCountsBlocks()
      requires Holding(free)
      ensures used == |free|
    {
      LiveCount(pages, used);
      BlocksRead(Live());
      assert free.Keys == Live() && |free.Keys| == |free|;
    }

    static lemma {:induction false} LiveCount(pages: seq<PageLinkNode>, u: nat)
      requires Stocked(pages) && u <= NODES_PER_PAGE * |pages|
      ensures |LiveIn(pages, u)| == u
    {
      hide LiveIn, Stocked;
      if u == 0 {
        NoneLive(pages);
      } else {
        LiveCount(pages, u - 1);
        OneMore(pages, u - 1, (u - 1) / NODES_PER_PAGE, (u - 1) % NODES_PER_PAGE);
      }
    }

    /** What becomes of the node pages when `u` of their nodes are in use: fewer than six in the current page, which is not the
        first one, and the next page goes; more than forty-four in the next page, and one more page comes; otherwise they stay. */
    static ghost predicate Rearranged(pages: seq<PageLinkNode>, u: int, pages': seq<PageLinkNode>) {
      var n := |pages|;
      if n > 2 && u < 50 * (n - 2) + 6 then pages' == pages[..n - 1]
      else if u > 50 * (n - 1) + 44 then |pages'| == n + 1 && pages'[..n] == pages
      else pages' == pages
    }

    method AdjustPageLinkNodes()
      requires Sound() && PageSized(free) && Housed(pages, free) && NearlySettled()
      modifies this, Footprint()
      ensures Valid() && Managed() == old(Managed())
      ensures forall o :: o in Footprint() ==> o in old(Footprint()) || fresh(o)
      ensures Rearranged(old(pages), old(used), pages)
      ensures |pages| > old(|pages|) ==> CutFromBestFit(old(free), PAGE_SIZE, pages[|pages| - 1].base)
    {
      Thresholds();
      hide Holding, PageSized, Housed, Indexed, Footprint, WellSpaced, Managed, Total, Filled, Rearranged, CutFromBestFit;
      ghost var before, u := pages, used;
      if currentPage.nodeUsed < FREE_PAGE_NODE_THRESHOLD && currentPage.prevNode != null {
        GiveBackPage();
        OneLess(before, u);
      } else if nextPage.nodeUsed > ALLOC_PAGE_NODE_THRESHOLD {
        TakePage();
        OneMorePage(before, u, pages);
      } else {
        AsBefore(before, u);
      }
    }

    lemma Thresholds()
      requires Holding(free)
      ensures currentPage.nodeUsed < 6 <==> used < 50 * (|pages| - 2) + 6
      ensures nextPage.nodeUsed > 44 <==> used > 50 * (|pages| - 1) + 44
      ensures currentPage.prevNode != null <==> |pages| > 2
      ensures |pages| >= 2
    {
      Used();
    }

    static lemma OneLess(pages: seq<PageLinkNode>, u: int)
      requires |pages| > 2 && u < 50 * (|pages| - 2) + 6
      ensures Rearranged(pages, u, pages[..|pages| - 1])
    {
    }

    static lemma OneMorePage(pages: seq<PageLinkNode>, u: int, pages': seq<PageLinkNode>)
      requires u > 50 * (|pages| - 1) + 44 && |pages'| == |pages| + 1 && pages'[..|pages|] == pages
      ensures Rearranged(pages, u, pages')
    {
    }

    static lemma AsBefore(pages: seq<PageLinkNode>, u: int)
      requires u <= 50 * (|pages| - 1) + 44 && (|pages| > 2 ==> u >= 50 * (|pages| - 2) + 6)
      ensures Rearranged(pages, u, pages)
    {
    }

    method GiveBackPage()
      requires Sound() && PageSized(free) && Housed(pages, free) && NearlySettled()
      requires |pages| > 2 && used < NODES_PER_PAGE * (|pages| - 2) + FREE_PAGE_NODE_THRESHOLD
      modifies this, Footprint()
      ensures Valid() && Managed() == old(Managed()) && pages == old(pages[..|pages| - 1])
      ensures Footprint() <= old(Footprint())
    {
      hide Holding, WellSpaced, PageSized, Housed, Bytes, PageBytes, Total, Range, Added, Underruns, LiveIn;
      ghost var m, base := free, nextPage.base;
      Ends();
      LastPageApart(pages, free);
      var _ := FreeRange(nextPage.base, PAGE_SIZE);
      HousedWithout(pages, m, free);
      SlotsPrefix(pages);
      DetachPage();
    }

    method TakePage()
      requires Sound() && PageSized(free) && Housed(pages, free) && NearlySettled()
      requires used > NODES_PER_PAGE * (|pages| - 1) + ALLOC_PAGE_NODE_THRESHOLD
      modifies this, Footprint()
      ensures Valid() && Managed() == old(Managed()) && |pages| == old(|pages|) + 1 && pages[..|pages| - 1] == old(pages)
      ensures CutFromBestFit(old(free), PAGE_SIZE, pages[|pages| - 1].base)
      ensures forall o :: o in Footprint() ==> o in old(Footprint()) || fresh(o)
    {
      hide Holding, WellSpaced, PageSized, Housed, Bytes, PageBytes, Total, Range, LiveIn, PageLinkNode.Nodes;
      ghost var m, before := free, pages;
      Ends();
      PageAvailable();
      var base, _ := AllocRange(PAGE_SIZE);
      AppendPage(base);
      assert pages == before + [pages[|pages| - 1]];
      TakenHoused(before, pages[|pages| - 1], m, free);
      SlotsWith(before, pages[|pages| - 1]);
    }

    static lemma TakenHoused(pages: seq<PageLinkNode>, page: PageLinkNode, m: Table, m': Table)
      requires Housed(pages, m) && WellSpaced(m) && PageSized(m) && |pages| >= 2
      requires CutFromBestFit(m, PAGE_SIZE, page.base) && Range(page.base, PAGE_SIZE) <= Bytes(m)
      requires Bytes(m') == Bytes(m) - Range(page.base, PAGE_SIZE)
      ensures Housed(pages + [page], m')
      ensures Bytes(m') + PageBytes(pages + [page]) == Bytes(m) + PageBytes(pages)
    {
      var n: TreeNode :| n in m && BestFit(m, PAGE_SIZE, n) && page.base == m[n].End() - PAGE_SIZE;
      assert Sensible(m[n]) && Aligned(m[n].address) && Aligned(m[n].size);
      HousedWith(pages, page, m, m');
    }

    static lemma SlotsPrefix(pages: seq<PageLinkNode>)
      requires |pages| > 0
      ensures var rest := pages[..|pages| - 1]; LiveIn(rest, NODES_PER_PAGE * |rest|) <= LiveIn(pages, NODES_PER_PAGE * |pages|)
    {
      var rest := pages[..|pages| - 1];
      assert pages == rest + [pages[|pages| - 1]];
      forall n | n in LiveIn(rest, NODES_PER_PAGE * |rest|)
        ensures n in LiveIn(pages, NODES_PER_PAGE * |pages|)
      {
        var k, j :| 0 <= k < |rest| && 0 <= j < Filled(k, NODES_PER_PAGE * |rest|) && j < |rest[k].nodes| && n == rest[k].nodes[j];
        assert rest[k] == pages[k] && 0 <= j < Filled(k, NODES_PER_PAGE * |pages|);
      }
    }

    static lemma SlotsWith(pages: seq<PageLinkNode>, page: PageLinkNode)
      ensures LiveIn(pages + [page], NODES_PER_PAGE * |pages + [page]|) <= LiveIn(pages, NODES_PER_PAGE * |pages|) + page.Nodes()
    {
      var pages', all := pages + [page], NODES_PER_PAGE * |pages + [page]|;
      forall n | n in LiveIn(pages', all)
        ensures n in LiveIn(pages, NODES_PER_PAGE * |pages|) + page.Nodes()
      {
        var k, j :| 0 <= k < |pages'| && 0 <= j < Filled(k, all) && j < |pages'[k].nodes| && n == pages'[k].nodes[j];
        if k < |pages| {
          assert pages'[k] == pages[k] && 0 <= j < Filled(k, NODES_PER_PAGE * |pages|);
        }
      }
    }

    // ----- The operations of the manager -----

    static lemma AddedHoused(pages: seq<PageLinkNode>, m: Table, m': Table, address: int, size: int)
      requires Housed(pages, m) && Range(address, size) !! PageBytes(pages)
      requires Bytes(m') == Bytes(m) + Added(m, address, size)
      ensures Housed(pages, m') && Bytes(m') + PageBytes(pages) == Bytes(m) + PageBytes(pages) + Added(m, address, size)
    {
      hide Bytes, PageBytes;
      assert forall b :: b in Added(m, address, size) ==> b in Range(address, size);
    }

    static lemma TakenStillHoused(pages: seq<PageLinkNode>, m: Table, m': Table, taken: iset<int>)
      requires Housed(pages, m) && taken <= Bytes(m) && Bytes(m') == Bytes(m) - taken
      ensures Housed(pages, m') && Bytes(m') + PageBytes(pages) == Bytes(m) + PageBytes(pages) - taken
    {
      hide Bytes, PageBytes;
    }

    method Free(address: int, size: int)
      requires Valid() && 0 <= address && 0 <= size && address + size < LIMIT && Aligned(address) && Aligned(size)
      requires Range(address, size) !! PageBytes(pages) && !Underruns(free, address, size)
      modifies this, Footprint()
      ensures Valid() && Managed() == old(Managed() + Added(free, address, size))
      ensures forall o :: o in Footprint() ==> o in old(Footprint()) || fresh(o)
      ensures exists u: int :: old(used) - 1 <= u <= old(used) + 1 && Rearranged(old(pages), u, pages)
    {
      hide Holding, WellSpaced, PageSized, Housed, Bytes, PageBytes, Total, Range, Added, Underruns, LiveIn, Rearranged;
      ghost var m, f := free, Footprint();
      Ends();
      var changed := FreeRange(address, size);
      assert Footprint() == f;
      AddedHoused(pages, m, free, address, size);
      if changed {
        ghost var u, before := used, pages;
        assert Footprint() == f;
        AdjustPageLinkNodes();
        assert forall o :: o in Footprint() ==> o in f || fresh(o);
        assert Rearranged(before, u, pages);
      } else {
        assert Footprint() == f;
        AsBefore(pages, used);
      }
    }

    method Alloc(size: int) returns (result: int)
      requires Valid() && 0 <= size < LIMIT && Aligned(size)
      modifies this, Footprint()
      ensures Valid() && forall o :: o in Footprint() ==> o in old(Footprint()) || fresh(o)
      ensures !old(Available(free, size)) ==> result == 0 && free == old(free) && pages == old(pages)
      ensures old(Available(free, size)) ==>
                && CutFromBestFit(old(free), size, result) && Range(result, size) <= old(Bytes(free))
                && Managed() == old(Managed()) - Range(result, size)
      ensures exists u: int :: old(used) - 1 <= u <= old(used) && Rearranged(old(pages), u, pages)
    {
      hide Holding, WellSpaced, PageSized, Housed, Bytes, PageBytes, Total, Range, Available, CutFromBestFit, LiveIn, Rearranged;
      ghost var m, f := free, Footprint();
      Ends();
      var r, nodeRemoved := AllocRange(size);
      assert Footprint() == f;
      if Available(m, size) {
        TakenStillHoused(pages, m, free, Range(r, size));
      }
      if nodeRemoved {
        ghost var u, before := used, pages;
        assert Footprint() == f;
        AdjustPageLinkNodes();
        assert forall o :: o in Footprint() ==> o in f || fresh(o);
        assert Rearranged(before, u, pages);
      } else {
        assert Footprint() == f;
        AsBefore(pages, used);
      }
      result := r;
    }

    method GetTotalFreeMemory() returns (total: int)
      requires Valid()
      ensures total == Total(free)
    {
      total := totalFreeMemory;
    }

    /** The two pages that are there before any memory is free. */
    static const FIRST_PAGE := 0x48000

    constructor ()
      ensures Valid() && free == map[] && used == 0 && fresh(Footprint())
      ensures |pages| == 2 && pages[0].base == 0x48000 && pages[1].base == 0x48000 + 4096
    {
      hide Stocked, Chained, Counted, LiveIn, PageLinkNode.Nodes, PageLinkNode.Full, Valid;
      addressIdxTree := new DoubleLinkedTree();
      sizeIdxTree := new DoubleLinkedTree();
      totalFreeMemory := 0;
      var first, second := NewPages(FIRST_PAGE);
      currentPage, nextPage := first, second;
      pages, used, free := [first, second], 0, map[];
      first.nextNode := second;
      second.prevNode := first;
      FirstStocked(first, second);
      FirstChained(first, second);
      new;
      InitiallyValid();
    }

    lemma InitiallyValid()
      requires addressIdxTree != sizeIdxTree && free == map[] && used == 0 && totalFreeMemory == 0
      requires addressIdxTree.root == null && addressIdxTree.tree == Nil
      requires sizeIdxTree.root == null && sizeIdxTree.tree == Nil
      requires |pages| == 2 && currentPage == pages[0] && nextPage == pages[1]
      requires Stocked(pages) && Chained(pages) && Counted(pages, 0)
      ensures Valid()
    {
      hide Stocked, Chained, Counted, LiveIn, Tight, WellSpaced, PageSized, Housed, Total, Blocks, Bytes;
      NoneLive(pages);
      NothingFree(pages);
      NoTree(Read({}, Address));
      NoTree(Read({}, Size));
    }

    /** Two adjacent pages with fresh nodes. */
    static method NewPages(base: int) returns (first: PageLinkNode, second: PageLinkNode)
      ensures fresh(first) && fresh(second) && fresh(first.Nodes()) && fresh(second.Nodes()) && first != second
      ensures first.base == base && second.base == base + PAGE_SIZE
      ensures first.Full() && second.Full() && first.Nodes() !! second.Nodes()
      ensures first.nodeUsed == 0 && first.prevNode == null && first.nextNode == null
      ensures second.nodeUsed == 0 && second.prevNode == null && second.nextNode == null
    {
      first := NewPage(base);
      ghost var nodes := first.Nodes();
      assert forall n :: n in nodes ==> allocated(n);
      second := NewPage(base + PAGE_SIZE);
    }

    static lemma FirstStocked(first: PageLinkNode, second: PageLinkNode)
      requires first.Full() && second.Full() && first.Nodes() !! second.Nodes()
      ensures Stocked([first, second]) && LiveIn([first, second], 2 * NODES_PER_PAGE) <= first.Nodes() + second.Nodes()
    {
      hide Stocked, PageLinkNode.Full, PageLinkNode.Nodes, LiveIn;
      assert [] + [first] == [first] && [first] + [second] == [first, second];
      NoneLive([]);
      NoPages();
      StockedWith([], first);
      SlotsWith([], first);
      SlotsWith([first], second);
      StockedWith([first], second);
    }

    static lemma NoPages()
      ensures Stocked([])
    {
    }

    static lemma FirstChained(first: PageLinkNode, second: PageLinkNode)
      requires first.nodeUsed == 0 && first.prevNode == null && first.nextNode == second
      requires second.nodeUsed == 0 && second.prevNode == first && second.nextNode == null
      ensures Chained([first, second]) && Counted([first, second], 0)
    {
    }

    static lemma NothingFree(pages: seq<PageLinkNode>)
      ensures Blocks({}) == map[] && Bytes(map[]) == iset{} && Total(map[]) == 0 && WellSpaced(map[]) && PageSized(map[])
      ensures |pages| == 2 ==> Housed(pages, map[])
    {
    }

    static lemma NoTree(h: Links)
      ensures Tight(null, Nil, h, {})
    {
    }

    static lemma NoneLive(pages: seq<PageLinkNode>)
      ensures LiveIn(pages, 0) == {}
    {
    }

    method GetMaxAllocatableMemorySize() returns (size: int)
      requires Valid()
      ensures free == map[] ==> size == 0
      ensures free != map[] ==> exists n :: n in free && free[n].size == size && forall j :: j in free ==> free[j].size <= size
    {
      hide Focus, Ordered, Values, Read, Paged, WellSpaced, Total, Housed, PageSized, ContextNodes, Nodes;
      ghost var s, h, t := Live(), Read(Live(), Size), sizeIdxTree.tree;
      BlocksRead(s);
      KeysOf(s, Size);
      KeysOf(s, Address);
      RootOf(s, sizeIdxTree.root, h, t);
      if sizeIdxTree.root == null {
        return 0;
      }
      ghost var v, c: Context, lo := Values(h), Top, 0;
      BeginRight(t, v);
      var curr: TreeNode := sizeIdxTree.root;
      while curr.sizeIdx.rightChild != null
        invariant Focus(s, sizeIdxTree.root, h, c, t) && Root(t) == curr && Rightmost(c, t, v, lo)
        decreases t
      {
        Sites(s, sizeIdxTree.root, h, c, t);
        Descend(s, sizeIdxTree.root, h, c, t);
        StepRight(c, t, v, lo);
        c, t, lo := Frame(Right, t.node, t.left, c), t.right, v[t.node];
        curr := curr.sizeIdx.rightChild;
      }
      Sites(s, sizeIdxTree.root, h, c, t);
      EndRight(s, sizeIdxTree.root, h, c, t, v, lo);
      size := curr.sizeIdx.value;
    }

    /** The keys outside the focused subtree are at most `lo`, those in it at least. */
    static ghost predicate Rightmost(c: Context, t: Tree, v: Keys, lo: int) {
      Ordered(t, v, lo, LIMIT) && forall n :: n in ContextNodes(c) ==> n in v && v[n] <= lo
    }

    static lemma BeginRight(t: Tree, v: Keys)
      requires Ordered(t, v, 0, LIMIT)
      ensures Rightmost(Top, t, v, 0)
    {
    }

    static lemma StepRight(c: Context, t: Tree, v: Keys, lo: int)
      requires Rightmost(c, t, v, lo) && t.Bin?
      ensures t.node in v && Rightmost(Frame(Right, t.node, t.left, c), t.right, v, v[t.node])
    {
      OrderedRange(t.left, v, lo, v[t.node]);
    }

    static lemma EndRight(s: set<TreeNode>, root: TreeNode?, h: Links, c: Context, t: Tree, v: Keys, lo: int)
      requires Focus(s, root, h, c, t) && Rightmost(c, t, v, lo) && t.Bin? && h[t.node].rightChild == null
      ensures t.node in v && forall n :: n in s ==> n in v && v[n] <= v[t.node]
    {
      OrderedRange(t.left, v, lo, v[t.node]);
    }

    static lemma RootOf(s: set<TreeNode>, root: TreeNode?, h: Links, t: Tree)
      requires Focus(s, root, h, Top, t)
      ensures root == Root(t) && (root == null ==> s == {})
    {
    }
  }
}
