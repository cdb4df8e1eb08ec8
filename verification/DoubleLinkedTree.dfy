/** One of the two search trees of the free memory manager, over one set of links of its nodes. */
module DoubleLinkedTrees {
  import opened BlockTree

  /** Keys are 64-bit unsigned numbers. */
  const LIMIT := 0x1_0000_0000_0000_0000

  datatype Strategy = Match | MatchOrLess | MatchOrMore

  class DoubleLinkedTree {
    var root: TreeNode?
    ghost var tree: Tree

    constructor ()
      ensures tree == Nil && root == null
    {
      root, tree := null, Nil;
    }

    /** The links of index `i` spell out `tree`; nothing is said about the keys. */
    ghost predicate Valid(i: Index)
      reads this, Nodes(tree)
    {
      Focus(Nodes(tree), root, Read(Nodes(tree), i), Top, tree)
    }

    /** The keys of index `i` are in search order. */
    ghost predicate Sorted(i: Index)
      reads this, Nodes(tree)
    {
      Ordered(tree, Values(Read(Nodes(tree), i)), 0, LIMIT)
    }

    static ghost function Opt(n: TreeNode?): set<TreeNode> {
      if n == null then {} else {n}
    }

    // ----- removeNode -----

    /** `child` takes the place of `node` below the parent of `node`, or at the root. */
    method Bypass(node: TreeNode, child: TreeNode?, i: Index, linkBack: bool, ghost s: set<TreeNode>)
      requires node in s && Opt(node.At(i).parent) <= s && Opt(child) <= s
      requires node.At(i).parent != node && (child != null ==> child != node && child != node.At(i).parent)
      modifies `root, s
      ensures root == if old(node.At(i).parent) == null then child else old(root)
      ensures Bypassed(old(Read(s, i)), Read(s, i), node, child, linkBack)
      ensures Read(s, Other(i)) == old(Read(s, Other(i)))
    {
      var parent := node.At(i).parent;
      if child != null && linkBack {
        child.Put(i, child.At(i).(parent := parent));
      }
      if parent == null {
        root := child;
      } else if parent.At(i).leftChild == node {
        parent.Put(i, parent.At(i).(leftChild := child));
      } else {
        parent.Put(i, parent.At(i).(rightChild := child));
      }
    }

    /** The walk to the leftmost node below `rc`, where `lc` is hung. */
    method HangLeftmost(rc: TreeNode, lc: TreeNode, i: Index, ghost s: set<TreeNode>, ghost r: Tree, ghost p: TreeNode?)
      requires r.Bin? && r.node == rc && Linked(Read(s, i), r, p) && lc in s && lc !in Nodes(r)
      modifies s
      ensures HungLeft(old(Read(s, i)), Read(s, i), Leftmost(r), lc)
      ensures Read(s, Other(i)) == old(Read(s, Other(i)))
    {
      var curr := rc;
      ghost var x, q := r, p;
      while curr.At(i).leftChild != null
        invariant x.Bin? && x.node == curr && curr in s && curr in Nodes(r)
        invariant curr.At(i).leftChild == Root(x.left) && Linked(Read(s, i), x, q)
        invariant Leftmost(x) == Leftmost(r) && Nodes(x) <= Nodes(r)
        invariant Read(s, i) == old(Read(s, i)) && Read(s, Other(i)) == old(Read(s, Other(i)))
        decreases x
      {
        curr := curr.At(i).leftChild;
        q, x := x.node, x.left;
      }
      curr.Put(i, curr.At(i).(leftChild := lc));
      lc.Put(i, lc.At(i).(parent := curr));
    }

    /** Whether removal reaches the branch with the missing link: two children and a parent. */
    static predicate InnerWithTwo(node: TreeNode, i: Index)
      reads node
    {
      node.At(i).parent != null && node.At(i).leftChild != null && node.At(i).rightChild != null
    }

    /** The tree takes a new shape; only its own nodes count from now on. */
    ghost method Settle(i: Index, s: set<TreeNode>, s': set<TreeNode>, c: Context, t: Tree)
      requires Focus(s', root, Read(s, i), c, t) && s' <= s
      modifies `tree
      ensures tree == Plug(c, t) && Nodes(tree) == s' && Valid(i)
    {
      Whole(s', root, Read(s, i), c, t);
      tree := Plug(c, t);
      FocusFrame(s', root, Read(s, i), Read(s', i), Top, tree);
    }

    /** With `intended` the right child of an inner node with two children gets its parent link; the original
        leaves it out. */
    method RemoveNode(node: TreeNode, i: Index, intended: bool)
      requires Valid(i) && node in Nodes(tree)
      modifies this, Nodes(tree)
      ensures tree == Removed(old(tree), node)
      ensures Valid(i) <==> intended || !old(InnerWithTwo(node, i))
      ensures Valid(i) ==> Nodes(tree) == old(Nodes(tree)) - {node}
      ensures Read(old(Nodes(tree)), Other(i)) == old(Read(Nodes(tree), Other(i)))
      ensures Values(Read(old(Nodes(tree)), i)) == old(Values(Read(Nodes(tree), i)))
    {
      hide Focus, Linked, LinkedAround, Distinct, ContextDistinct, Nodes, ContextNodes, Removed, Plug, Bypassed, Values;
      ghost var s, h, was := Nodes(tree), Read(Nodes(tree), i), tree;
      ghost var c, t := Locate(Top, tree, node);
      PlugTop(tree);
      Place(s, root, h, c, t);
      Sites(s, root, h, c, t);
      RemovedHere(s, root, h, c, t);
      var lc, rc := node.At(i).leftChild, node.At(i).rightChild;
      if lc == null && rc == null {
        Bypass(node, null, i, true, s);
        BypassedFocus(s, old(root), h, c, t, Nil, root, Read(s, i));
        KeysStay(h, Read(s, i), node, null, true);
        Settle(i, s, s - {node}, c, Nil);
      } else if lc == null {
        Bypass(node, rc, i, true, s);
        BypassedFocus(s, old(root), h, c, t, t.right, root, Read(s, i));
        KeysStay(h, Read(s, i), node, rc, true);
        Settle(i, s, s - {node}, c, t.right);
      } else if rc == null {
        Bypass(node, lc, i, true, s);
        BypassedFocus(s, old(root), h, c, t, t.left, root, Read(s, i));
        KeysStay(h, Read(s, i), node, lc, true);
        Settle(i, s, s - {node}, c, t.left);
      } else {
        RemoveDouble(node, lc, rc, i, intended, c, t);
      }
    }

    /** The branches for a node with two children. */
    method RemoveDouble(node: TreeNode, lc: TreeNode, rc: TreeNode, i: Index, intended: bool, ghost c: Context, ghost t: Tree)
      requires Valid(i) && Focus(Nodes(tree), root, Read(Nodes(tree), i), c, t) && tree == Plug(c, t)
      requires t.Bin? && t.node == node && t.left.Bin? && t.right.Bin? && lc == t.left.node && rc == t.right.node
      modifies this, Nodes(tree)
      ensures tree == Plug(c, Splice(t))
      ensures Valid(i) <==> intended || old(node.At(i).parent) == null
      ensures Valid(i) ==> Nodes(tree) == old(Nodes(tree)) - {node}
      ensures Read(old(Nodes(tree)), Other(i)) == old(Read(Nodes(tree), Other(i)))
      ensures Values(Read(old(Nodes(tree)), i)) == old(Values(Read(Nodes(tree), i)))
    {
      hide Focus, Linked, LinkedAround, Distinct, ContextDistinct, Nodes, ContextNodes, Plug, Bypassed, HungLeft, Values, Splice;
      ghost var s, h := Nodes(tree), Read(Nodes(tree), i);
      Sites(s, root, h, c, t);
      SubtreesApart(s, root, h, c, t);
      var linkBack := intended || node == root;
      Bypass(node, rc, i, linkBack, s);
      ghost var h1 := Read(s, i);
      BypassedLinks(s, old(root), h, c, t, t.right, linkBack, root, h1);
      HangLeftmost(rc, lc, i, s, t.right, if linkBack then ParentOf(c) else node);
      ghost var h2 := Read(s, i);
      SplicedFocus(s, old(root), h, c, t, linkBack, root, h1, h2);
      KeysStay(h, h1, node, rc, linkBack);
      KeysStay(h1, h2, Leftmost(t.right), lc, linkBack);
      FinishDouble(node, rc, i, linkBack, s, h2, c, t);
    }

    ghost method FinishDouble(node: TreeNode, rc: TreeNode, i: Index, linkBack: bool, s: set<TreeNode>, h: Links, c: Context, t: Tree)
      requires t.Bin? && Splice(t).Bin? && Splice(t).node == rc && rc in s && h == Read(s, i)
      requires linkBack ==> Focus(s - {node}, root, h, c, Splice(t))
      requires !linkBack ==> h[rc].parent != ParentOf(c)
      modifies `tree
      ensures tree == Plug(c, Splice(t))
      ensures Valid(i) <==> linkBack
      ensures Valid(i) ==> Nodes(tree) == s - {node}
    {
      if linkBack {
        Settle(i, s, s - {node}, c, Splice(t));
      } else {
        tree := Plug(c, Splice(t));
        Dangling(i, c, Splice(t), h, rc);
      }
    }

    /** A node whose parent link is wrong spoils the tree. */
    lemma Dangling(i: Index, c: Context, t: Tree, h: Links, n: TreeNode)
      requires tree == Plug(c, t) && t.Bin? && t.node == n && n in h && h[n].parent != ParentOf(c)
      requires n in Nodes(tree) ==> n.At(i) == h[n]
      ensures !Valid(i)
    {
      if Valid(i) {
        Place(Nodes(tree), root, Read(Nodes(tree), i), c, t);
        assert false;
      }
    }

    // ----- addNode -----

    method HangLeftAt(curr: TreeNode, node: TreeNode, i: Index, ghost s: set<TreeNode>)
      requires curr in s && node in s && curr != node
      modifies s
      ensures HungLeft(old(Read(s, i)), Read(s, i), curr, node)
      ensures Read(s, Other(i)) == old(Read(s, Other(i)))
    {
      node.Put(i, node.At(i).(parent := curr));
      curr.Put(i, curr.At(i).(leftChild := node));
    }

    method HangRightAt(curr: TreeNode, node: TreeNode, i: Index, ghost s: set<TreeNode>)
      requires curr in s && node in s && curr != node
      modifies s
      ensures HungRight(old(Read(s, i)), Read(s, i), curr, node)
      ensures Read(s, Other(i)) == old(Read(s, Other(i)))
    {
      node.Put(i, node.At(i).(parent := curr));
      curr.Put(i, curr.At(i).(rightChild := node));
    }

    /** With `intended` the new node takes over the right child of the equal one; the original only redirects
        that child's parent link. */
    method SqueezeIn(curr: TreeNode, node: TreeNode, i: Index, intended: bool, ghost s: set<TreeNode>)
      requires curr in s && node in s && curr != node && Opt(curr.At(i).rightChild) <= s
      requires curr.At(i).rightChild !in {curr, node}
      modifies s
      ensures SqueezedIn(old(Read(s, i)), Read(s, i), curr, node, intended)
      ensures Read(s, Other(i)) == old(Read(s, Other(i)))
    {
      var rc := curr.At(i).rightChild;
      if rc != null {
        rc.Put(i, rc.At(i).(parent := node));
      }
      if intended {
        node.Put(i, node.At(i).(rightChild := rc));
      }
      curr.Put(i, curr.At(i).(rightChild := node));
      node.Put(i, node.At(i).(parent := curr));
    }

    /** A node outside the tree loses its old links. */
    method ResetLinks(node: TreeNode, i: Index, ghost s: set<TreeNode>)
      requires Valid(i) && Sorted(i) && node !in Nodes(tree) && s == Nodes(tree) + {node}
      modifies node
      ensures node.At(i) == NodeData(old(node.At(i).value), null, null, null)
      ensures Focus(s - {node}, root, Read(s, i), Top, tree) && Ordered(tree, Values(Read(s, i)), 0, LIMIT)
      ensures Values(Read(s, i)) == old(Values(Read(s, i)))
      ensures Read(s, Other(i)) == old(Read(s, Other(i)))
    {
      hide Focus, Ordered;
      ghost var h0, h1 := Read(s, i), Read(s - {node}, i);
      node.Put(i, NodeData(node.At(i).value, null, null, null));
      ghost var h := Read(s, i);
      KeysAfterReset(h0, h, node);
      assert s - {node} == Nodes(tree);
      FocusFrame(s - {node}, root, h1, h, Top, tree);
      OrderedWiden(tree, Values(h1), 0, LIMIT, Values(h), 0, LIMIT);
    }

    /** `s` names the nodes of the tree and the new one. */
    method AddNode(node: TreeNode, i: Index, intended: bool, ghost s: set<TreeNode>)
      requires Valid(i) && Sorted(i) && node !in Nodes(tree) && s == Nodes(tree) + {node} && 0 <= node.At(i).value < LIMIT
      modifies this, s
      ensures tree == Inserted(old(tree), node, old(Values(Read(s, i))))
      ensures Valid(i) <==> intended || !Squeezes(old(tree), node, old(Values(Read(s, i))))
      ensures Valid(i) ==> Sorted(i) && Nodes(tree) == s
      ensures Values(Read(s, i)) == old(Values(Read(s, i)))
      ensures Read(s, Other(i)) == old(Read(s, Other(i)))
    {
      hide Focus, Inserted, Squeezes, Ordered, Nodes;
      ResetLinks(node, i, s);
      if root == null {
        root := node;
        FirstNode(s - {node}, Read(s, i), node, Read(s, i));
        Settle(i, s, s, Top, Bin(Nil, node, Nil));
        FirstOrdered(node, Values(Read(s, i)));
      } else {
        Insert(node, i, intended, s - {node});
      }
    }

    /** A search for the key of `node`, which is not linked yet, has come to the root of `t`. */
    ghost predicate Hunting(s: set<TreeNode>, h: Links, node: TreeNode, c: Context, t: Tree)
      reads this
    {
      && s == Nodes(tree) && node !in s && tree == Plug(c, t) && Focus(s, root, h, c, t)
      && h.Keys == s + {node} && h[node].(value := 0) == NodeData(0, null, null, null) && 0 <= h[node].value < LIMIT
      && ContextNodes(c) <= h.Keys && Leads(c, node, Values(h)) && Ordered(tree, Values(h), 0, LIMIT)
    }

    lemma Begin(s: set<TreeNode>, h: Links, node: TreeNode)
      requires s == Nodes(tree) && node !in s && Focus(s, root, h, Top, tree) && root != null
      requires h.Keys == s + {node} && h[node].(value := 0) == NodeData(0, null, null, null) && 0 <= h[node].value < LIMIT
      requires Ordered(tree, Values(h), 0, LIMIT)
      ensures Hunting(s, h, node, Top, tree) && tree.Bin? && tree.node == root
    {
      PlugTop(tree);
    }

    lemma LookAt(s: set<TreeNode>, h: Links, node: TreeNode, c: Context, t: Tree)
      requires Hunting(s, h, node, c, t) && t.Bin?
      ensures node !in s && t.node in s && h.Keys == s + {node} && h[t.node].leftChild == Root(t.left) && h[t.node].rightChild == Root(t.right)
      ensures t.right.Bin? ==> t.right.node in s && t.right.node != t.node
      ensures h[t.node].value > h[node].value ==> Hunting(s, h, node, Frame(Left, t.node, t.right, c), t.left)
      ensures h[t.node].value < h[node].value ==> Hunting(s, h, node, Frame(Right, t.node, t.left, c), t.right)
    {
      hide Focus, Leads, Ordered, Plug;
      Sites(s, root, h, c, t);
      LeadsOn(s, root, h, c, t, node, Values(h));
      Descend(s, root, h, c, t);
    }

    /** The search for the place of a node that is not linked yet, and its linking. */
    method Insert(node: TreeNode, i: Index, intended: bool, ghost s: set<TreeNode>)
      requires s == Nodes(tree) && node !in s && root != null && 0 <= node.At(i).value < LIMIT
      requires node.At(i) == NodeData(node.At(i).value, null, null, null)
      requires Focus(s, root, Read(s + {node}, i), Top, tree) && Ordered(tree, Values(Read(s + {node}, i)), 0, LIMIT)
      modifies this, node, s
      ensures tree == Inserted(old(tree), node, old(Values(Read(s + {node}, i))))
      ensures Valid(i) <==> intended || !Squeezes(old(tree), node, old(Values(Read(s + {node}, i))))
      ensures Valid(i) ==> Sorted(i) && Nodes(tree) == s + {node}
      ensures Values(Read(s + {node}, i)) == old(Values(Read(s + {node}, i)))
      ensures Read(s + {node}, Other(i)) == old(Read(s + {node}, Other(i)))
    {
      hide Focus, Nodes, Inserted, Squeezes, Ordered, Valid, Sorted, Values, Hunting;
      ghost var h := Read(s + {node}, i);
      ghost var c: Context, t := Top, tree;
      var curr := root;
      Begin(s, h, node);
      while true
        invariant Hunting(s, h, node, c, t) && t.Bin? && t.node == curr
        invariant h == Read(s + {node}, i) && tree == old(tree)
        invariant Read(s + {node}, Other(i)) == old(Read(s + {node}, Other(i)))
        decreases t
      {
        LookAt(s, h, node, c, t);
        if curr.At(i).value == node.At(i).value {
          InsertEqual(curr, node, i, intended, s, c, t);
          return;
        } else if curr.At(i).value > node.At(i).value {
          var lc := curr.At(i).leftChild;
          c, t := Frame(Left, t.node, t.right, c), t.left;
          if lc != null {
            curr := lc;
          } else {
            InsertLeft(curr, node, i, intended, s, c);
            return;
          }
        } else {
          var rc := curr.At(i).rightChild;
          c, t := Frame(Right, t.node, t.left, c), t.right;
          if rc != null {
            curr := rc;
          } else {
            InsertRight(curr, node, i, intended, s, c);
            return;
          }
        }
      }
    }

    method InsertEqual(curr: TreeNode, node: TreeNode, i: Index, intended: bool, ghost s: set<TreeNode>, ghost c: Context, ghost t: Tree)
      requires Hunting(s, Read(s + {node}, i), node, c, t) && t.Bin? && t.node == curr && curr.At(i).value == node.At(i).value
      modifies this, node, s
      ensures tree == Inserted(old(tree), node, old(Values(Read(s + {node}, i))))
      ensures Valid(i) <==> intended || !Squeezes(old(tree), node, old(Values(Read(s + {node}, i))))
      ensures Valid(i) ==> Sorted(i) && Nodes(tree) == s + {node}
      ensures Values(Read(s + {node}, i)) == old(Values(Read(s + {node}, i)))
      ensures Read(s + {node}, Other(i)) == old(Read(s + {node}, Other(i)))
    {
      hide Focus, Nodes, Inserted, Squeezes, Ordered, Valid, Sorted, Values, Hunting;
      ghost var h := Read(s + {node}, i);
      LookAt(s, h, node, c, t);
      SqueezeIn(curr, node, i, intended, s + {node});
      FinishSqueeze(node, i, intended, s, h, Read(s + {node}, i), c, t);
    }

    method InsertLeft(curr: TreeNode, node: TreeNode, i: Index, intended: bool, ghost s: set<TreeNode>, ghost c: Context)
      requires Hunting(s, Read(s + {node}, i), node, c, Nil) && c.Frame? && c.side == Left && c.node == curr && curr in s
      modifies this, node, s
      ensures tree == Inserted(old(tree), node, old(Values(Read(s + {node}, i))))
      ensures Valid(i) && !Squeezes(old(tree), node, old(Values(Read(s + {node}, i))))
      ensures Sorted(i) && Nodes(tree) == s + {node}
      ensures Values(Read(s + {node}, i)) == old(Values(Read(s + {node}, i)))
      ensures Read(s + {node}, Other(i)) == old(Read(s + {node}, Other(i)))
    {
      hide Focus, Nodes, Inserted, Squeezes, Ordered, Valid, Sorted, Values;
      ghost var h := Read(s + {node}, i);
      HangLeftAt(curr, node, i, s + {node});
      FinishLeaf(node, i, s, h, Read(s + {node}, i), c);
    }

    method InsertRight(curr: TreeNode, node: TreeNode, i: Index, intended: bool, ghost s: set<TreeNode>, ghost c: Context)
      requires Hunting(s, Read(s + {node}, i), node, c, Nil) && c.Frame? && c.side == Right && c.node == curr && curr in s
      modifies this, node, s
      ensures tree == Inserted(old(tree), node, old(Values(Read(s + {node}, i))))
      ensures Valid(i) && !Squeezes(old(tree), node, old(Values(Read(s + {node}, i))))
      ensures Sorted(i) && Nodes(tree) == s + {node}
      ensures Values(Read(s + {node}, i)) == old(Values(Read(s + {node}, i)))
      ensures Read(s + {node}, Other(i)) == old(Read(s + {node}, Other(i)))
    {
      hide Focus, Nodes, Inserted, Squeezes, Ordered, Valid, Sorted, Values;
      ghost var h := Read(s + {node}, i);
      HangRightAt(curr, node, i, s + {node});
      FinishLeaf(node, i, s, h, Read(s + {node}, i), c);
    }

    /** The new node hangs below a missing child. */
    ghost method FinishLeaf(node: TreeNode, i: Index, s: set<TreeNode>, h: Links, h': Links, c: Context)
      requires Hunting(s, h, node, c, Nil) && c.Frame? && h' == Read(s + {node}, i)
      requires if c.side == Left then HungLeft(h, h', c.node, node) else HungRight(h, h', c.node, node)
      modifies `tree
      ensures tree == Inserted(old(tree), node, Values(h)) && !Squeezes(old(tree), node, Values(h))
      ensures Valid(i) && Sorted(i) && Nodes(tree) == s + {node} && Values(h') == Values(h)
    {
      GrownFocus(s, root, h, c, node, h');
      InsertedHere(s, root, h, c, Nil, node, Values(h));
      InsertedOrdered(tree, node, Values(h), 0, LIMIT);
      KeysStay(h, h', c.node, node, true);
      Settle(i, s + {node}, s + {node}, c, Bin(Nil, node, Nil));
    }

    /** The new node hangs between a node with the same key and its right child. */
    ghost method FinishSqueeze(node: TreeNode, i: Index, intended: bool, s: set<TreeNode>, h: Links, h': Links, c: Context, t: Tree)
      requires Hunting(s, h, node, c, t) && t.Bin? && h' == Read(s + {node}, i) && t.node in s && h[t.node].value == h[node].value
      requires SqueezedIn(h, h', t.node, node, intended)
      modifies `tree
      ensures tree == Inserted(old(tree), node, Values(h))
      ensures Valid(i) <==> intended || !Squeezes(old(tree), node, Values(h))
      ensures Valid(i) ==> Sorted(i) && Nodes(tree) == s + {node}
      ensures Values(h') == Values(h)
    {
      SqueezedShape(node, intended, s, h, h', c, t);
      hide Hunting, Focus, Nodes, Inserted, Squeezes, Ordered, Valid, Plug;
      var t' := Bin(t.left, t.node, Bin(Nil, node, t.right));
      if intended || t.right.Nil? {
        Settle(i, s + {node}, s + {node}, c, t');
      } else {
        tree := Plug(c, t');
        DanglingRight(i, c, t, node);
      }
    }

    lemma SqueezedShape(node: TreeNode, intended: bool, s: set<TreeNode>, h: Links, h': Links, c: Context, t: Tree)
      requires Hunting(s, h, node, c, t) && t.Bin? && t.node in s && h[t.node].value == h[node].value
      requires SqueezedIn(h, h', t.node, node, intended) && h'.Keys == h.Keys
      ensures var t', v := Bin(t.left, t.node, Bin(Nil, node, t.right)), Values(h);
        && s == Nodes(tree) && s + {node} <= v.Keys
        && Plug(c, t') == Inserted(tree, node, v) && (Squeezes(tree, node, v) <==> t.right.Bin?)
        && Ordered(Plug(c, t'), v, 0, LIMIT) && Values(h') == v
        && (intended || t.right.Nil? ==> Focus(s + {node}, root, h', c, t'))
        && (!intended && t.right.Bin? ==> node in h' && h'[node].rightChild == null)
    {
      SqueezedFocus(s, root, h, c, t, node, intended, h');
      InsertedHere(s, root, h, c, t, node, Values(h));
      InsertedOrdered(tree, node, Values(h), 0, LIMIT);
      KeysStay(h, h', t.node, node, intended);
    }

    lemma FirstNode(s: set<TreeNode>, h: Links, node: TreeNode, h': Links)
      requires Focus(s, null, h, Top, tree) && node in h' && h'[node].(value := 0) == NodeData(0, null, null, null)
      ensures s == {} && tree == Nil && Focus({node}, node, h', Top, Bin(Nil, node, Nil))
    {
    }

    lemma FirstOrdered(node: TreeNode, v: Keys)
      requires node in v && 0 <= v[node] < LIMIT
      ensures Bin(Nil, node, Nil) == Inserted(Nil, node, v) && !Squeezes(Nil, node, v)
      ensures Ordered(Bin(Nil, node, Nil), v, 0, LIMIT) && Plug(Top, Bin(Nil, node, Nil)) == Bin(Nil, node, Nil)
    {
    }

    lemma KeysAfterReset(h: Links, h': Links, node: TreeNode)
      requires h.Keys == h'.Keys && Unchanged(h, h', h.Keys - {node}) && (node in h ==> h'[node].value == h[node].value)
      ensures Values(h') == Values(h)
    {
    }

    /** A node that has lost its right child spoils the tree. */
    lemma DanglingRight(i: Index, c: Context, t: Tree, node: TreeNode)
      requires t.Bin? && t.right.Bin? && tree == Plug(c, Bin(t.left, t.node, Bin(Nil, node, t.right)))
      requires node.At(i).rightChild == null
      ensures !Valid(i)
    {
      if Valid(i) {
        var s, h, t' := Nodes(tree), Read(Nodes(tree), i), Bin(t.left, t.node, Bin(Nil, node, t.right));
        Place(s, root, h, c, t');
        Descend(s, root, h, c, t');
        Sites(s, root, h, Frame(Right, t.node, t.left, c), t'.right);
        assert false;
      }
    }

    // ----- findNode -----

    /** `r` is the best match for `value` among the nodes with the keys `v`, or null if there is none. */
    static ghost predicate BestMatch(r: TreeNode?, v: Keys, value: int, strategy: Strategy) {
      && (r != null ==> r in v)
      && match strategy
         case Match =>
           if r == null then forall n :: n in v ==> v[n] != value else v[r] == value
         case MatchOrLess =>
           if r == null then forall n :: n in v ==> v[n] > value
           else v[r] <= value && forall n :: n in v && v[n] <= value ==> v[n] <= v[r]
         case MatchOrMore =>
           if r == null then forall n :: n in v ==> v[n] < value
           else v[r] >= value && forall n :: n in v && v[n] >= value ==> v[r] <= v[n]
    }

    /** What a search knows about the nodes it has left behind, `lo` and `hi` being the range of those ahead. */
    ghost predicate Narrowed(v: Keys, c: Context, t: Tree, lo: int, hi: int, value: int, strategy: Strategy, candidate: TreeNode)
      reads this`root
    {
      && ContextNodes(c) + Nodes(t) == v.Keys && candidate in v && Ordered(t, v, lo, hi)
      && (forall n :: n in ContextNodes(c) ==> (v[n] < value && v[n] <= lo) || (value < v[n] && hi <= v[n]))
      && (strategy == MatchOrLess ==>
            (v[candidate] < value && v[candidate] == lo) || (candidate == root && forall n :: n in ContextNodes(c) ==> value < v[n]))
      && (strategy == MatchOrMore ==>
            (v[candidate] > value && v[candidate] == hi) || (candidate == root && forall n :: n in ContextNodes(c) ==> v[n] < value))
      && (strategy == Match ==> candidate == root)
    }

    lemma NarrowLeft(v: Keys, c: Context, t: Tree, lo: int, hi: int, value: int, strategy: Strategy, candidate: TreeNode)
      requires Narrowed(v, c, t, lo, hi, value, strategy, candidate) && t.Bin? && value < v[t.node]
      ensures Narrowed(v, Frame(Left, t.node, t.right, c), t.left, lo, v[t.node], value, strategy,
                       if strategy == MatchOrMore then t.node else candidate)
    {
      OrderedRange(t, v, lo, hi);
      OrderedRange(t.right, v, v[t.node], hi);
    }

    lemma NarrowRight(v: Keys, c: Context, t: Tree, lo: int, hi: int, value: int, strategy: Strategy, candidate: TreeNode)
      requires Narrowed(v, c, t, lo, hi, value, strategy, candidate) && t.Bin? && v[t.node] < value
      ensures Narrowed(v, Frame(Right, t.node, t.left, c), t.right, v[t.node], hi, value, strategy,
                       if strategy == MatchOrLess then t.node else candidate)
    {
      OrderedRange(t, v, lo, hi);
      OrderedRange(t.left, v, lo, v[t.node]);
    }

    method FindNode(value: int, i: Index, strategy: Strategy) returns (r: TreeNode?)
      requires Valid(i) && Sorted(i)
      ensures BestMatch(r, Values(Read(Nodes(tree), i)), value, strategy)
    {
      hide Focus, Linked, LinkedAround, Nodes, ContextNodes, Narrowed, Ordered;
      ghost var s, h := Nodes(tree), Read(Nodes(tree), i);
      RootOrNot(s, h);
      if root == null {
        return null;
      }
      var curr: TreeNode?, candidate := root, root;
      ghost var v := Values(h);
      ghost var c: Context, t, lo, hi := Top, tree, 0, LIMIT;
      BeginSearch(v, value, strategy);
      while curr != null
        invariant Focus(s, root, h, c, t) && curr == Root(t) && candidate in s
        invariant Narrowed(v, c, t, lo, hi, value, strategy, candidate)
        decreases t
      {
        Sites(s, root, h, c, t);
        Descend(s, root, h, c, t);
        var currValue := curr.At(i).value;
        if currValue == value {
          candidate := curr;
          break;
        } else if currValue > value {
          NarrowLeft(v, c, t, lo, hi, value, strategy, candidate);
          if strategy == MatchOrMore {
            candidate := curr;
          }
          curr := curr.At(i).leftChild;
          c, t, hi := Frame(Left, t.node, t.right, c), t.left, currValue;
        } else {
          NarrowRight(v, c, t, lo, hi, value, strategy, candidate);
          if strategy == MatchOrLess {
            candidate := curr;
          }
          curr := curr.At(i).rightChild;
          c, t, lo := Frame(Right, t.node, t.left, c), t.right, currValue;
        }
      }
      if curr == null {
        EndSearch(v, c, t, lo, hi, value, strategy, candidate);
      }
      var found := candidate.At(i).value;
      if found == value {
        return candidate;
      } else if found > value && strategy == MatchOrMore {
        return candidate;
      } else if found < value && strategy == MatchOrLess {
        return candidate;
      } else {
        return null;
      }
    }

    lemma RootOrNot(s: set<TreeNode>, h: Links)
      requires Focus(s, root, h, Top, tree)
      ensures root == Root(tree) && (root == null ==> s == {}) && (root != null ==> root in s)
    {
    }

    lemma BeginSearch(v: Keys, value: int, strategy: Strategy)
      requires Nodes(tree) == v.Keys && root != null && root in v && Ordered(tree, v, 0, LIMIT)
      ensures Narrowed(v, Top, tree, 0, LIMIT, value, strategy, root)
    {
    }

    /** Nothing is left ahead: the candidate decides. */
    lemma EndSearch(v: Keys, c: Context, t: Tree, lo: int, hi: int, value: int, strategy: Strategy, candidate: TreeNode)
      requires Narrowed(v, c, t, lo, hi, value, strategy, candidate) && t.Nil?
      ensures v[candidate] != value && forall n :: n in v ==> v[n] != value
      ensures strategy == MatchOrLess && v[candidate] < value ==> forall n :: n in v && v[n] <= value ==> v[n] <= v[candidate]
      ensures strategy == MatchOrLess && v[candidate] > value ==> forall n :: n in v ==> v[n] > value
      ensures strategy == MatchOrMore && v[candidate] > value ==> forall n :: n in v && v[n] >= value ==> v[candidate] <= v[n]
      ensures strategy == MatchOrMore && v[candidate] < value ==> forall n :: n in v ==> v[n] < value
    {
    }
  }
}
