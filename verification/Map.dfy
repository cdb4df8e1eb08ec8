/** The red-black tree Map of the kernel library. */
module RedBlackMap {
  import opened TreeShape
  import opened RedBlack
  import opened SearchOrder
  import opened Options

  class Map<D> {
    var root: Node?<D>
    /** The node blocks taken from the allocator and not given back. */
    ghost var nodes: set<Node<D>>
    /** The whole tree, when no operation is under way. */
    ghost var tree: Tree<D>

    ghost predicate Focused(c: Context<D>, t: Tree<D>)
      reads this`root, this`nodes, nodes
    {
      Focus(nodes, root, Snapshot(nodes), c, t)
    }

    static ghost function Opt(n: Node?<D>): set<Node<D>> {
      if n == null then {} else {n}
    }

    /** The place of `node` below `father`, or at the root, is taken by `other`. */
    method Rebind(father: Node?<D>, node: Node<D>, other: Node<D>)
      modifies `root, Opt(father)`leftChild, Opt(father)`rightChild
      ensures root == if father == null then other else old(root)
      ensures father != null ==> Rebound(old(FieldsOf(father)), FieldsOf(father), node, other)
    {
      if father == null {
        root := other;
      } else if father.leftChild == node {
        father.leftChild := other;
      } else {
        father.rightChild := other;
      }
    }

    // ----- Rotations -----

    method RotateLeft(node: Node<D>)
      requires node.rightChild != null && node.father !in {node, node.rightChild} && node.rightChild != node
      requires node.rightChild.leftChild != null ==> node.rightChild.leftChild !in {node, node.rightChild, node.father}
      modifies `root, node`father, node`rightChild, node.rightChild`father, node.rightChild`leftChild
      modifies Opt(node.rightChild.leftChild)`father, Opt(node.father)`leftChild, Opt(node.father)`rightChild
      ensures root == if old(node.father) == null then old(node.rightChild) else old(root)
      ensures node.father == old(node.rightChild) && node.rightChild == old(node.rightChild.leftChild)
      ensures node.father.father == old(node.father) && node.father.leftChild == node
      ensures node.rightChild != null ==> node.rightChild.father == node
      ensures var f := old(node.father); f != null ==>
        if old(f.leftChild) == node then f.leftChild == node.father && f.rightChild == old(f.rightChild)
        else f.rightChild == node.father && f.leftChild == old(f.leftChild)
    {
      var father := node.father;
      var targetRoot := node.rightChild;
      Rebind(father, node, targetRoot);
      targetRoot.father := father;
      node.rightChild := targetRoot.leftChild;
      if node.rightChild != null {
        node.rightChild.father := node;
      }
      targetRoot.leftChild := node;
      node.father := targetRoot;
    }

    method RotateRight(node: Node<D>)
      requires node.leftChild != null && node.father !in {node, node.leftChild} && node.leftChild != node
      requires node.leftChild.rightChild != null ==> node.leftChild.rightChild !in {node, node.leftChild, node.father}
      modifies `root, node`father, node`leftChild, node.leftChild`father, node.leftChild`rightChild
      modifies Opt(node.leftChild.rightChild)`father, Opt(node.father)`leftChild, Opt(node.father)`rightChild
      ensures root == if old(node.father) == null then old(node.leftChild) else old(root)
      ensures node.father == old(node.leftChild) && node.leftChild == old(node.leftChild.rightChild)
      ensures node.father.father == old(node.father) && node.father.rightChild == node
      ensures node.leftChild != null ==> node.leftChild.father == node
      ensures var f := old(node.father); f != null ==>
        if old(f.leftChild) == node then f.leftChild == node.father && f.rightChild == old(f.rightChild)
        else f.rightChild == node.father && f.leftChild == old(f.leftChild)
    {
      var father := node.father;
      var targetRoot := node.leftChild;
      Rebind(father, node, targetRoot);
      targetRoot.father := father;
      node.leftChild := targetRoot.rightChild;
      if node.leftChild != null {
        node.leftChild.father := node;
      }
      targetRoot.rightChild := node;
      node.father := targetRoot;
    }

    method RotateLeftAt(node: Node<D>, ghost c: Context<D>, ghost t: Tree<D>)
      requires Focused(c, t) && t.Bin? && t.right.Bin? && t.cell.node == node
      modifies `root, nodes
      ensures Focused(c, RotatedLeft(t)) && Order(c, RotatedLeft(t)) == Order(c, t)
    {
      ghost var h := Snapshot(nodes);
      hide Focus, InOrder, Before, After;
      LeftSites(nodes, root, h, c, t);
      RotateLeft(node);
      RotatedLeftKeeps(t);
      LeftRotation(nodes, old(root), h, c, t, root, Snapshot(nodes));
    }

    method RotateRightAt(node: Node<D>, ghost c: Context<D>, ghost t: Tree<D>)
      requires Focused(c, t) && t.Bin? && t.left.Bin? && t.cell.node == node
      modifies `root, nodes
      ensures Focused(c, RotatedRight(t)) && Order(c, RotatedRight(t)) == Order(c, t)
    {
      ghost var h := Snapshot(nodes);
      hide Focus, InOrder, Before, After;
      RightSites(nodes, root, h, c, t);
      RotateRight(node);
      RotatedRightKeeps(t);
      RightRotation(nodes, old(root), h, c, t, root, Snapshot(nodes));
    }

    method Paint(node: Node<D>, color: Color, ghost c: Context<D>, ghost t: Tree<D>)
      requires Focused(c, t) && t.Bin? && t.cell.node == node
      modifies nodes
      ensures Focused(c, t.(color := color)) && Order(c, t.(color := color)) == Order(c, t)
    {
      ghost var h := Snapshot(nodes);
      node.color := color;
      Repainted(nodes, root, h, c, t, Snapshot(nodes), color, t.cell.data);
    }

    // ----- Moving the focus -----

    lemma Up(c: Context<D>, t: Tree<D>)
      requires Focused(c, t) && c.Frame?
      ensures Focused(c.up, Join(c.side, c.color, c.cell, c.other, t))
      ensures Order(c.up, Join(c.side, c.color, c.cell, c.other, t)) == Order(c, t)
    {
      Ascend(nodes, root, Snapshot(nodes), c, t);
      AscendOrder(c, t);
    }

    lemma Down(c: Context<D>, t: Tree<D>)
      requires Focused(c, t) && t.Bin?
      ensures Focused(Frame(Left, t.color, t.cell, t.right, c), t.left)
      ensures Order(Frame(Left, t.color, t.cell, t.right, c), t.left) == Order(c, t)
      ensures Focused(Frame(Right, t.color, t.cell, t.left, c), t.right)
      ensures Order(Frame(Right, t.color, t.cell, t.left, c), t.right) == Order(c, t)
    {
      Descend(nodes, root, Snapshot(nodes), c, t);
      AscendOrder(Frame(Left, t.color, t.cell, t.right, c), t.left);
      AscendOrder(Frame(Right, t.color, t.cell, t.left, c), t.right);
    }

    // ----- Repairs -----

    /** The tree is whole again, red-black, and its in-order sequence is `cells`. */
    ghost predicate Repaired(cells: seq<Cell<D>>)
      reads this, nodes
    {
      Focused(Top, tree) && RedBlackTree(tree) && InOrder(tree) == cells
    }

    ghost method Finish(c: Context<D>, t: Tree<D>, height: int, cells: seq<Cell<D>>)
      requires Focused(c, t) && Fits(c, t, height) && ContextNoRedRed(c, IsRed(t))
      requires Order(c, t) == cells
      modifies `tree
      ensures Repaired(cells)
    {
      Whole(nodes, root, Snapshot(nodes), c, t);
      PlugRedBlack(c, t, height);
      PlugInOrder(c, t);
      tree := Plug(c, t);
    }

    /** A red node and its red father, both left children: one rotation of the grandfather. */
    method FixLeftLeft(father: Node<D>, grandpa: Node<D>, ghost c: Context<D>, ghost t: Tree<D>, ghost h: int)
      requires Focused(c, t) && IsRed(t) && Fits(c, t, h)
      requires c.Frame? && c.side == Left && c.color == Red && c.cell.node == father
      requires c.up.Frame? && c.up.side == Left && !IsRed(c.up.other) && c.up.cell.node == grandpa
      modifies `root, `tree, nodes
      ensures Repaired(Order(c, t))
    {
      hide Focus, Order;
      RedFather(c, t, h);
      ghost var up, low := c.up.up, Bin(c.other, Black, c.up.cell, c.up.other);
      Up(c, t);
      Up(c.up, Bin(t, Red, c.cell, c.other));
      RotateRightAt(grandpa, up, Bin(Bin(t, Red, c.cell, c.other), Black, c.up.cell, c.up.other));
      Paint(father, Black, up, Bin(t, Red, c.cell, low));
      Down(up, Bin(t, Black, c.cell, low));
      Paint(grandpa, Red, Frame(Right, Black, c.cell, t, up), low);
      Up(Frame(Right, Black, c.cell, t, up), low.(color := Red));
      Finish(up, Bin(t, Black, c.cell, low.(color := Red)), h + 1, Order(c, t));
    }

    /** The red node is a right child, its red father a left child: two rotations. */
    method FixLeftRight(node: Node<D>, father: Node<D>, grandpa: Node<D>, ghost c: Context<D>, ghost t: Tree<D>, ghost h: int)
      requires Focused(c, t) && IsRed(t) && Fits(c, t, h) && t.cell.node == node
      requires c.Frame? && c.side == Right && c.color == Red && c.cell.node == father
      requires c.up.Frame? && c.up.side == Left && !IsRed(c.up.other) && c.up.cell.node == grandpa
      modifies `root, `tree, nodes
      ensures Repaired(Order(c, t))
    {
      hide Focus, Order;
      RedFather(c, t, h);
      ghost var up, low := c.up.up, Bin(t.right, Black, c.up.cell, c.up.other);
      ghost var tf := Bin(c.other, Red, c.cell, t.left);
      Up(c, t);
      RotateLeftAt(father, c.up, Bin(c.other, Red, c.cell, t));
      Up(c.up, Bin(tf, Red, t.cell, t.right));
      RotateRightAt(grandpa, up, Bin(Bin(tf, Red, t.cell, t.right), Black, c.up.cell, c.up.other));
      Down(up, Bin(tf, Red, t.cell, low));
      Paint(grandpa, Red, Frame(Right, Red, t.cell, tf, up), low);
      Up(Frame(Right, Red, t.cell, tf, up), low.(color := Red));
      Paint(node, Black, up, Bin(tf, Red, t.cell, low.(color := Red)));
      Finish(up, Bin(tf, Black, t.cell, low.(color := Red)), h + 1, Order(c, t));
    }

    /** A red node and its red father, both right children: one rotation of the grandfather. */
    method FixRightRight(father: Node<D>, grandpa: Node<D>, ghost c: Context<D>, ghost t: Tree<D>, ghost h: int)
      requires Focused(c, t) && IsRed(t) && Fits(c, t, h)
      requires c.Frame? && c.side == Right && c.color == Red && c.cell.node == father
      requires c.up.Frame? && c.up.side == Right && !IsRed(c.up.other) && c.up.cell.node == grandpa
      modifies `root, `tree, nodes
      ensures Repaired(Order(c, t))
    {
      hide Focus, Order;
      RedFather(c, t, h);
      ghost var up, low := c.up.up, Bin(c.up.other, Black, c.up.cell, c.other);
      Up(c, t);
      Up(c.up, Bin(c.other, Red, c.cell, t));
      RotateLeftAt(grandpa, up, Bin(c.up.other, Black, c.up.cell, Bin(c.other, Red, c.cell, t)));
      Paint(father, Black, up, Bin(low, Red, c.cell, t));
      Down(up, Bin(low, Black, c.cell, t));
      Paint(grandpa, Red, Frame(Left, Black, c.cell, t, up), low);
      Up(Frame(Left, Black, c.cell, t, up), low.(color := Red));
      Finish(up, Bin(low.(color := Red), Black, c.cell, t), h + 1, Order(c, t));
    }

    /** The red node is a left child, its red father a right child: two rotations. */
    method FixRightLeft(node: Node<D>, father: Node<D>, grandpa: Node<D>, ghost c: Context<D>, ghost t: Tree<D>, ghost h: int)
      requires Focused(c, t) && IsRed(t) && Fits(c, t, h) && t.cell.node == node
      requires c.Frame? && c.side == Left && c.color == Red && c.cell.node == father
      requires c.up.Frame? && c.up.side == Right && !IsRed(c.up.other) && c.up.cell.node == grandpa
      modifies `root, `tree, nodes
      ensures Repaired(Order(c, t))
    {
      hide Focus, Order;
      RedFather(c, t, h);
      ghost var up, low := c.up.up, Bin(c.up.other, Black, c.up.cell, t.left);
      ghost var tf := Bin(t.right, Red, c.cell, c.other);
      Up(c, t);
      RotateRightAt(father, c.up, Bin(t, Red, c.cell, c.other));
      Up(c.up, Bin(t.left, Red, t.cell, tf));
      RotateLeftAt(grandpa, up, Bin(c.up.other, Black, c.up.cell, Bin(t.left, Red, t.cell, tf)));
      Down(up, Bin(low, Red, t.cell, tf));
      Paint(grandpa, Red, Frame(Left, Red, t.cell, tf, up), low);
      Up(Frame(Left, Red, t.cell, tf, up), low.(color := Red));
      Paint(node, Black, up, Bin(low.(color := Red), Red, t.cell, tf));
      Finish(up, Bin(low.(color := Red), Black, t.cell, tf), h + 1, Order(c, t));
    }

    /** The sibling of a light subtree is black below a black father and its outer child is red. */
    method LendOuterLeft(outer: Node<D>, father: Node<D>, ghost c: Context<D>, ghost t: Tree<D>, ghost h: int)
      requires Focused(c, t) && Light(c, t, h)
      requires c.Frame? && c.side == Left && c.color == Black && c.cell.node == father
      requires c.other.Bin? && c.other.color == Black && IsRed(c.other.right) && c.other.right.cell.node == outer
      modifies `root, `tree, nodes
      ensures Repaired(Order(c, t))
    {
      hide Focus, Order;
      LightSibling(c, t, h);
      ghost var s := c.other;
      ghost var s' := Bin(s.left, Black, s.cell, s.right.(color := Black));
      Up(c, t);
      Down(c.up, Bin(t, Black, c.cell, s));
      ghost var cs := Frame(Right, Black, c.cell, t, c.up);
      Down(cs, s);
      Paint(outer, Black, Frame(Right, Black, s.cell, s.left, cs), s.right);
      Up(Frame(Right, Black, s.cell, s.left, cs), s.right.(color := Black));
      Up(cs, s');
      RotateLeftAt(father, c.up, Bin(t, Black, c.cell, s'));
      Finish(c.up, Bin(Bin(t, Black, c.cell, s.left), Black, s.cell, s.right.(color := Black)), h + 2, Order(c, t));
    }

    /** The same with a red inner child of the sibling. */
    method LendInnerLeft(inner: Node<D>, sibling: Node<D>, father: Node<D>, ghost c: Context<D>, ghost t: Tree<D>, ghost h: int)
      requires Focused(c, t) && Light(c, t, h)
      requires c.Frame? && c.side == Left && c.color == Black && c.cell.node == father
      requires c.other.Bin? && c.other.color == Black && c.other.cell.node == sibling
      requires IsRed(c.other.left) && c.other.left.cell.node == inner
      modifies `root, `tree, nodes
      ensures Repaired(Order(c, t))
    {
      hide Focus, Order;
      LightSibling(c, t, h);
      ghost var s, i := c.other, c.other.left;
      Up(c, t);
      Down(c.up, Bin(t, Black, c.cell, s));
      ghost var cs := Frame(Right, Black, c.cell, t, c.up);
      Down(cs, s);
      Paint(inner, Black, Frame(Left, Black, s.cell, s.right, cs), i);
      Up(Frame(Left, Black, s.cell, s.right, cs), i.(color := Black));
      RotateRightAt(sibling, cs, Bin(i.(color := Black), Black, s.cell, s.right));
      ghost var low := Bin(i.right, Black, s.cell, s.right);
      Up(cs, Bin(i.left, Black, i.cell, low));
      RotateLeftAt(father, c.up, Bin(t, Black, c.cell, Bin(i.left, Black, i.cell, low)));
      Finish(c.up, Bin(Bin(t, Black, c.cell, i.left), Black, i.cell, low), h + 2, Order(c, t));
    }

    /** Below a red father the sibling is black; its outer child is red. */
    method LiftOuterLeft(outer: Node<D>, sibling: Node<D>, father: Node<D>, ghost c: Context<D>, ghost t: Tree<D>, ghost h: int)
      requires Focused(c, t) && Light(c, t, h)
      requires c.Frame? && c.side == Left && c.color == Red && c.cell.node == father
      requires c.other.Bin? && c.other.cell.node == sibling && IsRed(c.other.right) && c.other.right.cell.node == outer
      modifies `root, `tree, nodes
      ensures Repaired(Order(c, t))
    {
      hide Focus, Order;
      LightSibling(c, t, h);
      ghost var s := c.other;
      Up(c, t);
      Paint(father, Black, c.up, Bin(t, Red, c.cell, s));
      Down(c.up, Bin(t, Black, c.cell, s));
      ghost var cs := Frame(Right, Black, c.cell, t, c.up);
      Paint(sibling, Red, cs, s);
      Down(cs, s.(color := Red));
      Paint(outer, Black, Frame(Right, Red, s.cell, s.left, cs), s.right);
      Up(Frame(Right, Red, s.cell, s.left, cs), s.right.(color := Black));
      ghost var s' := Bin(s.left, Red, s.cell, s.right.(color := Black));
      Up(cs, s');
      RotateLeftAt(father, c.up, Bin(t, Black, c.cell, s'));
      Finish(c.up, Bin(Bin(t, Black, c.cell, s.left), Red, s.cell, s.right.(color := Black)), h + 1, Order(c, t));
    }

    /** Below a red father the sibling has a red inner child only. */
    method LiftInnerLeft(sibling: Node<D>, father: Node<D>, ghost c: Context<D>, ghost t: Tree<D>, ghost h: int)
      requires Focused(c, t) && Light(c, t, h)
      requires c.Frame? && c.side == Left && c.color == Red && c.cell.node == father
      requires c.other.Bin? && c.other.cell.node == sibling && IsRed(c.other.left)
      modifies `root, `tree, nodes
      ensures Repaired(Order(c, t))
    {
      hide Focus, Order;
      LightSibling(c, t, h);
      ghost var s, i := c.other, c.other.left;
      Up(c, t);
      Paint(father, Black, c.up, Bin(t, Red, c.cell, s));
      Down(c.up, Bin(t, Black, c.cell, s));
      ghost var cs := Frame(Right, Black, c.cell, t, c.up);
      RotateRightAt(sibling, cs, s);
      ghost var low := Bin(i.right, Black, s.cell, s.right);
      Up(cs, Bin(i.left, Red, i.cell, low));
      RotateLeftAt(father, c.up, Bin(t, Black, c.cell, Bin(i.left, Red, i.cell, low)));
      Finish(c.up, Bin(Bin(t, Black, c.cell, i.left), Red, i.cell, low), h + 1, Order(c, t));
    }

    /** Below a red father the inner child of the sibling is black: one rotation, no painting. */
    method TurnRedFatherLeft(father: Node<D>, ghost c: Context<D>, ghost t: Tree<D>, ghost h: int)
      requires Focused(c, t) && Light(c, t, h)
      requires c.Frame? && c.side == Left && c.color == Red && c.cell.node == father
      requires c.other.Bin? && !IsRed(c.other.left)
      modifies `root, `tree, nodes
      ensures Repaired(Order(c, t))
    {
      hide Focus, Order;
      LightSibling(c, t, h);
      ghost var s := c.other;
      Up(c, t);
      RotateLeftAt(father, c.up, Bin(t, Red, c.cell, s));
      Finish(c.up, Bin(Bin(t, Red, c.cell, s.left), Black, s.cell, s.right), h + 1, Order(c, t));
    }

    /** A red sibling below a black father: the subtree sinks one level and gets a red father. */
    method SinkLeft(sibling: Node<D>, father: Node<D>, ghost c: Context<D>, ghost t: Tree<D>, ghost h: int)
      requires Focused(c, t) && Light(c, t, h)
      requires c.Frame? && c.side == Left && c.color == Black && c.cell.node == father
      requires IsRed(c.other) && c.other.cell.node == sibling
      modifies `root, nodes
      ensures var c' := Frame(Left, Red, c.cell, c.other.left, Frame(Left, Black, c.other.cell, c.other.right, c.up));
        Focused(c', t) && Light(c', t, h) && Order(c', t) == Order(c, t)
    {
      hide Focus, Order;
      LightSibling(c, t, h);
      ghost var s := c.other;
      Up(c, t);
      Paint(father, Red, c.up, Bin(t, Black, c.cell, s));
      Down(c.up, Bin(t, Red, c.cell, s));
      ghost var cs := Frame(Right, Red, c.cell, t, c.up);
      Paint(sibling, Black, cs, s);
      Up(cs, s.(color := Black));
      RotateLeftAt(father, c.up, Bin(t, Red, c.cell, s.(color := Black)));
      ghost var low := Bin(t, Red, c.cell, s.left);
      Down(c.up, Bin(low, Black, s.cell, s.right));
      Down(Frame(Left, Black, s.cell, s.right, c.up), low);
      assert ContextBalanced(Frame(Left, Black, s.cell, s.right, c.up), h + 1);
      assert ContextNoRedRed(Frame(Left, Black, s.cell, s.right, c.up), true);
    }

    /** The sibling of a light subtree is black below a black father and its outer child is red. */
    method LendOuterRight(outer: Node<D>, father: Node<D>, ghost c: Context<D>, ghost t: Tree<D>, ghost h: int)
      requires Focused(c, t) && Light(c, t, h)
      requires c.Frame? && c.side == Right && c.color == Black && c.cell.node == father
      requires c.other.Bin? && c.other.color == Black && IsRed(c.other.left) && c.other.left.cell.node == outer
      modifies `root, `tree, nodes
      ensures Repaired(Order(c, t))
    {
      hide Focus, Order;
      LightSibling(c, t, h);
      ghost var s := c.other;
      ghost var s' := Bin(s.left.(color := Black), Black, s.cell, s.right);
      Up(c, t);
      Down(c.up, Bin(s, Black, c.cell, t));
      ghost var cs := Frame(Left, Black, c.cell, t, c.up);
      Down(cs, s);
      Paint(outer, Black, Frame(Left, Black, s.cell, s.right, cs), s.left);
      Up(Frame(Left, Black, s.cell, s.right, cs), s.left.(color := Black));
      Up(cs, s');
      RotateRightAt(father, c.up, Bin(s', Black, c.cell, t));
      Finish(c.up, Bin(s.left.(color := Black), Black, s.cell, Bin(s.right, Black, c.cell, t)), h + 2, Order(c, t));
    }

    /** The same with a red inner child of the sibling. */
    method LendInnerRight(inner: Node<D>, sibling: Node<D>, father: Node<D>, ghost c: Context<D>, ghost t: Tree<D>, ghost h: int)
      requires Focused(c, t) && Light(c, t, h)
      requires c.Frame? && c.side == Right && c.color == Black && c.cell.node == father
      requires c.other.Bin? && c.other.color == Black && c.other.cell.node == sibling
      requires IsRed(c.other.right) && c.other.right.cell.node == inner
      modifies `root, `tree, nodes
      ensures Repaired(Order(c, t))
    {
      hide Focus, Order;
      LightSibling(c, t, h);
      ghost var s, i := c.other, c.other.right;
      Up(c, t);
      Down(c.up, Bin(s, Black, c.cell, t));
      ghost var cs := Frame(Left, Black, c.cell, t, c.up);
      Down(cs, s);
      Paint(inner, Black, Frame(Right, Black, s.cell, s.left, cs), i);
      Up(Frame(Right, Black, s.cell, s.left, cs), i.(color := Black));
      RotateLeftAt(sibling, cs, Bin(s.left, Black, s.cell, i.(color := Black)));
      ghost var low := Bin(s.left, Black, s.cell, i.left);
      Up(cs, Bin(low, Black, i.cell, i.right));
      RotateRightAt(father, c.up, Bin(Bin(low, Black, i.cell, i.right), Black, c.cell, t));
      Finish(c.up, Bin(low, Black, i.cell, Bin(i.right, Black, c.cell, t)), h + 2, Order(c, t));
    }

    /** Below a red father the sibling is black; its outer child is red. */
    method LiftOuterRight(outer: Node<D>, sibling: Node<D>, father: Node<D>, ghost c: Context<D>, ghost t: Tree<D>, ghost h: int)
      requires Focused(c, t) && Light(c, t, h)
      requires c.Frame? && c.side == Right && c.color == Red && c.cell.node == father
      requires c.other.Bin? && c.other.cell.node == sibling && IsRed(c.other.left) && c.other.left.cell.node == outer
      modifies `root, `tree, nodes
      ensures Repaired(Order(c, t))
    {
      hide Focus, Order;
      LightSibling(c, t, h);
      ghost var s := c.other;
      Up(c, t);
      Paint(father, Black, c.up, Bin(s, Red, c.cell, t));
      Down(c.up, Bin(s, Black, c.cell, t));
      ghost var cs := Frame(Left, Black, c.cell, t, c.up);
      Paint(sibling, Red, cs, s);
      Down(cs, s.(color := Red));
      Paint(outer, Black, Frame(Left, Red, s.cell, s.right, cs), s.left);
      Up(Frame(Left, Red, s.cell, s.right, cs), s.left.(color := Black));
      ghost var s' := Bin(s.left.(color := Black), Red, s.cell, s.right);
      Up(cs, s');
      RotateRightAt(father, c.up, Bin(s', Black, c.cell, t));
      Finish(c.up, Bin(s.left.(color := Black), Red, s.cell, Bin(s.right, Black, c.cell, t)), h + 1, Order(c, t));
    }

    /** Below a red father the sibling has a red inner child only. */
    method LiftInnerRight(sibling: Node<D>, father: Node<D>, ghost c: Context<D>, ghost t: Tree<D>, ghost h: int)
      requires Focused(c, t) && Light(c, t, h)
      requires c.Frame? && c.side == Right && c.color == Red && c.cell.node == father
      requires c.other.Bin? && c.other.cell.node == sibling && IsRed(c.other.right)
      modifies `root, `tree, nodes
      ensures Repaired(Order(c, t))
    {
      hide Focus, Order;
      LightSibling(c, t, h);
      ghost var s, i := c.other, c.other.right;
      Up(c, t);
      Paint(father, Black, c.up, Bin(s, Red, c.cell, t));
      Down(c.up, Bin(s, Black, c.cell, t));
      ghost var cs := Frame(Left, Black, c.cell, t, c.up);
      RotateLeftAt(sibling, cs, s);
      ghost var low := Bin(s.left, Black, s.cell, i.left);
      Up(cs, Bin(low, Red, i.cell, i.right));
      RotateRightAt(father, c.up, Bin(Bin(low, Red, i.cell, i.right), Black, c.cell, t));
      Finish(c.up, Bin(low, Red, i.cell, Bin(i.right, Black, c.cell, t)), h + 1, Order(c, t));
    }

    /** Below a red father the inner child of the sibling is black: one rotation, no painting. */
    method TurnRedFatherRight(father: Node<D>, ghost c: Context<D>, ghost t: Tree<D>, ghost h: int)
      requires Focused(c, t) && Light(c, t, h)
      requires c.Frame? && c.side == Right && c.color == Red && c.cell.node == father
      requires c.other.Bin? && !IsRed(c.other.right)
      modifies `root, `tree, nodes
      ensures Repaired(Order(c, t))
    {
      hide Focus, Order;
      LightSibling(c, t, h);
      ghost var s := c.other;
      Up(c, t);
      RotateRightAt(father, c.up, Bin(s, Red, c.cell, t));
      Finish(c.up, Bin(s.left, Black, s.cell, Bin(s.right, Red, c.cell, t)), h + 1, Order(c, t));
    }

    /** A red sibling below a black father: the subtree sinks one level and gets a red father. */
    method SinkRight(sibling: Node<D>, father: Node<D>, ghost c: Context<D>, ghost t: Tree<D>, ghost h: int)
      requires Focused(c, t) && Light(c, t, h)
      requires c.Frame? && c.side == Right && c.color == Black && c.cell.node == father
      requires IsRed(c.other) && c.other.cell.node == sibling
      modifies `root, nodes
      ensures var c' := Frame(Right, Red, c.cell, c.other.right, Frame(Right, Black, c.other.cell, c.other.left, c.up));
        Focused(c', t) && Light(c', t, h) && Order(c', t) == Order(c, t)
    {
      hide Focus, Order;
      LightSibling(c, t, h);
      ghost var s := c.other;
      Up(c, t);
      Paint(father, Red, c.up, Bin(s, Black, c.cell, t));
      Down(c.up, Bin(s, Red, c.cell, t));
      ghost var cs := Frame(Left, Red, c.cell, t, c.up);
      Paint(sibling, Black, cs, s);
      Up(cs, s.(color := Black));
      RotateRightAt(father, c.up, Bin(s.(color := Black), Red, c.cell, t));
      ghost var low := Bin(s.right, Red, c.cell, t);
      Down(c.up, Bin(s.left, Black, s.cell, low));
      Down(Frame(Right, Black, s.cell, s.left, c.up), low);
      assert ContextBalanced(Frame(Right, Black, s.cell, s.left, c.up), h + 1);
      assert ContextNoRedRed(Frame(Right, Black, s.cell, s.left, c.up), true);
    }

    /** A red sibling of a removed black leaf: two rotations, then a possible red pair is fixed. */
    method LeafRedSiblingLeft(sibling: Node<D>, father: Node<D>, ghost c: Context<D>)
      requires Focused(c, Nil) && Light(c, Nil, 0)
      requires c.Frame? && c.side == Left && c.color == Black && c.cell.node == father
      requires IsRed(c.other) && c.other.cell.node == sibling
      modifies `root, `tree, nodes
      ensures Repaired(Order(c, Nil))
    {
      hide Focus, Order;
      LightSibling(c, Nil, 0);
      ghost var inner := c.other.left;
      ghost var c1 := Frame(Left, Black, c.other.cell, c.other.right, c.up);
      SinkLeft(sibling, father, c, Nil, 0);
      LightSibling(Frame(Left, Red, c.cell, inner, c1), Nil, 0);
      Up(Frame(Left, Red, c.cell, inner, c1), Nil);
      RotateLeftAt(father, c1, Bin(Nil, Red, c.cell, inner));
      ghost var c2 := Frame(Left, Black, inner.cell, inner.right, c1);
      ghost var tf := Bin(Nil, Red, c.cell, inner.left);
      Down(c1, Bin(tf, Black, inner.cell, inner.right));
      Down(c2, tf);
      Site(c2, tf);
      assert ContextBalanced(c1, 1) && ContextBalanced(c2, 0);
      assert ContextNoRedRed(c1, false) && ContextNoRedRed(c2, true) && ContextNoRedRed(c2, false);
      if father.rightChild != null {
        FixContinuousRedNodeProblem(father.rightChild, Frame(Right, Red, c.cell, Nil, c2), inner.left, 0);
      } else {
        Finish(c2, tf, 0, Order(c, Nil));
      }
    }

    /** A red sibling of a removed black leaf: two rotations, then a possible red pair is fixed. */
    method LeafRedSiblingRight(sibling: Node<D>, father: Node<D>, ghost c: Context<D>)
      requires Focused(c, Nil) && Light(c, Nil, 0)
      requires c.Frame? && c.side == Right && c.color == Black && c.cell.node == father
      requires IsRed(c.other) && c.other.cell.node == sibling
      modifies `root, `tree, nodes
      ensures Repaired(Order(c, Nil))
    {
      hide Focus, Order;
      LightSibling(c, Nil, 0);
      ghost var inner := c.other.right;
      ghost var c1 := Frame(Right, Black, c.other.cell, c.other.left, c.up);
      SinkRight(sibling, father, c, Nil, 0);
      LightSibling(Frame(Right, Red, c.cell, inner, c1), Nil, 0);
      Up(Frame(Right, Red, c.cell, inner, c1), Nil);
      RotateRightAt(father, c1, Bin(inner, Red, c.cell, Nil));
      ghost var c2 := Frame(Right, Black, inner.cell, inner.left, c1);
      ghost var tf := Bin(inner.right, Red, c.cell, Nil);
      Down(c1, Bin(inner.left, Black, inner.cell, tf));
      Down(c2, tf);
      Site(c2, tf);
      assert ContextBalanced(c1, 1) && ContextBalanced(c2, 0);
      assert ContextNoRedRed(c1, false) && ContextNoRedRed(c2, true) && ContextNoRedRed(c2, false);
      if father.leftChild != null {
        FixContinuousRedNodeProblem(father.leftChild, Frame(Left, Red, c.cell, Nil, c2), inner.right, 0);
      } else {
        Finish(c2, tf, 0, Order(c, Nil));
      }
    }

    /** What the fields around a focused subtree read. */
    lemma Site(c: Context<D>, t: Tree<D>)
      requires Focused(c, t) && t.Bin?
      ensures var n := t.cell.node;
        && n in nodes && n.key == t.cell.key && n.data == t.cell.data && n.color == t.color
        && n.father == FatherOf(c, null) && n.leftChild == Root(t.left) && n.rightChild == Root(t.right)
      ensures t.left.Bin? ==> t.left.cell.node in nodes && t.left.cell.node.color == t.left.color
      ensures t.right.Bin? ==> t.right.cell.node in nodes && t.right.cell.node.color == t.right.color
      ensures t.cell.node == root <==> c.Top?
    {
      var h := Snapshot(nodes);
      assert Holds(h, t.cell, t.color, FatherOf(c, null), Root(t.left), Root(t.right));
      assert Linked(h, t.left, t.cell.node) && Linked(h, t.right, t.cell.node);
      assert t.left.Bin? ==> Holds(h, t.left.cell, t.left.color, t.cell.node, Root(t.left.left), Root(t.left.right));
      assert t.right.Bin? ==> Holds(h, t.right.cell, t.right.color, t.cell.node, Root(t.right.left), Root(t.right.right));
      OutermostAmong(c, t.cell.node);
    }

    /** What the fields of the father of the hole read. */
    lemma FatherSite(c: Context<D>, t: Tree<D>)
      requires Focused(c, t) && c.Frame?
      ensures var f := c.cell.node;
        && f in nodes && f.color == c.color && f.father == FatherOf(c.up, null)
        && f.leftChild == (if c.side == Left then Root(t) else Root(c.other))
        && f.rightChild == (if c.side == Left then Root(c.other) else Root(t))
      ensures t.Bin? ==> Root(c.other) != t.cell.node
      ensures c.other.Bin? ==> var s := c.other.cell.node;
        && s in nodes && s.color == c.other.color
        && s.leftChild == Root(c.other.left) && s.rightChild == Root(c.other.right)
    {
      var h := Snapshot(nodes);
      assert HoleHolds(h, c, null, Root(t));
      assert c.other.Bin? ==>
        Holds(h, c.other.cell, c.other.color, c.cell.node, Root(c.other.left), Root(c.other.right));
    }

    /** The focus moves to the sibling. */
    lemma Across(c: Context<D>, t: Tree<D>)
      requires Focused(c, t) && c.Frame?
      ensures Focused(Frame(Opposite(c.side), c.color, c.cell, t, c.up), c.other)
      ensures Order(Frame(Opposite(c.side), c.color, c.cell, t, c.up), c.other) == Order(c, t)
    {
      hide Focus, Order;
      Up(c, t);
      Down(c.up, Join(c.side, c.color, c.cell, c.other, t));
    }

    /** The uncle is red: father and uncle turn black, the grandfather red. */
    method Recolour(uncle: Node<D>, father: Node<D>, grandpa: Node<D>, ghost c: Context<D>, ghost t: Tree<D>, ghost h: int)
        returns (ghost t': Tree<D>)
      requires Focused(c, t) && t.Bin? && Fits(c, t, h)
      requires c.Frame? && c.color == Red && c.cell.node == father
      requires c.up.Frame? && IsRed(c.up.other) && c.up.cell.node == grandpa && c.up.other.cell.node == uncle
      modifies nodes
      ensures t'.Bin? && t'.cell.node == grandpa
      ensures Focused(c.up.up, t') && Fits(c.up.up, t', h + 1) && Order(c.up.up, t') == Order(c, t)
    {
      hide Focus, Order;
      RedFather(c, t, h);
      ghost var up, g := c.up.up, c.up.cell;
      ghost var tf := Join(c.side, Red, c.cell, c.other, t);
      ghost var u := c.up.other.(color := Black);
      Up(c, t);
      Across(c.up, tf);
      Paint(uncle, Black, Frame(Opposite(c.up.side), Black, g, tf, up), c.up.other);
      Across(Frame(Opposite(c.up.side), Black, g, tf, up), u);
      Paint(father, Black, Frame(c.up.side, Black, g, u, up), tf);
      ghost var tf' := Join(c.side, Black, c.cell, c.other, t);
      Up(Frame(c.up.side, Black, g, u, up), tf');
      Paint(grandpa, Red, up, Join(c.up.side, Black, g, u, tf'));
      t' := Join(c.up.side, Red, g, u, tf');
      assert Balanced(tf', h + 1) && Balanced(u, h + 1) && NoRedRed(tf') && NoRedRed(u);
    }

    method FixContinuousRedNodeProblem(node: Node<D>, ghost c0: Context<D>, ghost t0: Tree<D>, ghost h0: int)
      requires Focused(c0, t0) && t0.Bin? && t0.cell.node == node && Fits(c0, t0, h0)
      modifies `root, `tree, nodes
      ensures Repaired(Order(c0, t0))
    {
      hide Focus, Order;
      var currentNode := node;
      ghost var c, t, h := c0, t0, h0;
      Site(c, t);
      while currentNode.color == Red
        invariant Focused(c, t) && t.Bin? && t.cell.node == currentNode && Fits(c, t, h)
        invariant currentNode in nodes && currentNode.color == t.color
        invariant Order(c, t) == Order(c0, t0)
        decreases Depth(c)
      {
        Site(c, t);
        var currentFather := currentNode.father;
        if currentFather == null {
          Paint(currentNode, Black, c, t);
          t, h := t.(color := Black), h + 1;
          break;
        }
        FatherSite(c, t);
        if currentFather.color == Black {
          break;
        }
        RedFather(c, t, h);
        ghost var tf := Join(c.side, Red, c.cell, c.other, t);
        Up(c, t);
        FatherSite(c.up, tf);
        var currentGrandpa := currentFather.father;
        var uncle :=
          if currentGrandpa.leftChild != currentFather then currentGrandpa.leftChild else currentGrandpa.rightChild;
        if uncle != null && uncle.color == Red {
          assert Depth(c) == 2 + Depth(c.up.up);
          t := Recolour(uncle, currentFather, currentGrandpa, c, t, h);
          c, h := c.up.up, h + 1;
          currentNode := currentGrandpa;
          Site(c, t);
        } else {
          if currentFather == currentGrandpa.leftChild {
            if currentNode == currentFather.leftChild {
              FixLeftLeft(currentFather, currentGrandpa, c, t, h);
            } else {
              FixLeftRight(currentNode, currentFather, currentGrandpa, c, t, h);
            }
          } else {
            if currentNode == currentFather.rightChild {
              FixRightRight(currentFather, currentGrandpa, c, t, h);
            } else {
              FixRightLeft(currentNode, currentFather, currentGrandpa, c, t, h);
            }
          }
          return;
        }
      }
      FinishBlack(c, t, h, Order(c0, t0));
    }

    /** The repair has ended at a black node, at the root or below a black father. */
    ghost method FinishBlack(c: Context<D>, t: Tree<D>, h: int, cells: seq<Cell<D>>)
      requires Focused(c, t) && Fits(c, t, h) && Order(c, t) == cells
      requires IsRed(t) ==> c.Frame? && c.color == Black
      modifies `tree
      ensures Repaired(cells)
    {
      hide Focus, Order;
      Finish(c, t, h, cells);
    }

    /** How far the repair of a light subtree can still go: a red father always ends it. */
    static ghost function Climb(c: Context<D>): nat {
      if c.Frame? && c.color == Red then 0 else Depth(c)
    }

    method FixUnbalancedChildrenProblem(node: Node<D>, ghost c0: Context<D>, ghost t0: Tree<D>, ghost h0: int)
      requires Focused(c0, t0) && t0.Bin? && t0.cell.node == node && Light(c0, t0, h0)
      modifies `root, `tree, nodes
      ensures Repaired(Order(c0, t0))
    {
      hide Focus, Order;
      var currentNode := node;
      ghost var c, t, h := c0, t0, h0;
      Site(c, t);
      while currentNode != root
        invariant Focused(c, t) && t.Bin? && t.cell.node == currentNode && Light(c, t, h)
        invariant currentNode in nodes && (currentNode == root <==> c.Top?)
        invariant Order(c, t) == Order(c0, t0)
        decreases Climb(c)
      {
        LightSibling(c, t, h);
        HeightNonNegative(t.left, h - 1);
        Site(c, t);
        FatherSite(c, t);
        Across(c, t);
        Site(Frame(Opposite(c.side), c.color, c.cell, t, c.up), c.other);
        var currentFather := currentNode.father;
        var sibling :=
          if currentFather.leftChild != currentNode then currentFather.leftChild else currentFather.rightChild;
        var siblingSide := if sibling == currentFather.leftChild then Left else Right;
        if currentFather.color == Red {
          MendBelowRed(currentFather, sibling, siblingSide, c, t, h);
          return;
        } else if sibling.color == Red {
          if siblingSide == Right {
            SinkLeft(sibling, currentFather, c, t, h);
          } else {
            SinkRight(sibling, currentFather, c, t, h);
          }
          c := Frame(c.side, Red, c.cell, if c.side == Left then c.other.left else c.other.right,
                     Frame(c.side, Black, c.other.cell, if c.side == Left then c.other.right else c.other.left, c.up));
          Site(c, t);
        } else if sibling.leftChild.color == Black && sibling.rightChild.color == Black {
          Whiten(sibling, c, t, h);
          t := Join(c.side, Black, c.cell, c.other.(color := Red), t);
          c, h := c.up, h + 1;
          currentNode := currentFather;
          Site(c, t);
        } else {
          if siblingSide == Right && sibling.rightChild.color == Red {
            LendOuterLeft(sibling.rightChild, currentFather, c, t, h);
          } else if siblingSide == Left && sibling.leftChild.color == Red {
            LendOuterRight(sibling.leftChild, currentFather, c, t, h);
          } else if siblingSide == Right {
            LendInnerLeft(sibling.leftChild, sibling, currentFather, c, t, h);
          } else {
            LendInnerRight(sibling.rightChild, sibling, currentFather, c, t, h);
          }
          return;
        }
      }
      Finish(c, t, h, Order(c0, t0));
    }

    /** A black sibling with two black children below a black father turns red: the father is light now. */
    method Whiten(sibling: Node<D>, ghost c: Context<D>, ghost t: Tree<D>, ghost h: int)
      requires Focused(c, t) && Light(c, t, h)
      requires c.Frame? && c.color == Black && c.other.Bin? && c.other.color == Black && c.other.cell.node == sibling
      requires !IsRed(c.other.left) && !IsRed(c.other.right)
      modifies nodes
      ensures var t' := Join(c.side, Black, c.cell, c.other.(color := Red), t);
        Focused(c.up, t') && Light(c.up, t', h + 1) && Order(c.up, t') == Order(c, t)
    {
      hide Focus, Order;
      LightSibling(c, t, h);
      ghost var cs, s' := Frame(Opposite(c.side), Black, c.cell, t, c.up), c.other.(color := Red);
      Across(c, t);
      Paint(sibling, Red, cs, c.other);
      Up(cs, s');
      assert Balanced(s', h) && NoRedRed(s');
    }

    /** The five ends of the repair below a red father, whose black sibling has two children. */
    method MendBelowRed(currentFather: Node<D>, sibling: Node<D>, siblingSide: Side, ghost c: Context<D>, ghost t: Tree<D>, ghost h: int)
      requires Focused(c, t) && Light(c, t, h) && h > 0
      requires c.Frame? && c.color == Red && c.cell.node == currentFather && siblingSide == Opposite(c.side)
      requires c.other.Bin? && c.other.cell.node == sibling && sibling in nodes
      modifies `root, `tree, nodes
      ensures Repaired(Order(c, t))
    {
      hide Focus, Order;
      LightSibling(c, t, h);
      Across(c, t);
      ghost var s := c.other;
      Site(Frame(Opposite(c.side), c.color, c.cell, t, c.up), s);
      if siblingSide == Right && sibling.leftChild.color == Black {
        TurnRedFatherLeft(currentFather, c, t, h);
      } else if siblingSide == Left && sibling.rightChild.color == Black {
        TurnRedFatherRight(currentFather, c, t, h);
      } else if siblingSide == Right && sibling.rightChild.color == Black {
        Swap(currentFather, sibling, c, t, h);
        FixContinuousRedNodeProblem(sibling.leftChild, Frame(Left, Red, s.cell, s.right, Frame(Right, Black, c.cell, t, c.up)), s.left, h);
      } else if siblingSide == Left && sibling.leftChild.color == Black {
        Swap(currentFather, sibling, c, t, h);
        FixContinuousRedNodeProblem(sibling.rightChild, Frame(Right, Red, s.cell, s.left, Frame(Left, Black, c.cell, t, c.up)), s.right, h);
      } else if siblingSide == Right {
        LiftOuterLeft(sibling.rightChild, sibling, currentFather, c, t, h);
      } else {
        LiftOuterRight(sibling.leftChild, sibling, currentFather, c, t, h);
      }
    }

    /** Father and sibling exchange colours, which leaves a red pair at the red inner child of the sibling. */
    method Swap(father: Node<D>, sibling: Node<D>, ghost c: Context<D>, ghost t: Tree<D>, ghost h: int)
      requires Focused(c, t) && Light(c, t, h)
      requires c.Frame? && c.color == Red && c.cell.node == father && c.other.Bin? && c.other.cell.node == sibling
      requires h > 0 && !IsRed(if c.side == Left then c.other.right else c.other.left)
      modifies nodes
      ensures var s := c.other;
        var inner := if c.side == Left then s.left else s.right;
        var c' := Frame(c.side, Red, s.cell, if c.side == Left then s.right else s.left,
                        Frame(Opposite(c.side), Black, c.cell, t, c.up));
        && Focused(c', inner) && Fits(c', inner, h) && Order(c', inner) == Order(c, t)
        && inner.Bin? && sibling in nodes && (if c.side == Left then sibling.leftChild else sibling.rightChild) == inner.cell.node
    {
      hide Focus, Order;
      LightSibling(c, t, h);
      ghost var s := c.other;
      ghost var tf := Join(c.side, Black, c.cell, s, t);
      Up(c, t);
      Paint(father, Black, c.up, Join(c.side, Red, c.cell, s, t));
      Down(c.up, tf);
      ghost var cs := Frame(Opposite(c.side), Black, c.cell, t, c.up);
      Paint(sibling, Red, cs, s);
      Site(cs, s.(color := Red));
      Down(cs, s.(color := Red));
      assert ContextBalanced(cs, h) && ContextNoRedRed(cs, true);
    }

    // ----- Removal of a black leaf -----

    /** The leaf is gone; its father was red. */
    method MendLeafBelowRed(currentFather: Node<D>, sibling: Node<D>, siblingSide: Side, ghost c: Context<D>)
      requires Focused(c, Nil) && Light(c, Nil, 0)
      requires c.Frame? && c.color == Red && c.cell.node == currentFather && siblingSide == Opposite(c.side)
      requires c.other.Bin? && c.other.cell.node == sibling && sibling in nodes
      modifies `root, `tree, nodes
      ensures Repaired(Order(c, Nil))
    {
      hide Focus, Order;
      LightSibling(c, Nil, 0);
      FatherSite(c, Nil);
      if sibling.leftChild != null && sibling.rightChild != null {
        if siblingSide == Right {
          LiftOuterLeft(sibling.rightChild, sibling, currentFather, c, Nil, 0);
        } else {
          LiftOuterRight(sibling.leftChild, sibling, currentFather, c, Nil, 0);
        }
      } else if siblingSide == Right && sibling.leftChild != null {
        LiftInnerLeft(sibling, currentFather, c, Nil, 0);
      } else if siblingSide == Left && sibling.rightChild != null {
        LiftInnerRight(sibling, currentFather, c, Nil, 0);
      } else if siblingSide == Right && sibling.rightChild != null {
        LiftOuterLeft(sibling.rightChild, sibling, currentFather, c, Nil, 0);
      } else if siblingSide == Left && sibling.leftChild != null {
        LiftOuterRight(sibling.leftChild, sibling, currentFather, c, Nil, 0);
      } else {
        ghost var cs, s' := Frame(Opposite(c.side), Red, c.cell, Nil, c.up), c.other.(color := Red);
        Across(c, Nil);
        Paint(sibling, Red, cs, c.other);
        Up(cs, s');
        Paint(currentFather, Black, c.up, Join(c.side, Red, c.cell, s', Nil));
        Finish(c.up, Join(c.side, Black, c.cell, s', Nil), 1, Order(c, Nil));
      }
    }

    /** The leaf is gone; its father was black. */
    method MendLeafBelowBlack(currentFather: Node<D>, sibling: Node<D>, siblingSide: Side, ghost c: Context<D>)
      requires Focused(c, Nil) && Light(c, Nil, 0)
      requires c.Frame? && c.color == Black && c.cell.node == currentFather && siblingSide == Opposite(c.side)
      requires c.other.Bin? && c.other.cell.node == sibling && sibling in nodes
      modifies `root, `tree, nodes
      ensures Repaired(Order(c, Nil))
    {
      hide Focus, Order;
      LightSibling(c, Nil, 0);
      FatherSite(c, Nil);
      if sibling.color == Black && sibling.leftChild != null && sibling.rightChild != null {
        if siblingSide == Right {
          LendInnerLeft(sibling.leftChild, sibling, currentFather, c, Nil, 0);
        } else {
          LendInnerRight(sibling.rightChild, sibling, currentFather, c, Nil, 0);
        }
      } else if sibling.color == Black && (sibling.leftChild != null || sibling.rightChild != null) {
        if siblingSide == Right && sibling.rightChild != null {
          LendOuterLeft(sibling.rightChild, currentFather, c, Nil, 0);
        } else if siblingSide == Right && sibling.leftChild != null {
          LendInnerLeft(sibling.leftChild, sibling, currentFather, c, Nil, 0);
        } else if siblingSide == Left && sibling.leftChild != null {
          LendOuterRight(sibling.leftChild, currentFather, c, Nil, 0);
        } else {
          LendInnerRight(sibling.rightChild, sibling, currentFather, c, Nil, 0);
        }
      } else if sibling.color == Black {
        ghost var t := Join(c.side, Black, c.cell, c.other.(color := Red), Nil);
        Whiten(sibling, c, Nil, 0);
        FixUnbalancedChildrenProblem(currentFather, c.up, t, 1);
      } else {
        if siblingSide == Right {
          LeafRedSiblingLeft(sibling, currentFather, c);
        } else {
          LeafRedSiblingRight(sibling, currentFather, c);
        }
      }
    }

    /** First half of the swap: the colours, and the nodes around that keep their places. */
    method SwapSurroundings(cur: Node<D>, rep: Node<D>, cf: Node?<D>, cl: Node?<D>, rr: Node?<D>)
      requires cur != rep && cf !in {cur, rep} && cl !in {cur, rep} && rr !in {cur, rep}
      requires (cf != null ==> cf !in {cl, rr}) && (cl != null ==> cl != rr)
      requires cur in nodes && rep in nodes && Opt(cf) + Opt(cl) + Opt(rr) <= nodes
      modifies `root, nodes
      ensures root == if cf == null then rep else old(root)
      ensures SurroundingsWritten(old(Snapshot(nodes)), Snapshot(nodes), cur, rep, cf, cl, rr)
    {
      cur.color, rep.color := rep.color, cur.color;
      Rebind(cf, cur, rep);
      if cl != null {
        cl.father := rep;
      }
      if rr != null {
        rr.father := cur;
      }
    }


    // ----- Removal: the doomed node changes places with a neighbour until it is a leaf -----

    /** The node objects that the swap meets are different ones. */
    ghost predicate CanSwapRight(cur: Node<D>, rep: Node<D>)
      reads cur, rep, nodes, this`nodes
    {
      && cur.rightChild != null && rep.father != null && cur != rep
      && (rep.father == cur <==> cur.rightChild == rep)
      && cur in nodes && rep in nodes && cur.rightChild in nodes && rep.father in nodes
      && Opt(cur.father) + Opt(cur.leftChild) + Opt(rep.rightChild) <= nodes
      && cur.father !in {cur, rep} && cur.leftChild !in {cur, rep} && rep.rightChild !in {cur, rep}
      && (cur.father != null ==> cur.father !in {cur.leftChild, rep.rightChild})
      && (cur.leftChild != null ==> cur.leftChild != rep.rightChild)
      && (cur.rightChild != rep ==>
            && cur.rightChild !in {cur, cur.father, cur.leftChild, rep.rightChild}
            && rep.father !in {rep, cur.father, cur.leftChild, rep.rightChild})
    }

    /** The node and the leftmost node of its right subtree change places. */
    method SwapRight(currentNode: Node<D>, replacementNode: Node<D>)
      requires CanSwapRight(currentNode, replacementNode)
      modifies `root, nodes
      ensures SwapWrites(old(Snapshot(nodes)), Snapshot(nodes), currentNode, replacementNode, Right)
      ensures root == if old(currentNode.father) == null then replacementNode else old(root)
    {
      var currentLeft, currentRight, currentFather := currentNode.leftChild, currentNode.rightChild, currentNode.father;
      var replacementRight, replacementFather := replacementNode.rightChild, replacementNode.father;
      hide SurroundingsWritten, LinksWritten, SwapWrites;
      ghost var h := Snapshot(nodes);
      SwapSurroundings(currentNode, replacementNode, currentFather, currentLeft, replacementRight);
      ghost var h1 := Snapshot(nodes);
      SwapLinksRight(currentNode, replacementNode, currentLeft, currentRight, currentFather, replacementRight, replacementFather);
      SwapInTwoSteps(h, h1, Snapshot(nodes), currentNode, replacementNode, Right, currentLeft, currentRight,
                     currentFather, replacementRight, replacementFather);
    }

    /** Second half of the swap: the links of the two nodes, and of those between them if there are any. */
    method SwapLinksRight(cur: Node<D>, rep: Node<D>, cl: Node?<D>, cr: Node<D>, cf: Node?<D>, rr: Node?<D>, rf: Node<D>)
      requires cur != rep && (rf == cur <==> cr == rep) && (cr != rep ==> cr != cur && rf != rep)
      requires {cur, rep, cr, rf} <= nodes
      modifies nodes
      ensures LinksWritten(old(Snapshot(nodes)), Snapshot(nodes), cur, rep, Right, cl, cr, cf, rr, rf)
    {
      cur.leftChild := null;
      cur.rightChild := rr;
      if rf == cur {
        cur.father := rep;
      } else {
        cur.father := rf;
      }
      rep.leftChild := cl;
      rep.father := cf;
      if cr == rep {
        rep.rightChild := cur;
      } else {
        rep.rightChild := cr;
      }
      if cr != rep {
        cr.father := rep;
        rf.leftChild := cur;
      }
    }

    method SwapRightAt(currentNode: Node<D>, replacementNode: Node<D>, ghost p: Path<D>)
      requires Focused(p.Above(), p.Below()) && p.x.node == currentNode && p.y.node == replacementNode
      requires p.side == Right && (p.s.Frame? ==> p.s.side == Left)
      modifies `root, nodes
      ensures Focused(p.Swapped().Above(), p.Swapped().Below())
    {
      hide Focus, Linked, LinkedAround, Distinct, ContextDistinct, Nodes, ContextNodes, SwapWrites;
      ghost var h := Snapshot(nodes);
      p.FocusPath(nodes, root, h);
      p.Sites(nodes, h);
      SwapRight(currentNode, replacementNode);
      p.WritesSuffice(nodes, h, Snapshot(nodes));
      p.PathSwapped(nodes, old(root), h, root, Snapshot(nodes));
      p.Swapped().PathFocus(nodes, root, Snapshot(nodes));
    }

    // ----- Removal: the doomed node changes places with a neighbour until it is a leaf -----

    /** The node objects that the swap meets are different ones. */
    ghost predicate CanSwapLeft(cur: Node<D>, rep: Node<D>)
      reads cur, rep, nodes, this`nodes
    {
      && cur.leftChild != null && rep.father != null && cur != rep
      && (rep.father == cur <==> cur.leftChild == rep)
      && cur in nodes && rep in nodes && cur.leftChild in nodes && rep.father in nodes
      && Opt(cur.father) + Opt(cur.rightChild) + Opt(rep.leftChild) <= nodes
      && cur.father !in {cur, rep} && cur.rightChild !in {cur, rep} && rep.leftChild !in {cur, rep}
      && (cur.father != null ==> cur.father !in {cur.rightChild, rep.leftChild})
      && (cur.rightChild != null ==> cur.rightChild != rep.leftChild)
      && (cur.leftChild != rep ==>
            && cur.leftChild !in {cur, cur.father, cur.rightChild, rep.leftChild}
            && rep.father !in {rep, cur.father, cur.rightChild, rep.leftChild})
    }

    /** The node and the rightmost node of its left subtree change places. */
    method SwapLeft(currentNode: Node<D>, replacementNode: Node<D>)
      requires CanSwapLeft(currentNode, replacementNode)
      modifies `root, nodes
      ensures SwapWrites(old(Snapshot(nodes)), Snapshot(nodes), currentNode, replacementNode, Left)
      ensures root == if old(currentNode.father) == null then replacementNode else old(root)
    {
      var currentRight, currentLeft, currentFather := currentNode.rightChild, currentNode.leftChild, currentNode.father;
      var replacementLeft, replacementFather := replacementNode.leftChild, replacementNode.father;
      hide SurroundingsWritten, LinksWritten, SwapWrites;
      ghost var h := Snapshot(nodes);
      SwapSurroundings(currentNode, replacementNode, currentFather, currentRight, replacementLeft);
      ghost var h1 := Snapshot(nodes);
      SwapLinksLeft(currentNode, replacementNode, currentRight, currentLeft, currentFather, replacementLeft, replacementFather);
      SwapInTwoSteps(h, h1, Snapshot(nodes), currentNode, replacementNode, Left, currentRight, currentLeft,
                     currentFather, replacementLeft, replacementFather);
    }

    /** Second half of the swap: the links of the two nodes, and of those between them if there are any. */
    method SwapLinksLeft(cur: Node<D>, rep: Node<D>, cl: Node?<D>, cr: Node<D>, cf: Node?<D>, rr: Node?<D>, rf: Node<D>)
      requires cur != rep && (rf == cur <==> cr == rep) && (cr != rep ==> cr != cur && rf != rep)
      requires {cur, rep, cr, rf} <= nodes
      modifies nodes
      ensures LinksWritten(old(Snapshot(nodes)), Snapshot(nodes), cur, rep, Left, cl, cr, cf, rr, rf)
    {
      cur.rightChild := null;
      cur.leftChild := rr;
      if rf == cur {
        cur.father := rep;
      } else {
        cur.father := rf;
      }
      rep.rightChild := cl;
      rep.father := cf;
      if cr == rep {
        rep.leftChild := cur;
      } else {
        rep.leftChild := cr;
      }
      if cr != rep {
        cr.father := rep;
        rf.rightChild := cur;
      }
    }

    method SwapLeftAt(currentNode: Node<D>, replacementNode: Node<D>, ghost p: Path<D>)
      requires Focused(p.Above(), p.Below()) && p.x.node == currentNode && p.y.node == replacementNode
      requires p.side == Left && (p.s.Frame? ==> p.s.side == Right)
      modifies `root, nodes
      ensures Focused(p.Swapped().Above(), p.Swapped().Below())
    {
      hide Focus, Linked, LinkedAround, Distinct, ContextDistinct, Nodes, ContextNodes, SwapWrites;
      ghost var h := Snapshot(nodes);
      p.FocusPath(nodes, root, h);
      p.Sites(nodes, h);
      SwapLeft(currentNode, replacementNode);
      p.WritesSuffice(nodes, h, Snapshot(nodes));
      p.PathSwapped(nodes, old(root), h, root, Snapshot(nodes));
      p.Swapped().PathFocus(nodes, root, Snapshot(nodes));
    }

    // ----- The Map as its callers see it -----

    ghost predicate Valid()
      reads this, nodes
    {
      Focused(Top, tree) && RedBlackTree(tree) && Ascending(InOrder(tree))
    }

    /** The keys with the node objects that hold them and their data. */
    ghost function Content(): map<int, Cell<D>>
      requires Valid()
      reads this, nodes
    {
      Contents(InOrder(tree))
    }

    constructor ()
      ensures Valid() && Content() == map[] && nodes == {}
    {
      root, nodes, tree := null, {}, Nil;
      new;
      assert Balanced(tree, 0);
    }

    /** The search has `t` in the hole of `c` under its eyes. */
    ghost predicate Inspecting(c: Context<D>, t: Tree<D>, height: int, key: int)
      reads this, nodes
    {
      Focused(c, t) && Sound(c, t, height) && Searching(c, t, key) && Order(c, t) == InOrder(tree)
    }

    lemma Start(key: int) returns (height: int)
      requires Valid()
      ensures Inspecting(Top, tree, height, key) && root == Root(tree)
    {
      height := SoundWhole(tree);
      assert Order(Top, tree) == InOrder(tree);
    }

    lemma StepLeft(c: Context<D>, t: Tree<D>, height: int, key: int)
      requires Inspecting(c, t, height, key) && t.Bin? && key < t.cell.key
      ensures Inspecting(Frame(Left, t.color, t.cell, t.right, c), t.left, height - Weight(t.color), key)
      ensures Height(t.left) < Height(t)
    {
      Down(c, t);
      SoundBelow(c, t, height);
      SearchLeft(c, t, key);
    }

    lemma StepRight(c: Context<D>, t: Tree<D>, height: int, key: int)
      requires Inspecting(c, t, height, key) && t.Bin? && key > t.cell.key
      ensures Inspecting(Frame(Right, t.color, t.cell, t.left, c), t.right, height - Weight(t.color), key)
      ensures Height(t.right) < Height(t)
    {
      Down(c, t);
      SoundBelow(c, t, height);
      SearchRight(c, t, key);
    }

    lemma Within(steps: nat)
      requires Valid() && steps <= Height(tree)
      ensures Pow2(steps) <= (|Content()| + 1) * (|Content()| + 1)
    {
      LogarithmicHeight(tree, steps);
      ContentsSize(InOrder(tree));
    }

    lemma Look(c: Context<D>, t: Tree<D>, height: int, key: int)
      requires Inspecting(c, t, height, key) && t.Bin?
      ensures t.cell.node in nodes && t.cell.node.key == t.cell.key && t.cell.node.data == t.cell.data
      ensures t.cell.node.leftChild == Root(t.left) && t.cell.node.rightChild == Root(t.right) && Height(t) > 0
    {
      Site(c, t);
    }

    /** What a search knows that has met the key or a missing child. */
    lemma Report(c: Context<D>, t: Tree<D>, height: int, key: int)
      requires Valid() && Inspecting(c, t, height, key)
      ensures t.Nil? ==> key !in Content()
      ensures t.Bin? && t.cell.key == key ==> key in Content() && Content()[key] == t.cell
    {
      SearchEnd(c, t, key);
    }

    method HasKey(queryKey: int) returns (found: bool, ghost steps: nat)
      requires Valid()
      ensures found <==> queryKey in Content()
      ensures Pow2(steps) <= (|Content()| + 1) * (|Content()| + 1)
    {
      hide Valid, Inspecting, Content, Pow2, Height;
      var currentNode := root;
      steps := 0;
      ghost var h := Start(queryKey);
      ghost var c, t := Top, tree;
      while currentNode != null
        invariant Inspecting(c, t, h, queryKey) && currentNode == Root(t)
        invariant steps + Height(t) <= Height(tree)
        decreases t
      {
        Look(c, t, h, queryKey);
        steps := steps + 1;
        if queryKey == currentNode.key {
          Report(c, t, h, queryKey);
          Within(steps);
          return true, steps;
        } else if queryKey < currentNode.key {
          StepLeft(c, t, h, queryKey);
          currentNode := currentNode.leftChild;
          c, t, h := Frame(Left, t.color, t.cell, t.right, c), t.left, h - Weight(t.color);
        } else {
          StepRight(c, t, h, queryKey);
          currentNode := currentNode.rightChild;
          c, t, h := Frame(Right, t.color, t.cell, t.left, c), t.right, h - Weight(t.color);
        }
      }
      Report(c, t, h, queryKey);
      Within(steps);
      return false, steps;
    }

    /** `None` stands for the null reference that the original returns for a missing key. */
    method GetData(key: int) returns (data: Option<D>, ghost steps: nat)
      requires Valid()
      ensures data == if key in Content() then Some(Content()[key].data) else None
      ensures Pow2(steps) <= (|Content()| + 1) * (|Content()| + 1)
    {
      hide Valid, Inspecting, Content, Pow2, Height;
      var currentNode := root;
      steps := 0;
      ghost var h := Start(key);
      ghost var c, t := Top, tree;
      while currentNode != null
        invariant Inspecting(c, t, h, key) && currentNode == Root(t)
        invariant steps + Height(t) <= Height(tree)
        decreases t
      {
        Look(c, t, h, key);
        steps := steps + 1;
        if key == currentNode.key {
          Report(c, t, h, key);
          Within(steps);
          return Some(currentNode.data), steps;
        } else if key < currentNode.key {
          StepLeft(c, t, h, key);
          currentNode := currentNode.leftChild;
          c, t, h := Frame(Left, t.color, t.cell, t.right, c), t.left, h - Weight(t.color);
        } else {
          StepRight(c, t, h, key);
          currentNode := currentNode.rightChild;
          c, t, h := Frame(Right, t.color, t.cell, t.left, c), t.right, h - Weight(t.color);
        }
      }
      Report(c, t, h, key);
      Within(steps);
      return None, steps;
    }

    // ----- setData -----

    method AllocNode(key: int, data: D) returns (node: Node<D>)
      modifies `nodes
      ensures fresh(node) && nodes == old(nodes) + {node}
      ensures node.key == key && node.data == data && node.color == Red
      ensures node.father == null && node.leftChild == null && node.rightChild == null
    {
      node := new Node(key, data);
      nodes := nodes + {node};
    }

    /** The data of a node that is already there is overwritten. */
    method UpdateAt(node: Node<D>, key: int, data: D, ghost c: Context<D>, ghost t: Tree<D>, ghost height: int)
      requires Valid() && Inspecting(c, t, height, key) && t.Bin? && t.cell.node == node && t.cell.key == key
      modifies `tree, nodes
      ensures Valid() && Content() == old(Content())[key := Cell(node, key, data)]
    {
      ghost var h, x' := Snapshot(nodes), t.cell.(data := data);
      node.data := data;
      ghost var t' := Bin(t.left, t.color, x', t.right);
      Repainted(nodes, root, h, c, t, Snapshot(nodes), t.color, data);
      OrderSplits(c, t);
      OrderSplits(c, t');
      ContentsUpdated(Before(c) + InOrder(t.left), t.cell, x', InOrder(t.right) + After(c));
      Finish(c, t', height, Order(c, t'));
    }

    /** A new node is hung where the search ended. */
    method InsertAt(key: int, data: D, currentFather: Node?<D>, ghost c: Context<D>, ghost height: int) returns (currentNode: Node<D>)
      requires Inspecting(c, Nil, height, key) && currentFather == FatherOf(c, null)
      modifies `root, `nodes, nodes
      ensures fresh(currentNode) && nodes == old(nodes) + {currentNode}
      ensures Focused(c, Bin(Nil, if c.Top? then Black else Red, Cell(currentNode, key, data), Nil))
    {
      if c.Frame? {
        FatherSite(c, Nil);
        SideByKey(c, key);
      }
      FatherAmong(c);
      ghost var was, h := nodes, Snapshot(nodes);
      hide Sound, Order, Ascending, Contents, Linked, LinkedAround, Distinct, ContextDistinct, Nodes, ContextNodes;
      currentNode := AllocNode(key, data);
      currentNode.father := currentFather;
      currentNode.leftChild := null;
      currentNode.rightChild := null;
      if currentFather == null {
        currentNode.color := Black;
        root := currentNode;
      } else {
        currentNode.color := Red;
        if key < currentFather.key {
          currentFather.leftChild := currentNode;
        } else {
          currentFather.rightChild := currentNode;
        }
      }
      Grown(was, old(root), h, c, nodes, root, Snapshot(nodes), Cell(currentNode, key, data));
    }

    /** The result names the node object that holds the key now. */
    method SetData(key: int, data: D) returns (ghost holder: Node<D>)
      requires Valid()
      modifies this, nodes
      ensures Valid() && Content() == old(Content())[key := Cell(holder, key, data)]
      ensures key in old(Content()) ==> holder == old(Content())[key].node && nodes == old(nodes)
      ensures key !in old(Content()) ==> fresh(holder) && nodes == old(nodes) + {holder}
    {
      hide Valid, Inspecting, Content, Pow2, Height;
      var currentNode := root;
      var currentFather: Node?<D> := null;
      ghost var h := Start(key);
      ghost var c, t := Top, tree;
      while currentNode != null
        invariant Valid() && Content() == old(Content()) && nodes == old(nodes)
        invariant Inspecting(c, t, h, key) && currentNode == Root(t) && currentFather == FatherOf(c, null)
        decreases t
      {
        Look(c, t, h, key);
        if key == currentNode.key {
          Report(c, t, h, key);
          UpdateAt(currentNode, key, data, c, t, h);
          return currentNode;
        } else {
          currentFather := currentNode;
          if key < currentNode.key {
            StepLeft(c, t, h, key);
            currentNode := currentNode.leftChild;
            c, t, h := Frame(Left, t.color, t.cell, t.right, c), t.left, h - Weight(t.color);
          } else {
            StepRight(c, t, h, key);
            currentNode := currentNode.rightChild;
            c, t, h := Frame(Right, t.color, t.cell, t.left, c), t.right, h - Weight(t.color);
          }
        }
      }
      Report(c, t, h, key);
      holder := InsertNew(key, data, currentFather, c, h);
    }

    /** The second half of setData: the key is new. */
    method InsertNew(key: int, data: D, currentFather: Node?<D>, ghost c: Context<D>, ghost height: int) returns (ghost holder: Node<D>)
      requires Valid() && Inspecting(c, Nil, height, key) && currentFather == FatherOf(c, null)
      modifies this, nodes
      ensures Valid() && Content() == old(Content())[key := Cell(holder, key, data)]
      ensures fresh(holder) && nodes == old(nodes) + {holder}
    {
      hide Focus, Linked, Contents, Ascending;
      var currentNode := InsertAt(key, data, currentFather, c, height);
      ghost var x := Cell(currentNode, key, data);
      ghost var leaf := Bin(Nil, if c.Top? then Black else Red, x, Nil);
      assert Order(c, Nil) == Before(c) + After(c);
      assert InOrder(leaf) == [x];
      ContentsWith(Before(c), x, After(c));
      if currentFather == null {
        Finish(c, leaf, 1, Order(c, leaf));
      } else {
        FixContinuousRedNodeProblem(currentNode, c, leaf, 0);
      }
      return currentNode;
    }

    // ----- removeKey -----

    method FreeNode(node: Node<D>)
      requires node in nodes
      modifies `nodes
      ensures nodes == old(nodes) - {node}
    {
      nodes := nodes - {node};
    }

    /** A childless node other than the root is unhooked and its block is given back. */
    method DetachLeaf(currentNode: Node<D>, currentFather: Node<D>, ghost c: Context<D>, ghost t: Tree<D>)
      requires Focused(c, t) && t.Bin? && t.left.Nil? && t.right.Nil? && t.cell.node == currentNode
      requires c.Frame? && c.cell.node == currentFather
      modifies `nodes, nodes
      ensures Focused(c, Nil) && nodes == old(nodes) - {currentNode}
    {
      Site(c, t);
      FatherSite(c, t);
      FatherAmong(c);
      ghost var was, h := nodes, Snapshot(nodes);
      hide Linked, LinkedAround, Distinct, ContextDistinct, ContextNodes;
      if currentFather.leftChild == currentNode {
        currentFather.leftChild := null;
      } else {
        currentFather.rightChild := null;
      }
      FreeNode(currentNode);
      Shrunk(was, root, h, c, t, nodes, Snapshot(nodes));
    }

    /** The node changes places with the next one in order, at the left end of its right subtree. */
    method ReplaceRight(currentNode: Node<D>, ghost c: Context<D>, ghost t: Tree<D>, ghost h: int)
        returns (ghost c': Context<D>, ghost t': Tree<D>, ghost h': int)
      requires Focused(c, t) && Sound(c, t, h) && t.Bin? && t.cell.node == currentNode && t.right.Bin?
      modifies `root, nodes
      ensures Focused(c', t') && Sound(c', t', h') && t'.Bin? && t'.cell == t.cell
      ensures Rest(c', t') == Rest(c, t) && Size(t') < Size(t)
    {
      hide Focus, Sound, Order, Rest;
      ghost var base := Frame(Right, t.color, t.cell, t.left, c);
      ghost var s: Context<D>, r, hr := Top, t.right, h - Weight(t.color);
      Down(c, t);
      SoundBelow(c, t, h);
      Site(c, t);
      Site(base, r);
      var replacementNode := currentNode.rightChild;
      while replacementNode.leftChild != null
        invariant Focused(Append(s, base), r) && r.Bin? && r.cell.node == replacementNode
        invariant replacementNode in nodes && replacementNode.leftChild == Root(r.left)
        invariant Sound(Append(s, base), r, hr)
        invariant Plug(s, r) == t.right && Before(s) == [] && (s.Frame? ==> s.side == Left) && Size(r) <= Size(t.right)
        decreases r
      {
        Site(Append(s, base), r);
        Down(Append(s, base), r);
        SoundBelow(Append(s, base), r, hr);
        replacementNode := replacementNode.leftChild;
        s, r, hr := Frame(Left, r.color, r.cell, r.right, s), r.left, hr - Weight(r.color);
        Site(Append(s, base), r);
      }
      ghost var p := Path(c, Right, t.color, t.cell, t.left, s, r.color, r.cell, r.right);
      SwapRightAt(currentNode, replacementNode, p);
      SwapKeepsSound(p, hr);
      RestOfSwapRight(p, t.right);
      c', t', h' := p.Swapped().Above(), p.Swapped().Below(), hr;
    }

    /** The node changes places with the previous one in order, at the right end of its left subtree. */
    method ReplaceLeft(currentNode: Node<D>, ghost c: Context<D>, ghost t: Tree<D>, ghost h: int)
        returns (ghost c': Context<D>, ghost t': Tree<D>, ghost h': int)
      requires Focused(c, t) && Sound(c, t, h) && t.Bin? && t.cell.node == currentNode && t.left.Bin?
      modifies `root, nodes
      ensures Focused(c', t') && Sound(c', t', h') && t'.Bin? && t'.cell == t.cell
      ensures Rest(c', t') == Rest(c, t) && Size(t') < Size(t)
    {
      hide Focus, Sound, Order, Rest;
      ghost var base := Frame(Left, t.color, t.cell, t.right, c);
      ghost var s: Context<D>, r, hr := Top, t.left, h - Weight(t.color);
      Down(c, t);
      SoundBelow(c, t, h);
      Site(c, t);
      Site(base, r);
      var replacementNode := currentNode.leftChild;
      while replacementNode.rightChild != null
        invariant Focused(Append(s, base), r) && r.Bin? && r.cell.node == replacementNode
        invariant replacementNode in nodes && replacementNode.rightChild == Root(r.right)
        invariant Sound(Append(s, base), r, hr)
        invariant Plug(s, r) == t.left && After(s) == [] && (s.Frame? ==> s.side == Right) && Size(r) <= Size(t.left)
        decreases r
      {
        Site(Append(s, base), r);
        Down(Append(s, base), r);
        SoundBelow(Append(s, base), r, hr);
        replacementNode := replacementNode.rightChild;
        s, r, hr := Frame(Right, r.color, r.cell, r.left, s), r.right, hr - Weight(r.color);
        Site(Append(s, base), r);
      }
      ghost var p := Path(c, Left, t.color, t.cell, t.right, s, r.color, r.cell, r.left);
      SwapLeftAt(currentNode, replacementNode, p);
      SwapKeepsSound(p, hr);
      RestOfSwapLeft(p, t.left);
      c', t', h' := p.Swapped().Above(), p.Swapped().Below(), hr;
    }

    method RemoveKey(key: int)
      requires Valid()
      modifies this, nodes
      ensures Valid() && Content() == old(Content()) - {key}
      ensures nodes == old(nodes) - if key in old(Content()) then {old(Content())[key].node} else {}
    {
      hide Valid, Inspecting, Content, Pow2, Height;
      var currentNode := root;
      ghost var h := Start(key);
      ghost var c, t := Top, tree;
      while currentNode != null
        invariant Valid() && Content() == old(Content()) && nodes == old(nodes)
        invariant Inspecting(c, t, h, key) && currentNode == Root(t)
        decreases t
      {
        Look(c, t, h, key);
        if key == currentNode.key {
          break;
        } else if key < currentNode.key {
          StepLeft(c, t, h, key);
          currentNode := currentNode.leftChild;
          c, t, h := Frame(Left, t.color, t.cell, t.right, c), t.left, h - Weight(t.color);
        } else {
          StepRight(c, t, h, key);
          currentNode := currentNode.rightChild;
          c, t, h := Frame(Right, t.color, t.cell, t.left, c), t.right, h - Weight(t.color);
        }
      }
      if currentNode == null {
        Report(c, t, h, key);
        return;
      }
      RemoveFound(currentNode, key, c, t, h);
    }

    /** The second half of removeKey: the node with the key is known. */
    method RemoveFound(node: Node<D>, key: int, ghost c: Context<D>, ghost t: Tree<D>, ghost height: int)
      requires Valid() && Inspecting(c, t, height, key) && t.Bin? && t.cell.node == node && t.cell.key == key
      modifies this, nodes
      ensures Valid() && Content() == old(Content()) - {key}
      ensures key in old(Content()) && node == old(Content())[key].node && nodes == old(nodes) - {node}
    {
      hide Focus, Contents, Ascending, Rest, Order, InOrder;
      Report(c, t, height, key);
      ContentsOfRest(c, t);
      RemoveAt(node, c, t, height);
    }

    /** The node at the focus is moved down to a leaf, unhooked and freed, and the tree is repaired. */
    method RemoveAt(node: Node<D>, ghost c0: Context<D>, ghost t0: Tree<D>, ghost h0: int)
      requires Focused(c0, t0) && Sound(c0, t0, h0) && t0.Bin? && t0.cell.node == node
      modifies this, nodes
      ensures Repaired(Rest(c0, t0)) && nodes == old(nodes) - {node}
    {
      hide Focus, Order, Rest;
      var currentNode := node;
      ghost var c, t, h := c0, t0, h0;
      Site(c, t);
      while currentNode.leftChild != null || currentNode.rightChild != null
        invariant Focused(c, t) && Sound(c, t, h) && t.Bin? && t.cell.node == node && currentNode == node
        invariant currentNode in nodes && currentNode.leftChild == Root(t.left) && currentNode.rightChild == Root(t.right)
        invariant Rest(c, t) == Rest(c0, t0) && nodes == old(nodes)
        decreases Size(t)
      {
        if currentNode.rightChild != null {
          c, t, h := ReplaceRight(currentNode, c, t, h);
        } else {
          c, t, h := ReplaceLeft(currentNode, c, t, h);
        }
        Site(c, t);
      }
      RestOfLeaf(c, t);
      LeafGone(c, t, h);
      Site(c, t);
      if currentNode == root {
        OnlyLeaf(c, t);
        root := null;
        FreeNode(currentNode);
        Emptied(old(nodes), currentNode, t, nodes, Snapshot(nodes));
        Finish(Top, Nil, 0, Rest(c0, t0));
      } else if currentNode.color == Red {
        DetachLeaf(currentNode, currentNode.father, c, t);
        Finish(c, Nil, 0, Rest(c0, t0));
      } else {
        LightSibling(c, Nil, 0);
        FatherSite(c, t);
        var currentFather := currentNode.father;
        var sibling :=
          if currentFather.leftChild != currentNode then currentFather.leftChild else currentFather.rightChild;
        var siblingSideToFather := if sibling == currentFather.leftChild then Left else Right;
        DetachLeaf(currentNode, currentFather, c, t);
        FatherSite(c, Nil);
        if currentFather.color == Red {
          MendLeafBelowRed(currentFather, sibling, siblingSideToFather, c);
        } else {
          MendLeafBelowBlack(currentFather, sibling, siblingSideToFather, c);
        }
      }
    }

    lemma OnlyLeaf(c: Context<D>, t: Tree<D>)
      requires Focused(c, t) && c.Top?
      ensures Nodes(t) == nodes
    {
    }

    // ----- clear -----

    /** Every node of the subtree is freed once, children first. */
    method Cleanup(node: Node<D>, ghost t: Tree<D>, ghost father: Node?<D>)
      requires t.Bin? && t.cell.node == node && Distinct(t) && Nodes(t) <= nodes && Linked(Snapshot(Nodes(t)), t, father)
      modifies `nodes
      ensures nodes == old(nodes) - Nodes(t)
      decreases t
    {
      assert Holds(Snapshot(Nodes(t)), t.cell, t.color, father, Root(t.left), Root(t.right));
      if node.leftChild != null {
        LinkedFrame(Snapshot(Nodes(t)), Snapshot(Nodes(t.left)), t.left, node);
        Cleanup(node.leftChild, t.left, node);
      }
      if node.rightChild != null {
        LinkedFrame(Snapshot(Nodes(t)), Snapshot(Nodes(t.right)), t.right, node);
        Cleanup(node.rightChild, t.right, node);
      }
      FreeNode(node);
    }

    method Clear()
      requires Valid()
      modifies this
      ensures Valid() && Content() == map[] && nodes == {}
    {
      if root != null {
        assert nodes == Nodes(tree);
        Cleanup(root, tree, null);
        root := null;
        tree := Nil;
      }
      assert Balanced<D>(Nil, 0);
    }
  }
}
