/** The nodes of the red-black Map and, beside them, the shape of a linked tree as a value.

    A `Tree` names the node objects it is made of; a `Context` is the rest of a tree seen from a
    hole in it. `Linked` and `LinkedAround` say that the fields of the node objects spell out exactly
    that tree and that context, so every pointer operation of the Map can be stated as a change of
    one focused subtree and everything else can be proved about values. */
module TreeShape {

  datatype Color = Red | Black

  datatype Side = Left | Right

  class Node<D> {
    var key: int
    var data: D
    var color: Color
    var father: Node?<D>
    var leftChild: Node?<D>
    var rightChild: Node?<D>

    constructor (key: int, data: D)
      ensures this.key == key && this.data == data && color == Red
      ensures father == null && leftChild == null && rightChild == null
    {
      this.key, this.data, color := key, data, Red;
      father, leftChild, rightChild := null, null, null;
    }
  }

  /** A node object with the key and data it stores. */
  datatype Cell<D> = Cell(node: Node<D>, key: int, data: D)

  datatype Tree<D> =
    | Nil
    | Bin(left: Tree<D>, color: Color, cell: Cell<D>, right: Tree<D>)

  function Opposite(side: Side): Side {
    if side == Left then Right else Left
  }

  /** A path of fathers from a hole up to the root; `side` is the side on which the hole hangs. */
  datatype Context<D> =
    | Top
    | Frame(side: Side, color: Color, cell: Cell<D>, other: Tree<D>, up: Context<D>)

  // ----- Trees and contexts as values -----

  ghost function InOrder<D>(t: Tree<D>): seq<Cell<D>> {
    match t
    case Nil => []
    case Bin(l, _, x, r) => InOrder(l) + [x] + InOrder(r)
  }

  ghost function Before<D>(c: Context<D>): seq<Cell<D>> {
    match c
    case Top => []
    case Frame(side, _, x, other, up) =>
      if side == Left then Before(up) else Before(up) + InOrder(other) + [x]
  }

  ghost function After<D>(c: Context<D>): seq<Cell<D>> {
    match c
    case Top => []
    case Frame(side, _, x, other, up) =>
      if side == Left then [x] + InOrder(other) + After(up) else After(up)
  }

  ghost function Join<D>(side: Side, color: Color, x: Cell<D>, other: Tree<D>, t: Tree<D>): Tree<D> {
    if side == Left then Bin(t, color, x, other) else Bin(other, color, x, t)
  }

  ghost function Plug<D>(c: Context<D>, t: Tree<D>): Tree<D> {
    match c
    case Top => t
    case Frame(side, color, x, other, up) => Plug(up, Join(side, color, x, other, t))
  }

  /** The in-order sequence of the whole tree with `t` in the hole of `c`. */
  ghost function Order<D>(c: Context<D>, t: Tree<D>): seq<Cell<D>> {
    Before(c) + InOrder(t) + After(c)
  }

  lemma AscendOrder<D>(c: Context<D>, t: Tree<D>)
    requires c.Frame?
    ensures Order(c, t) == Order(c.up, Join(c.side, c.color, c.cell, c.other, t))
  {
    var b, o, a, x := Before(c.up), InOrder(c.other), After(c.up), [c.cell];
    if c.side == Left {
      Associate(b, InOrder(t), x, o, a);
    } else {
      Associate(b, o, x, InOrder(t), a);
    }
  }

  lemma Associate<T>(a: seq<T>, b: seq<T>, x: seq<T>, d: seq<T>, e: seq<T>)
    ensures a + b + (x + d + e) == a + (b + x + d) + e == (a + b + x) + d + e == a + b + x + (d + e)
  {
  }

  lemma {:induction false} PlugInOrder<D>(c: Context<D>, t: Tree<D>)
    ensures InOrder(Plug(c, t)) == Order(c, t)
    decreases c
  {
    match c
    case Top =>
    case Frame(side, color, x, other, up) =>
      AscendOrder(c, t);
      PlugInOrder(up, Join(side, color, x, other, t));
  }

  ghost function Nodes<D>(t: Tree<D>): set<Node<D>> {
    match t
    case Nil => {}
    case Bin(l, _, x, r) => Nodes(l) + {x.node} + Nodes(r)
  }

  ghost function ContextNodes<D>(c: Context<D>): set<Node<D>> {
    match c
    case Top => {}
    case Frame(_, _, x, other, up) => {x.node} + Nodes(other) + ContextNodes(up)
  }

  /** No node object occurs twice. */
  ghost predicate Distinct<D>(t: Tree<D>) {
    match t
    case Nil => true
    case Bin(l, _, x, r) =>
      && x.node !in Nodes(l) && x.node !in Nodes(r) && Nodes(l) !! Nodes(r)
      && Distinct(l) && Distinct(r)
  }

  ghost predicate ContextDistinct<D>(c: Context<D>) {
    match c
    case Top => true
    case Frame(_, _, x, other, up) =>
      && x.node !in Nodes(other) && x.node !in ContextNodes(up) && Nodes(other) !! ContextNodes(up)
      && Distinct(other) && ContextDistinct(up)
  }

  // ----- Trees and contexts in the heap -----

  /** The fields of one node object at one moment. */
  datatype Fields<D> =
    Fields(key: int, data: D, color: Color, father: Node?<D>, leftChild: Node?<D>, rightChild: Node?<D>)

  type Heap<D> = map<Node<D>, Fields<D>>

  ghost function FieldsOf<D>(n: Node<D>): Fields<D>
    reads n
  {
    Fields(n.key, n.data, n.color, n.father, n.leftChild, n.rightChild)
  }

  ghost function Snapshot<D>(s: set<Node<D>>): (h: Heap<D>)
    reads s
  {
    map n | n in s :: FieldsOf(n)
  }

  ghost function Root<D>(t: Tree<D>): Node?<D> {
    if t.Nil? then null else t.cell.node
  }

  ghost predicate Holds<D>(h: Heap<D>, x: Cell<D>, color: Color, father: Node?<D>, left: Node?<D>, right: Node?<D>) {
    x.node in h && h[x.node] == Fields(x.key, x.data, color, father, left, right)
  }

  /** The fields in `h` spell out the tree `t`, hanging below `father`. */
  ghost predicate Linked<D>(h: Heap<D>, t: Tree<D>, father: Node?<D>) {
    match t
    case Nil => true
    case Bin(l, color, x, r) =>
      && Holds(h, x, color, father, Root(l), Root(r))
      && Linked(h, l, x.node) && Linked(h, r, x.node)
  }

  /** The father of the hole; `top` is the father of the outermost frame. */
  ghost function FatherOf<D>(c: Context<D>, top: Node?<D>): Node?<D> {
    if c.Top? then top else c.cell.node
  }

  /** The node at the root of the whole tree when `hole` hangs in the hole. */
  ghost function Outermost<D>(c: Context<D>, hole: Node?<D>): Node?<D> {
    match c
    case Top => hole
    case Frame(_, _, x, _, up) => Outermost(up, x.node)
  }

  lemma {:induction false} OutermostAmong<D>(c: Context<D>, hole: Node?<D>)
    ensures c.Frame? ==> Outermost(c, hole) in ContextNodes(c)
  {
    if c.Frame? {
      OutermostAmong(c.up, c.cell.node);
    }
  }

  /** The fields in `h` spell out the context `c` below `top`, with `hole` hanging in the hole. */
  ghost predicate LinkedAround<D>(h: Heap<D>, c: Context<D>, top: Node?<D>, hole: Node?<D>) {
    match c
    case Top => true
    case Frame(side, color, x, other, up) =>
      && Holds(h, x, color, FatherOf(up, top),
               if side == Left then hole else Root(other), if side == Left then Root(other) else hole)
      && Linked(h, other, x.node)
      && LinkedAround(h, up, top, x.node)
  }

  lemma {:induction false} PlugLinked<D>(h: Heap<D>, c: Context<D>, t: Tree<D>)
    requires Distinct(t) && ContextDistinct(c) && Nodes(t) !! ContextNodes(c)
    ensures Distinct(Plug(c, t)) && Nodes(Plug(c, t)) == Nodes(t) + ContextNodes(c)
    ensures Root(Plug(c, t)) == Outermost(c, Root(t))
    ensures Linked(h, t, FatherOf(c, null)) && LinkedAround(h, c, null, Root(t)) ==> Linked(h, Plug(c, t), null)
    decreases c
  {
    match c
    case Top =>
    case Frame(side, color, x, other, up) =>
      PlugLinked(h, up, Join(side, color, x, other, t));
  }

  // ----- What a pointer operation leaves in place -----

  /** The nodes in `s` have the same fields in both heaps. */
  ghost predicate Same<D>(h: Heap<D>, h': Heap<D>, s: set<Node<D>>) {
    forall n :: n in s && n in h ==> n in h' && h'[n] == h[n]
  }

  lemma {:induction false} LinkedFrame<D>(h: Heap<D>, h': Heap<D>, t: Tree<D>, father: Node?<D>)
    requires Linked(h, t, father) && Same(h, h', Nodes(t))
    ensures Linked(h', t, father)
  {
    if t.Bin? {
      LinkedFrame(h, h', t.left, t.cell.node);
      LinkedFrame(h, h', t.right, t.cell.node);
    }
  }

  lemma {:induction false} AroundFrame<D>(h: Heap<D>, h': Heap<D>, c: Context<D>, top: Node?<D>, hole: Node?<D>)
    requires LinkedAround(h, c, top, hole) && Same(h, h', ContextNodes(c))
    ensures LinkedAround(h', c, top, hole)
  {
    if c.Frame? {
      LinkedFrame(h, h', c.other, c.cell.node);
      AroundFrame(h, h', c.up, top, c.cell.node);
    }
  }

  /** Only the father of the root of `t` has changed. */
  lemma Refathered<D>(h: Heap<D>, h': Heap<D>, t: Tree<D>, father: Node?<D>, father': Node?<D>)
    requires Linked(h, t, father) && Distinct(t)
    requires t.Bin? ==> Holds(h', t.cell, t.color, father', Root(t.left), Root(t.right))
    requires Same(h, h', Nodes(t) - {Root(t)})
    ensures Linked(h', t, father')
  {
    if t.Bin? {
      LinkedFrame(h, h', t.left, t.cell.node);
      LinkedFrame(h, h', t.right, t.cell.node);
    }
  }

  /** The innermost father of the hole has `hole` hanging on the right side. */
  ghost predicate HoleHolds<D>(h: Heap<D>, c: Context<D>, top: Node?<D>, hole: Node?<D>) {
    c.Frame? ==>
      Holds(h, c.cell, c.color, FatherOf(c.up, top),
            if c.side == Left then hole else Root(c.other), if c.side == Left then Root(c.other) else hole)
  }

  /** Only the child link to the hole has changed. */
  lemma Rehung<D>(h: Heap<D>, h': Heap<D>, c: Context<D>, top: Node?<D>, hole: Node?<D>, hole': Node?<D>)
    requires LinkedAround(h, c, top, hole) && ContextDistinct(c)
    requires HoleHolds(h', c, top, hole')
    requires Same(h, h', ContextNodes(c) - {FatherOf(c, null)})
    ensures LinkedAround(h', c, top, hole')
  {
    if c.Frame? {
      LinkedFrame(h, h', c.other, c.cell.node);
      AroundFrame(h, h', c.up, top, c.cell.node);
    }
  }

  // ----- One focused subtree in a whole tree -----

  /** `nodes` are the nodes of one tree with root `root`, linked as `t` in the hole of `c`. */
  ghost predicate Focus<D>(nodes: set<Node<D>>, root: Node?<D>, h: Heap<D>, c: Context<D>, t: Tree<D>) {
    && Nodes(t) + ContextNodes(c) == nodes
    && Distinct(t) && ContextDistinct(c) && Nodes(t) !! ContextNodes(c)
    && root == Outermost(c, Root(t))
    && Linked(h, t, FatherOf(c, null)) && LinkedAround(h, c, null, Root(t))
  }

  lemma Descend<D>(nodes: set<Node<D>>, root: Node?<D>, h: Heap<D>, c: Context<D>, t: Tree<D>)
    requires Focus(nodes, root, h, c, t) && t.Bin?
    ensures Focus(nodes, root, h, Frame(Left, t.color, t.cell, t.right, c), t.left)
    ensures Focus(nodes, root, h, Frame(Right, t.color, t.cell, t.left, c), t.right)
  {
  }

  lemma Ascend<D>(nodes: set<Node<D>>, root: Node?<D>, h: Heap<D>, c: Context<D>, t: Tree<D>)
    requires Focus(nodes, root, h, c, t) && c.Frame?
    ensures Focus(nodes, root, h, c.up, Join(c.side, c.color, c.cell, c.other, t))
  {
  }

  lemma Whole<D>(nodes: set<Node<D>>, root: Node?<D>, h: Heap<D>, c: Context<D>, t: Tree<D>)
    requires Focus(nodes, root, h, c, t)
    ensures Focus(nodes, root, h, Top, Plug(c, t))
  {
    PlugLinked(h, c, t);
  }

  /** The focused subtree has been replaced by `t'`. */
  lemma Replaced<D>(nodes: set<Node<D>>, root: Node?<D>, h: Heap<D>, c: Context<D>, t: Tree<D>,
                    nodes': set<Node<D>>, root': Node?<D>, h': Heap<D>, t': Tree<D>)
    requires Focus(nodes, root, h, c, t)
    requires Linked(h', t', FatherOf(c, null)) && Distinct(t') && Nodes(t') !! ContextNodes(c)
    requires nodes' == Nodes(t') + ContextNodes(c)
    requires root' == if c.Top? then Root(t') else root
    requires HoleHolds(h', c, null, Root(t')) && Same(h, h', ContextNodes(c) - {FatherOf(c, null)})
    ensures Focus(nodes', root', h', c, t')
  {
    Rehung(h, h', c, null, Root(t), Root(t'));
  }

  /** The node objects a left rotation meets and what they hold. */
  lemma LeftSites<D>(nodes: set<Node<D>>, root: Node?<D>, h: Heap<D>, c: Context<D>, t: Tree<D>)
    requires Focus(nodes, root, h, c, t) && t.Bin? && t.right.Bin?
    ensures HoleHolds(h, c, null, t.cell.node)
    ensures Holds(h, t.cell, t.color, FatherOf(c, null), Root(t.left), Root(t.right))
    ensures Holds(h, t.right.cell, t.right.color, t.cell.node, Root(t.right.left), Root(t.right.right))
    ensures var b := t.right.left;
      b.Bin? ==> Holds(h, b.cell, b.color, t.right.cell.node, Root(b.left), Root(b.right)) && b.cell.node in nodes
    ensures t.cell.node in nodes && t.right.cell.node in nodes && t.cell.node != t.right.cell.node
    ensures FatherOf(c, null) !in {t.cell.node, t.right.cell.node}
    ensures c.Frame? ==> c.cell.node in nodes && Root(c.other) != t.cell.node
    ensures t.right.left.Bin? ==> t.right.left.cell.node !in {t.cell.node, t.right.cell.node, FatherOf(c, null)}
  {
    Descend(nodes, root, h, c, t);
    var c1 := Frame(Right, t.color, t.cell, t.left, c);
    Descend(nodes, root, h, c1, t.right);
  }

  lemma RightSites<D>(nodes: set<Node<D>>, root: Node?<D>, h: Heap<D>, c: Context<D>, t: Tree<D>)
    requires Focus(nodes, root, h, c, t) && t.Bin? && t.left.Bin?
    ensures HoleHolds(h, c, null, t.cell.node)
    ensures Holds(h, t.cell, t.color, FatherOf(c, null), Root(t.left), Root(t.right))
    ensures Holds(h, t.left.cell, t.left.color, t.cell.node, Root(t.left.left), Root(t.left.right))
    ensures var b := t.left.right;
      b.Bin? ==> Holds(h, b.cell, b.color, t.left.cell.node, Root(b.left), Root(b.right)) && b.cell.node in nodes
    ensures t.cell.node in nodes && t.left.cell.node in nodes && t.cell.node != t.left.cell.node
    ensures FatherOf(c, null) !in {t.cell.node, t.left.cell.node}
    ensures c.Frame? ==> c.cell.node in nodes && Root(c.other) != t.cell.node
    ensures t.left.right.Bin? ==> t.left.right.cell.node !in {t.cell.node, t.left.cell.node, FatherOf(c, null)}
  {
    Descend(nodes, root, h, c, t);
    var c1 := Frame(Left, t.color, t.cell, t.right, c);
    Descend(nodes, root, h, c1, t.left);
  }

  ghost function RotatedLeft<D>(t: Tree<D>): Tree<D>
    requires t.Bin? && t.right.Bin?
  {
    Bin(Bin(t.left, t.color, t.cell, t.right.left), t.right.color, t.right.cell, t.right.right)
  }

  ghost function RotatedRight<D>(t: Tree<D>): Tree<D>
    requires t.Bin? && t.left.Bin?
  {
    Bin(t.left.left, t.left.color, t.left.cell, Bin(t.left.right, t.color, t.cell, t.right))
  }

  /** A rotation keeps the in-order sequence and the node objects. */
  lemma RotatedLeftKeeps<D>(t: Tree<D>)
    requires t.Bin? && t.right.Bin?
    ensures InOrder(RotatedLeft(t)) == InOrder(t) && Nodes(RotatedLeft(t)) == Nodes(t)
    ensures Distinct(t) ==> Distinct(RotatedLeft(t))
  {
    var Bin(a, cx, x, Bin(b, cy, y, d)) := t;
    assert InOrder(t) == InOrder(a) + [x] + (InOrder(b) + [y] + InOrder(d));
    Associate(InOrder(a), [x], InOrder(b), [y], InOrder(d));
    assert Nodes(Bin(a, cx, x, b)) == Nodes(a) + {x.node} + Nodes(b);
    assert Distinct(t) ==> Distinct(t.right) && Distinct(Bin(a, cx, x, b));
  }

  lemma RotatedRightKeeps<D>(t: Tree<D>)
    requires t.Bin? && t.left.Bin?
    ensures InOrder(RotatedRight(t)) == InOrder(t) && Nodes(RotatedRight(t)) == Nodes(t)
    ensures Distinct(t) ==> Distinct(RotatedRight(t))
  {
    var Bin(Bin(a, cx, x, b), cy, y, d) := t;
    assert InOrder(t) == (InOrder(a) + [x] + InOrder(b)) + [y] + InOrder(d);
    Associate(InOrder(a), [x], InOrder(b), [y], InOrder(d));
    assert Nodes(Bin(b, cy, y, d)) == Nodes(b) + {y.node} + Nodes(d);
    assert Distinct(t) ==> Distinct(t.left) && Distinct(Bin(b, cy, y, d));
  }

  /** What a rotation to the left writes is exactly what turns `t` into `RotatedLeft(t)`. */
  lemma LeftRotation<D>(nodes: set<Node<D>>, root: Node?<D>, h: Heap<D>, c: Context<D>, t: Tree<D>,
                        root': Node?<D>, h': Heap<D>)
    requires Focus(nodes, root, h, c, t) && t.Bin? && t.right.Bin?
    requires root' == if c.Top? then t.right.cell.node else root
    requires Holds(h', t.cell, t.color, t.right.cell.node, Root(t.left), Root(t.right.left))
    requires Holds(h', t.right.cell, t.right.color, FatherOf(c, null), t.cell.node, Root(t.right.right))
    requires var b := t.right.left; b.Bin? ==> Holds(h', b.cell, b.color, t.cell.node, Root(b.left), Root(b.right))
    requires HoleHolds(h', c, null, t.right.cell.node)
    requires Same(h, h', nodes - {t.cell.node, t.right.cell.node, Root(t.right.left), FatherOf(c, null)})
    ensures Focus(nodes, root', h', c, RotatedLeft(t))
  {
    var Bin(a, cx, x, r) := t;
    var Bin(b, cy, y, d) := r;
    assert Linked(h', RotatedLeft(t), FatherOf(c, null)) by {
      assert Linked(h, r, x.node) && Distinct(r);
      Refathered(h, h', b, y.node, x.node);
      LinkedFrame(h, h', a, x.node);
      LinkedFrame(h, h', d, y.node);
      assert Linked(h', Bin(a, cx, x, b), y.node);
    }
    RotatedLeftKeeps(t);
    Replaced(nodes, root, h, c, t, nodes, root', h', RotatedLeft(t));
  }

  /** The mirror image of `LeftRotation`. */
  lemma RightRotation<D>(nodes: set<Node<D>>, root: Node?<D>, h: Heap<D>, c: Context<D>, t: Tree<D>,
                         root': Node?<D>, h': Heap<D>)
    requires Focus(nodes, root, h, c, t) && t.Bin? && t.left.Bin?
    requires root' == if c.Top? then t.left.cell.node else root
    requires Holds(h', t.cell, t.color, t.left.cell.node, Root(t.left.right), Root(t.right))
    requires Holds(h', t.left.cell, t.left.color, FatherOf(c, null), Root(t.left.left), t.cell.node)
    requires var b := t.left.right; b.Bin? ==> Holds(h', b.cell, b.color, t.cell.node, Root(b.left), Root(b.right))
    requires HoleHolds(h', c, null, t.left.cell.node)
    requires Same(h, h', nodes - {t.cell.node, t.left.cell.node, Root(t.left.right), FatherOf(c, null)})
    ensures Focus(nodes, root', h', c, RotatedRight(t))
  {
    var Bin(l, cx, x, a) := t;
    var Bin(d, cy, y, b) := l;
    assert Linked(h', RotatedRight(t), FatherOf(c, null)) by {
      assert Linked(h, l, x.node) && Distinct(l);
      Refathered(h, h', b, y.node, x.node);
      LinkedFrame(h, h', a, x.node);
      LinkedFrame(h, h', d, y.node);
      assert Linked(h', Bin(b, cx, x, a), y.node);
    }
    RotatedRightKeeps(t);
    Replaced(nodes, root, h, c, t, nodes, root', h', RotatedRight(t));
  }

  /** Only the fields of the root of `t` that do not link it have changed. */
  lemma Repainted<D>(nodes: set<Node<D>>, root: Node?<D>, h: Heap<D>, c: Context<D>, t: Tree<D>,
                     h': Heap<D>, color: Color, data: D)
    requires Focus(nodes, root, h, c, t) && t.Bin?
    requires Same(h, h', nodes - {t.cell.node})
    requires t.cell.node in h && t.cell.node in h'
    requires h'[t.cell.node] == h[t.cell.node].(color := color, data := data)
    ensures Focus(nodes, root, h', c, Bin(t.left, color, t.cell.(data := data), t.right))
  {
    LinkedFrame(h, h', t.left, t.cell.node);
    LinkedFrame(h, h', t.right, t.cell.node);
    AroundFrame(h, h', c, null, t.cell.node);
  }

  // ----- A context on top of another -----

  /** The frames of `s` below those of `base`. */
  ghost function Append<D>(s: Context<D>, base: Context<D>): Context<D> {
    match s
    case Top => base
    case Frame(side, color, x, other, up) => Frame(side, color, x, other, Append(up, base))
  }

  lemma {:induction false} AppendSplits<D>(h: Heap<D>, s: Context<D>, base: Context<D>, hole: Node?<D>)
    ensures Before(Append(s, base)) == Before(base) + Before(s)
    ensures After(Append(s, base)) == After(s) + After(base)
    ensures ContextNodes(Append(s, base)) == ContextNodes(s) + ContextNodes(base)
    ensures ContextDistinct(Append(s, base)) <==>
      ContextDistinct(s) && ContextDistinct(base) && ContextNodes(s) !! ContextNodes(base)
    ensures FatherOf(Append(s, base), null) == FatherOf(s, FatherOf(base, null))
    ensures Outermost(Append(s, base), hole) == Outermost(base, Outermost(s, hole))
    ensures LinkedAround(h, Append(s, base), null, hole) <==>
      LinkedAround(h, s, FatherOf(base, null), hole) && LinkedAround(h, base, null, Outermost(s, hole))
  {
    if s.Frame? {
      AppendSplits(h, s.up, base, s.cell.node);
    }
  }

  /** Only the father of the outermost frame of `s` has changed. */
  lemma {:induction false} Retopped<D>(h: Heap<D>, h': Heap<D>, s: Context<D>, top: Node?<D>, top': Node?<D>, hole: Node?<D>)
    requires LinkedAround(h, s, top, hole) && ContextDistinct(s) && s.Frame?
    requires Outermost(s, null) in h && Outermost(s, null) in h'
    requires h'[Outermost(s, null)] == h[Outermost(s, null)].(father := top')
    requires Same(h, h', ContextNodes(s) - {Outermost(s, null)})
    ensures LinkedAround(h', s, top', hole)
  {
    OutermostAmong(s.up, s.cell.node);
    LinkedFrame(h, h', s.other, s.cell.node);
    if s.up.Frame? {
      assert s.cell.node != Outermost(s.up, s.cell.node);
      Retopped(h, h', s.up, top, top', s.cell.node);
    }
  }

  /** A node with `child` on the side `side`. */
  ghost predicate HoldsOn<D>(h: Heap<D>, x: Cell<D>, color: Color, father: Node?<D>, side: Side, child: Node?<D>, other: Node?<D>) {
    Holds(h, x, color, father, if side == Left then child else other, if side == Left then other else child)
  }

  /** The links of `s` with another father on top and another node in the hole. */
  lemma SegmentMoved<D>(h: Heap<D>, h': Heap<D>, s: Context<D>, top: Node?<D>, top': Node?<D>, hole: Node?<D>, hole': Node?<D>)
    requires LinkedAround(h, s, top, hole) && ContextDistinct(s) && s.Frame?
    requires var o := Outermost(s, null);
      && o in h && o in h'
      && (o != s.cell.node ==> h'[o] == h[o].(father := top'))
      && HoleHolds(h', s, top', hole')
      && Same(h, h', ContextNodes(s) - {o, s.cell.node})
    ensures LinkedAround(h', s, top', hole')
  {
    OutermostAmong(s, null);
    var o := Outermost(s, null);
    var h1 := h[o := h[o].(father := top')];
    Retopped(h, h1, s, top, top', hole);
    Rehung(h1, h', s, top', hole, hole');
  }

  lemma RootAmong<D>(t: Tree<D>)
    ensures t.Bin? ==> Root(t) in Nodes(t)
  {
  }

  /** The outermost frame hangs below `top`. */
  lemma {:induction false} TopHolds<D>(h: Heap<D>, c: Context<D>, top: Node?<D>, hole: Node?<D>)
    requires LinkedAround(h, c, top, hole) && c.Frame?
    ensures Outermost(c, hole) in h && h[Outermost(c, hole)].father == top
  {
    if c.up.Frame? {
      TopHolds(h, c.up, top, c.cell.node);
    }
  }

  lemma NothingAround<D>(h: Heap<D>, top: Node?<D>, hole: Node?<D>)
    ensures LinkedAround(h, Top, top, hole)
  {
  }

  lemma FatherAmong<D>(c: Context<D>)
    ensures c.Frame? ==> FatherOf(c, null) in ContextNodes(c)
  {
  }

  ghost function ChildOn<D>(f: Fields<D>, side: Side): Node?<D> {
    if side == Left then f.leftChild else f.rightChild
  }

  ghost function WithChild<D>(f: Fields<D>, side: Side, child: Node?<D>): Fields<D> {
    if side == Left then f.(leftChild := child) else f.(rightChild := child)
  }

  /** The child link to `node` leads to `other` now. */
  ghost predicate Rebound<D>(f: Fields<D>, f': Fields<D>, node: Node<D>, other: Node<D>) {
    f' == if f.leftChild == node then f.(leftChild := other) else f.(rightChild := other)
  }

  /** The writes of a swap of `cur` and `rep` outside their own links. */
  ghost predicate SurroundingsWritten<D>(h: Heap<D>, h': Heap<D>, cur: Node<D>, rep: Node<D>,
                                         cf: Node?<D>, cl: Node?<D>, rr: Node?<D>) {
    && cur in h && rep in h && cur in h' && rep in h'
    && h'[cur] == h[cur].(color := h[rep].color) && h'[rep] == h[rep].(color := h[cur].color)
    && (cf != null ==> cf in h && cf in h' && Rebound(h[cf], h'[cf], cur, rep))
    && (cl != null ==> cl in h && cl in h' && h'[cl] == h[cl].(father := rep))
    && (rr != null ==> rr in h && rr in h' && h'[rr] == h[rr].(father := cur))
    && Same(h, h', h.Keys - {cur, rep, cf, cl, rr})
  }

  /** The writes of a swap to the links of `cur` and `rep` and of the nodes between them. */
  ghost predicate LinksWritten<D>(h: Heap<D>, h': Heap<D>, cur: Node<D>, rep: Node<D>, side: Side,
                                  cl: Node?<D>, cr: Node<D>, cf: Node?<D>, rr: Node?<D>, rf: Node<D>) {
    && cur in h && rep in h && cur in h' && rep in h' && cr in h && rf in h && cr in h' && rf in h'
    && h'[cur] == WithChild(WithChild(h[cur].(father := if cr == rep then rep else rf), Opposite(side), null), side, rr)
    && h'[rep] == WithChild(WithChild(h[rep].(father := cf), Opposite(side), cl), side, if cr == rep then cur else cr)
    && (cr != rep ==>
          if cr == rf then h'[cr] == WithChild(h[cr].(father := rep), Opposite(side), cur)
          else h'[cr] == h[cr].(father := rep) && h'[rf] == WithChild(h[rf], Opposite(side), cur))
    && Same(h, h', h.Keys - {cur, rep, cr, rf})
  }

  /** The field writes of a swap of `cur` and `rep`, the next node on the side `side` of `cur`. */
  ghost predicate SwapWrites<D>(h: Heap<D>, h': Heap<D>, cur: Node<D>, rep: Node<D>, side: Side)
    requires cur in h && rep in h
  {
    var cf, cl, cr := h[cur].father, ChildOn(h[cur], Opposite(side)), ChildOn(h[cur], side);
    var rf, rr := h[rep].father, ChildOn(h[rep], side);
    && cur in h' && rep in h'
    && h'[cur] == WithChild(WithChild(h[cur].(color := h[rep].color, father := if cr == rep then rep else rf),
                                      Opposite(side), null), side, rr)
    && h'[rep] == WithChild(WithChild(h[rep].(color := h[cur].color, father := cf),
                                      Opposite(side), cl), side, if cr == rep then cur else cr)
    && (cf != null ==>
          && cf in h && cf in h'
          && Rebound(h[cf], h'[cf], cur, rep))
    && (cl != null ==> cl in h && cl in h' && h'[cl] == h[cl].(father := rep))
    && (rr != null ==> rr in h && rr in h' && h'[rr] == h[rr].(father := cur))
    && (cr != rep ==>
          && cr in h && rf in h && cr in h' && rf in h'
          && (if cr == rf then h'[cr] == WithChild(h[cr].(father := rep), Opposite(side), cur)
              else h'[cr] == h[cr].(father := rep) && h'[rf] == WithChild(h[rf], Opposite(side), cur)))
    && Same(h, h', h.Keys - {cur, rep, cf, cl, cr, rr, rf})
  }

  lemma SwapInTwoSteps<D>(h: Heap<D>, h1: Heap<D>, h': Heap<D>, cur: Node<D>, rep: Node<D>, side: Side,
                          cl: Node?<D>, cr: Node<D>, cf: Node?<D>, rr: Node?<D>, rf: Node<D>)
    requires SurroundingsWritten(h, h1, cur, rep, cf, cl, rr)
    requires LinksWritten(h1, h', cur, rep, side, cl, cr, cf, rr, rf)
    requires cf == h[cur].father && cl == ChildOn(h[cur], Opposite(side)) && cr == ChildOn(h[cur], side)
    requires rf == h[rep].father && rr == ChildOn(h[rep], side)
    requires cur != rep && (rf == cur <==> cr == rep) && h.Keys == h1.Keys == h'.Keys
    requires cf !in {cur, rep, cr, rf} && cl !in {cur, rep, cr, rf} && rr !in {cur, rep, cr, rf}
    requires cr != rep ==> cr !in {cur, cf, cl, rr} && rf !in {rep, cf, cl, rr}
    ensures SwapWrites(h, h', cur, rep, side)
  {
  }

  /** A path from the cell `x` below `c` down to the cell `y`, whose only child is `d`. */
  datatype Path<D> = Path(c: Context<D>, side: Side, cx: Color, x: Cell<D>, l: Tree<D>,
                          s: Context<D>, cy: Color, y: Cell<D>, d: Tree<D>)
  {
    ghost function Above(): Context<D> {
      Append(s, Frame(side, cx, x, l, c))
    }

    ghost function Below(): Tree<D> {
      Join(side, cy, y, Nil, d)
    }

    /** The same path with `x` and `y` in each other's place; colours stay in place. */
    ghost function Swapped(): Path<D> {
      this.(x := y, y := x)
    }

    ghost predicate Apart(nodes: set<Node<D>>) {
      && Distinct(l) && Distinct(d) && ContextDistinct(c) && ContextDistinct(s)
      && x.node != y.node
      && {x.node, y.node} !! Nodes(l) && {x.node, y.node} !! Nodes(d)
      && {x.node, y.node} !! ContextNodes(c) && {x.node, y.node} !! ContextNodes(s)
      && Nodes(l) !! Nodes(d) && Nodes(l) !! ContextNodes(c) && Nodes(l) !! ContextNodes(s)
      && Nodes(d) !! ContextNodes(c) && Nodes(d) !! ContextNodes(s) && ContextNodes(c) !! ContextNodes(s)
      && nodes == {x.node, y.node} + Nodes(l) + Nodes(d) + ContextNodes(c) + ContextNodes(s)
    }

    /** The links along the path. */
    ghost predicate Laid(h: Heap<D>) {
      && LinkedAround(h, c, null, x.node) && Linked(h, l, x.node) && Linked(h, d, y.node)
      && LinkedAround(h, s, x.node, y.node)
      && HoldsOn(h, x, cx, FatherOf(c, null), side, Outermost(s, y.node), Root(l))
      && HoldsOn(h, y, cy, FatherOf(s, x.node), side, Root(d), null)
    }

    lemma FocusPath(nodes: set<Node<D>>, root: Node?<D>, h: Heap<D>)
      requires Focus(nodes, root, h, Above(), Below())
      ensures Apart(nodes) && Laid(h) && root == Outermost(c, x.node)
    {
      AppendSplits(h, s, Frame(side, cx, x, l, c), y.node);
      BelowLinked(h);
      BaseLinked(h);
      hide Linked, LinkedAround, Distinct, ContextDistinct, Nodes, ContextNodes;
    }

    lemma PathFocus(nodes: set<Node<D>>, root: Node?<D>, h: Heap<D>)
      requires Apart(nodes) && Laid(h) && root == Outermost(c, x.node)
      ensures Focus(nodes, root, h, Above(), Below())
    {
      AppendSplits(h, s, Frame(side, cx, x, l, c), y.node);
      BelowLinked(h);
      BaseLinked(h);
      hide Linked, LinkedAround, Distinct, ContextDistinct, Nodes, ContextNodes;
    }

    lemma BaseLinked(h: Heap<D>)
      ensures var base := Frame(side, cx, x, l, c);
        && ContextNodes(base) == {x.node} + Nodes(l) + ContextNodes(c)
        && (ContextDistinct(base) <==>
              x.node !in Nodes(l) && x.node !in ContextNodes(c) && Nodes(l) !! ContextNodes(c)
              && Distinct(l) && ContextDistinct(c))
        && (LinkedAround(h, base, null, Outermost(s, y.node)) <==>
              && HoldsOn(h, x, cx, FatherOf(c, null), side, Outermost(s, y.node), Root(l))
              && Linked(h, l, x.node) && LinkedAround(h, c, null, x.node))
    {
    }

    lemma BelowLinked(h: Heap<D>)
      ensures Nodes(Below()) == Nodes(d) + {y.node}
      ensures Distinct(Below()) <==> Distinct(d) && y.node !in Nodes(d)
      ensures Linked(h, Below(), FatherOf(s, x.node)) <==>
        Linked(h, d, y.node) && HoldsOn(h, y, cy, FatherOf(s, x.node), side, Root(d), null)
    {
    }

    /** The node objects that a swap of `x` and `y` meets. */
    ghost function Met(): set<Node?<D>> {
      {x.node, y.node, FatherOf(c, null), Root(l), Root(d), FatherOf(s, null), Outermost(s, null)}
    }

    lemma Sites(nodes: set<Node<D>>, h: Heap<D>)
      requires Apart(nodes) && Laid(h)
      ensures x.node in nodes && y.node in nodes && x.node != y.node
      ensures HoleHolds(h, c, null, x.node) && (c.Frame? ==> c.cell.node in nodes && Root(c.other) != x.node)
      ensures FatherOf(c, null) !in {x.node, y.node} && Root(l) !in {x.node, y.node} && Root(d) !in {x.node, y.node}
      ensures c.Frame? ==> c.cell.node !in {Root(l), Root(d), FatherOf(s, null), Outermost(s, null)}
      ensures l.Bin? ==> Holds(h, l.cell, l.color, x.node, Root(l.left), Root(l.right)) && l.cell.node in nodes
      ensures l.Bin? ==> Root(l) !in {Root(d), FatherOf(s, null), Outermost(s, null)}
      ensures d.Bin? ==> Holds(h, d.cell, d.color, y.node, Root(d.left), Root(d.right)) && d.cell.node in nodes
      ensures d.Bin? ==> Root(d) !in {FatherOf(s, null), Outermost(s, null)}
      ensures s.Frame? ==>
        && HoleHolds(h, s, x.node, y.node) && s.cell.node in nodes && s.cell.node !in {x.node, y.node}
        && Outermost(s, null) in nodes && Outermost(s, null) !in {x.node, y.node}
        && Outermost(s, null) in h && h[Outermost(s, null)].father == x.node
      ensures s.Frame? ==> Outermost(s, y.node) == Outermost(s, null) == Outermost(s, x.node)
    {
      hide Distinct, ContextDistinct;
      RootAmong(l);
      RootAmong(d);
      FatherAmong(c);
      FatherAmong(s);
      OutermostAmong(s, y.node);
      if s.Frame? {
        TopHolds(h, s, x.node, y.node);
      }
    }

    /** What a swap of `x` and `y` writes. */
    ghost predicate Rewritten(nodes: set<Node<D>>, h: Heap<D>, h': Heap<D>) {
      && HoleHolds(h', c, null, y.node)
      && (l.Bin? ==> Holds(h', l.cell, l.color, y.node, Root(l.left), Root(l.right)))
      && (d.Bin? ==> Holds(h', d.cell, d.color, x.node, Root(d.left), Root(d.right)))
      && HoldsOn(h', y, cx, FatherOf(c, null), side, Outermost(s, x.node), Root(l))
      && HoldsOn(h', x, cy, FatherOf(s, y.node), side, Root(d), null)
      && (s.Frame? ==>
        var o := Outermost(s, null);
        && o in h && o in h' && (o != s.cell.node ==> h'[o] == h[o].(father := y.node))
        && HoleHolds(h', s, y.node, x.node))
      && Same(h, h', nodes - Met())
    }

    lemma WritesSuffice(nodes: set<Node<D>>, h: Heap<D>, h': Heap<D>)
      requires Apart(nodes) && Laid(h) && h.Keys == nodes && (s.Frame? ==> s.side == Opposite(side))
      requires SwapWrites(h, h', x.node, y.node, side)
      ensures Rewritten(nodes, h, h')
    {
      Sites(nodes, h);
      hide Linked, LinkedAround, Distinct, ContextDistinct, Nodes, ContextNodes;
    }

    lemma PathSwapped(nodes: set<Node<D>>, root: Node?<D>, h: Heap<D>, root': Node?<D>, h': Heap<D>)
      requires Apart(nodes) && Laid(h) && root == Outermost(c, x.node)
      requires root' == if c.Top? then y.node else root
      requires Rewritten(nodes, h, h')
      ensures Swapped().Apart(nodes) && Swapped().Laid(h') && root' == Outermost(c, y.node)
    {
      RootAmong(l);
      RootAmong(d);
      FatherAmong(c);
      FatherAmong(s);
      OutermostAmong(s, null);
      hide Linked, LinkedAround, Distinct, ContextDistinct, Nodes, ContextNodes;
      assert Linked(h', d, x.node) by { Refathered(h, h', d, y.node, x.node); }
      assert Linked(h', l, y.node) by { Refathered(h, h', l, x.node, y.node); }
      assert LinkedAround(h', c, null, y.node) by { Rehung(h, h', c, null, x.node, y.node); }
      assert LinkedAround(h', s, y.node, x.node) by {
        if s.Frame? {
          SegmentMoved(h, h', s, x.node, y.node, y.node, x.node);
        } else {
          NothingAround(h', y.node, x.node);
        }
      }
    }
  }

  // ----- The sequence without one cell -----

  /** The in-order sequence of the whole tree without the cell at the root of `t`. */
  ghost function Rest<D>(c: Context<D>, t: Tree<D>): seq<Cell<D>>
    requires t.Bin?
  {
    Before(c) + InOrder(t.left) + InOrder(t.right) + After(c)
  }

  lemma Regroup<T>(a: seq<T>, b: seq<T>, y: seq<T>, d: seq<T>, e: seq<T>, f: seq<T>)
    ensures (a + b + y) + d + (e + f) == a + b + (y + d + e) + f
    ensures (a + b) + d + (y + e + f) == a + (b + d + y) + e + f
  {
  }

  /** Where no node hangs between `x` and `y`, the swap leaves the sequence without `x` as it is. */
  lemma RestOfSwapRight<D>(p: Path<D>, r: Tree<D>)
    requires r == Plug(p.s, p.Below()) && p.side == Right && Before(p.s) == []
    ensures Rest(p.Swapped().Above(), p.Swapped().Below()) == Rest(p.c, Join(p.side, p.cx, p.x, p.l, r))
  {
    PlugInOrder(p.s, p.Below());
    var base, below := Frame(p.side, p.cx, p.y, p.l, p.c), p.Swapped().Below();
    AppendSplits(map[], p.s, base, null);
    var y, il, id := [p.y], InOrder(p.l), InOrder(p.d);
    assert Before(base) == Before(p.c) + il + y && After(base) == After(p.c);
    assert InOrder(p.Below()) == [] + y + id && InOrder(below.left) == [] && InOrder(below.right) == id;
    hide InOrder, Before, After, Append, Plug;
    assert InOrder(r) == y + id + After(p.s);
    Regroup(Before(p.c), il, y, id, After(p.s), After(p.c));
  }

  lemma RestOfSwapLeft<D>(p: Path<D>, r: Tree<D>)
    requires r == Plug(p.s, p.Below()) && p.side == Left && After(p.s) == []
    ensures Rest(p.Swapped().Above(), p.Swapped().Below()) == Rest(p.c, Join(p.side, p.cx, p.x, p.l, r))
  {
    PlugInOrder(p.s, p.Below());
    var base, below := Frame(p.side, p.cx, p.y, p.l, p.c), p.Swapped().Below();
    AppendSplits(map[], p.s, base, null);
    var y, il, id := [p.y], InOrder(p.l), InOrder(p.d);
    assert Before(base) == Before(p.c) && After(base) == y + il + After(p.c);
    assert InOrder(p.Below()) == id + y + [] && InOrder(below.left) == id && InOrder(below.right) == [];
    hide InOrder, Before, After, Append, Plug;
    assert InOrder(r) == Before(p.s) + id + y;
    Regroup(Before(p.c), Before(p.s), y, id, il, After(p.c));
  }

  ghost function Size<D>(t: Tree<D>): nat {
    match t
    case Nil => 0
    case Bin(l, _, _, r) => Size(l) + 1 + Size(r)
  }

  lemma RestOfLeaf<D>(c: Context<D>, t: Tree<D>)
    requires t.Bin? && t.left.Nil? && t.right.Nil?
    ensures Rest(c, t) == Order(c, Nil)
  {
  }

  /** A new leaf hangs in the hole. */
  lemma Grown<D>(nodes: set<Node<D>>, root: Node?<D>, h: Heap<D>, c: Context<D>,
                 nodes': set<Node<D>>, root': Node?<D>, h': Heap<D>, x: Cell<D>)
    requires Focus(nodes, root, h, c, Nil)
    requires x.node !in nodes && nodes' == nodes + {x.node}
    requires Holds(h', x, if c.Top? then Black else Red, FatherOf(c, null), null, null)
    requires root' == if c.Top? then x.node else root
    requires HoleHolds(h', c, null, x.node) && Same(h, h', nodes - {FatherOf(c, null)})
    ensures Focus(nodes', root', h', c, Bin(Nil, if c.Top? then Black else Red, x, Nil))
  {
    Replaced(nodes, root, h, c, Nil, nodes', root', h', Bin(Nil, if c.Top? then Black else Red, x, Nil));
  }

  /** A leaf that is not the root has been unhooked. */
  lemma Shrunk<D>(nodes: set<Node<D>>, root: Node?<D>, h: Heap<D>, c: Context<D>, t: Tree<D>,
                  nodes': set<Node<D>>, h': Heap<D>)
    requires Focus(nodes, root, h, c, t) && t.Bin? && t.left.Nil? && t.right.Nil? && c.Frame?
    requires nodes' == nodes - {t.cell.node}
    requires HoleHolds(h', c, null, null) && Same(h, h', nodes - {FatherOf(c, null), t.cell.node})
    ensures Focus(nodes', root, h', c, Nil)
  {
    assert Nodes(t) == {t.cell.node};
    Replaced(nodes, root, h, c, t, nodes', root, h', Nil);
  }

  lemma Emptied<D>(nodes: set<Node<D>>, node: Node<D>, t: Tree<D>, nodes': set<Node<D>>, h': Heap<D>)
    requires Nodes(t) == nodes && t.Bin? && t.left.Nil? && t.right.Nil? && t.cell.node == node && nodes' == nodes - {node}
    ensures Focus(nodes', null, h', Top, Nil)
  {
  }
}
