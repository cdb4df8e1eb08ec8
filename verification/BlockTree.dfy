/** The nodes of the free memory manager and the shape of one of its two search trees as a value.

    A node carries two sets of links, one for each index. `Links` reads one of them out of the heap;
    `Linked` and `LinkedAround` say that these links spell out a tree and the context around it. The keys
    stay out of the shapes: the manager changes a key in place while the node still hangs in the tree. */
module BlockTree {

  datatype Index = Address | Size

  datatype Side = Left | Right

  /** One index entry of a node: its key and its links. */
  datatype NodeData =
    NodeData(value: int, leftChild: TreeNode?, rightChild: TreeNode?, parent: TreeNode?)

  class TreeNode {
    var addressIdx: NodeData
    var sizeIdx: NodeData

    constructor ()
    {
      addressIdx, sizeIdx := NodeData(0, null, null, null), NodeData(0, null, null, null);
    }

    function At(i: Index): NodeData
      reads this
    {
      if i == Address then addressIdx else sizeIdx
    }

    method Put(i: Index, data: NodeData)
      modifies this
      ensures At(i) == data && At(Other(i)) == old(At(Other(i)))
    {
      if i == Address {
        addressIdx := data;
      } else {
        sizeIdx := data;
      }
    }
  }

  function Other(i: Index): Index {
    if i == Address then Size else Address
  }

  datatype Tree =
    | Nil
    | Bin(left: Tree, node: TreeNode, right: Tree)

  /** A path of parents from a hole up to the root; `side` is the side on which the hole hangs. */
  datatype Context =
    | Top
    | Frame(side: Side, node: TreeNode, other: Tree, up: Context)

  // ----- Trees and contexts as values -----

  ghost function InOrder(t: Tree): seq<TreeNode> {
    match t
    case Nil => []
    case Bin(l, n, r) => InOrder(l) + [n] + InOrder(r)
  }

  ghost function Join(side: Side, n: TreeNode, other: Tree, t: Tree): Tree {
    if side == Left then Bin(t, n, other) else Bin(other, n, t)
  }

  ghost function Plug(c: Context, t: Tree): Tree {
    match c
    case Top => t
    case Frame(side, n, other, up) => Plug(up, Join(side, n, other, t))
  }

  ghost function Nodes(t: Tree): set<TreeNode> {
    match t
    case Nil => {}
    case Bin(l, n, r) => Nodes(l) + {n} + Nodes(r)
  }

  ghost function ContextNodes(c: Context): set<TreeNode> {
    match c
    case Top => {}
    case Frame(_, n, other, up) => {n} + Nodes(other) + ContextNodes(up)
  }

  ghost predicate Distinct(t: Tree) {
    match t
    case Nil => true
    case Bin(l, n, r) =>
      && n !in Nodes(l) && n !in Nodes(r) && Nodes(l) !! Nodes(r)
      && Distinct(l) && Distinct(r)
  }

  ghost predicate ContextDistinct(c: Context) {
    match c
    case Top => true
    case Frame(_, n, other, up) =>
      && n !in Nodes(other) && n !in ContextNodes(up) && Nodes(other) !! ContextNodes(up)
      && Distinct(other) && ContextDistinct(up)
  }

  // ----- Trees and contexts in the heap -----

  type Links = map<TreeNode, NodeData>

  ghost function Read(s: set<TreeNode>, i: Index): Links
    reads s
  {
    map n | n in s :: n.At(i)
  }

  ghost function Root(t: Tree): TreeNode? {
    if t.Nil? then null else t.node
  }

  ghost predicate Holds(h: Links, n: TreeNode, parent: TreeNode?, left: TreeNode?, right: TreeNode?) {
    n in h && h[n].parent == parent && h[n].leftChild == left && h[n].rightChild == right
  }

  ghost predicate Linked(h: Links, t: Tree, parent: TreeNode?) {
    match t
    case Nil => true
    case Bin(l, n, r) => Holds(h, n, parent, Root(l), Root(r)) && Linked(h, l, n) && Linked(h, r, n)
  }

  ghost function ParentOf(c: Context): TreeNode? {
    if c.Top? then null else c.node
  }

  ghost function Outermost(c: Context, hole: TreeNode?): TreeNode? {
    match c
    case Top => hole
    case Frame(_, n, _, up) => Outermost(up, n)
  }

  ghost predicate HoleHolds(h: Links, c: Context, hole: TreeNode?) {
    c.Frame? ==>
      Holds(h, c.node, ParentOf(c.up),
            if c.side == Left then hole else Root(c.other), if c.side == Left then Root(c.other) else hole)
  }

  ghost predicate LinkedAround(h: Links, c: Context, hole: TreeNode?) {
    match c
    case Top => true
    case Frame(side, n, other, up) =>
      HoleHolds(h, c, hole) && Linked(h, other, n) && LinkedAround(h, up, n)
  }

  lemma {:induction false} PlugLinked(h: Links, c: Context, t: Tree)
    requires Distinct(t) && ContextDistinct(c) && Nodes(t) !! ContextNodes(c)
    ensures Distinct(Plug(c, t)) && Nodes(Plug(c, t)) == Nodes(t) + ContextNodes(c)
    ensures Root(Plug(c, t)) == Outermost(c, Root(t))
    ensures Linked(h, t, ParentOf(c)) && LinkedAround(h, c, Root(t)) ==> Linked(h, Plug(c, t), null)
    decreases c
  {
    match c
    case Top =>
    case Frame(side, n, other, up) =>
      PlugLinked(h, up, Join(side, n, other, t));
  }

  /** The nodes in `s` have the same links in both heaps. */
  ghost predicate Same(h: Links, h': Links, s: set<TreeNode>) {
    forall n :: n in s && n in h ==> n in h' && h'[n].(value := h[n].value) == h[n]
  }

  lemma {:induction false} LinkedFrame(h: Links, h': Links, t: Tree, parent: TreeNode?)
    requires Linked(h, t, parent) && Same(h, h', Nodes(t))
    ensures Linked(h', t, parent)
  {
    if t.Bin? {
      LinkedFrame(h, h', t.left, t.node);
      LinkedFrame(h, h', t.right, t.node);
    }
  }

  lemma {:induction false} AroundFrame(h: Links, h': Links, c: Context, hole: TreeNode?)
    requires LinkedAround(h, c, hole) && Same(h, h', ContextNodes(c))
    ensures LinkedAround(h', c, hole)
  {
    if c.Frame? {
      LinkedFrame(h, h', c.other, c.node);
      AroundFrame(h, h', c.up, c.node);
    }
  }

  /** Only the parent of the root of `t` has changed. */
  lemma Reparented(h: Links, h': Links, t: Tree, parent: TreeNode?, parent': TreeNode?)
    requires Linked(h, t, parent) && Distinct(t)
    requires t.Bin? ==> Holds(h', t.node, parent', Root(t.left), Root(t.right))
    requires Same(h, h', Nodes(t) - {Root(t)})
    ensures Linked(h', t, parent')
  {
    if t.Bin? {
      LinkedFrame(h, h', t.left, t.node);
      LinkedFrame(h, h', t.right, t.node);
    }
  }

  /** Only the child link to the hole has changed. */
  lemma Rehung(h: Links, h': Links, c: Context, hole: TreeNode?, hole': TreeNode?)
    requires LinkedAround(h, c, hole) && ContextDistinct(c)
    requires HoleHolds(h', c, hole') && Same(h, h', ContextNodes(c) - {ParentOf(c)})
    ensures LinkedAround(h', c, hole')
  {
    if c.Frame? {
      LinkedFrame(h, h', c.other, c.node);
      AroundFrame(h, h', c.up, c.node);
    }
  }

  // ----- One focused subtree in a whole tree -----

  ghost predicate Focus(nodes: set<TreeNode>, root: TreeNode?, h: Links, c: Context, t: Tree) {
    && Nodes(t) + ContextNodes(c) == nodes
    && Distinct(t) && ContextDistinct(c) && Nodes(t) !! ContextNodes(c)
    && root == Outermost(c, Root(t))
    && Linked(h, t, ParentOf(c)) && LinkedAround(h, c, Root(t))
  }

  lemma Descend(nodes: set<TreeNode>, root: TreeNode?, h: Links, c: Context, t: Tree)
    requires Focus(nodes, root, h, c, t) && t.Bin?
    ensures Focus(nodes, root, h, Frame(Left, t.node, t.right, c), t.left)
    ensures Focus(nodes, root, h, Frame(Right, t.node, t.left, c), t.right)
  {
  }

  lemma Whole(nodes: set<TreeNode>, root: TreeNode?, h: Links, c: Context, t: Tree)
    requires Focus(nodes, root, h, c, t)
    ensures Focus(nodes, root, h, Top, Plug(c, t))
  {
    PlugLinked(h, c, t);
  }

  lemma FocusFrame(nodes: set<TreeNode>, root: TreeNode?, h: Links, h': Links, c: Context, t: Tree)
    requires Focus(nodes, root, h, c, t) && Same(h, h', nodes)
    ensures Focus(nodes, root, h', c, t)
  {
    LinkedFrame(h, h', t, ParentOf(c));
    AroundFrame(h, h', c, Root(t));
  }

  /** The focused subtree has been replaced by `t'`. */
  lemma Replaced(nodes: set<TreeNode>, root: TreeNode?, h: Links, c: Context, t: Tree,
                 nodes': set<TreeNode>, root': TreeNode?, h': Links, t': Tree)
    requires Focus(nodes, root, h, c, t)
    requires Linked(h', t', ParentOf(c)) && Distinct(t') && Nodes(t') !! ContextNodes(c)
    requires nodes' == Nodes(t') + ContextNodes(c)
    requires root' == if c.Top? then Root(t') else root
    requires HoleHolds(h', c, Root(t')) && Same(h, h', ContextNodes(c) - {ParentOf(c)})
    ensures Focus(nodes', root', h', c, t')
  {
    Rehung(h, h', c, Root(t), Root(t'));
  }

  /** What the links around a focused subtree read. */
  lemma Sites(nodes: set<TreeNode>, root: TreeNode?, h: Links, c: Context, t: Tree)
    requires Focus(nodes, root, h, c, t)
    ensures t.Bin? ==> t.node in nodes && t.node !in ContextNodes(c)
    ensures t.Bin? ==> Holds(h, t.node, ParentOf(c), Root(t.left), Root(t.right))
    ensures forall u :: t.Bin? && (u == t.left || u == t.right) && u.Bin? ==>
      && u.node in nodes && u.node != t.node && u.node !in ContextNodes(c)
      && Holds(h, u.node, t.node, Root(u.left), Root(u.right))
    ensures t.Bin? && t.left.Bin? && t.right.Bin? ==> t.left.node != t.right.node
    ensures c.Frame? ==> c.node in nodes && c.node in ContextNodes(c) && HoleHolds(h, c, Root(t)) && (t.Bin? ==> Root(c.other) != t.node)
    ensures t.Bin? ==> (t.node == root <==> c.Top?)
  {
    if t.Bin? {
      assert Linked(h, t.left, t.node) && Linked(h, t.right, t.node);
    }
    OutermostAmong(c, Root(t));
  }

  lemma {:induction false} OutermostAmong(c: Context, hole: TreeNode?)
    ensures c.Frame? ==> Outermost(c, hole) in ContextNodes(c)
  {
    if c.Frame? {
      OutermostAmong(c.up, c.node);
    }
  }

  // ----- Removing and inserting as functions on shapes -----

  /** `l` hung below the leftmost node of `r`. */
  ghost function AttachLeft(r: Tree, l: Tree): Tree {
    match r
    case Nil => l
    case Bin(rl, n, rr) => Bin(AttachLeft(rl, l), n, rr)
  }

  /** What takes the place of the root of `t` when that is removed. */
  ghost function Splice(t: Tree): Tree
    requires t.Bin?
  {
    if t.left.Nil? then t.right else AttachLeft(t.right, t.left)
  }

  ghost function Removed(t: Tree, n: TreeNode): Tree {
    match t
    case Nil => Nil
    case Bin(l, m, r) =>
      if m == n then Splice(t)
      else if n in Nodes(l) then Bin(Removed(l, n), m, r)
      else Bin(l, m, Removed(r, n))
  }

  type Keys = map<TreeNode, int>

  /** Where a search for the key of `n` ends: below a missing child, or just above the right subtree of an equal key. */
  ghost function Inserted(t: Tree, n: TreeNode, v: Keys): Tree
    requires Nodes(t) <= v.Keys && n in v
  {
    match t
    case Nil => Bin(Nil, n, Nil)
    case Bin(l, m, r) =>
      if v[m] == v[n] then Bin(l, m, Bin(Nil, n, r))
      else if v[m] > v[n] then Bin(Inserted(l, n, v), m, r)
      else Bin(l, m, Inserted(r, n, v))
  }

  /** A search tree over the keys `v` in [lo, hi): smaller keys to the left, equal or greater ones to the right. */
  ghost predicate Ordered(t: Tree, v: Keys, lo: int, hi: int) {
    match t
    case Nil => true
    case Bin(l, n, r) => n in v && lo <= v[n] < hi && Ordered(l, v, lo, v[n]) && Ordered(r, v, v[n], hi)
  }

  lemma {:induction false} OrderedWiden(t: Tree, v: Keys, lo: int, hi: int, v': Keys, lo': int, hi': int)
    requires Ordered(t, v, lo, hi) && lo' <= lo && hi <= hi'
    requires forall n :: n in Nodes(t) && n in v ==> n in v' && v'[n] == v[n]
    ensures Ordered(t, v', lo', hi')
  {
    if t.Bin? {
      OrderedWiden(t.left, v, lo, v[t.node], v', lo', v[t.node]);
      OrderedWiden(t.right, v, v[t.node], hi, v', v[t.node], hi');
    }
  }

  lemma {:induction false} OrderedRange(t: Tree, v: Keys, lo: int, hi: int)
    requires Ordered(t, v, lo, hi)
    ensures forall n :: n in Nodes(t) ==> n in v && lo <= v[n] < hi
  {
    if t.Bin? {
      OrderedRange(t.left, v, lo, v[t.node]);
      OrderedRange(t.right, v, v[t.node], hi);
    }
  }

  lemma {:induction false} AttachLeftOrdered(r: Tree, l: Tree, v: Keys, lo: int, x: int, hi: int)
    requires Ordered(l, v, lo, x) && Ordered(r, v, x, hi) && lo <= x <= hi
    ensures Ordered(AttachLeft(r, l), v, lo, hi)
    ensures Nodes(AttachLeft(r, l)) == Nodes(r) + Nodes(l)
  {
    if r.Nil? {
      OrderedWiden(l, v, lo, x, v, lo, hi);
    } else {
      AttachLeftOrdered(r.left, l, v, lo, x, v[r.node]);
    }
  }

  lemma {:induction false} RemovedOrdered(t: Tree, n: TreeNode, v: Keys, lo: int, hi: int)
    requires Ordered(t, v, lo, hi) && Distinct(t) && n in Nodes(t)
    ensures Ordered(Removed(t, n), v, lo, hi)
    ensures Nodes(Removed(t, n)) == Nodes(t) - {n}
  {
    if t.node == n {
      if t.left.Nil? {
        OrderedWiden(t.right, v, v[n], hi, v, lo, hi);
      } else {
        AttachLeftOrdered(t.right, t.left, v, lo, v[n], hi);
      }
    } else if n in Nodes(t.left) {
      RemovedOrdered(t.left, n, v, lo, v[t.node]);
    } else {
      RemovedOrdered(t.right, n, v, v[t.node], hi);
    }
  }

  lemma {:induction false} InsertedOrdered(t: Tree, n: TreeNode, v: Keys, lo: int, hi: int)
    requires Ordered(t, v, lo, hi) && Nodes(t) <= v.Keys && n in v && lo <= v[n] < hi
    ensures Ordered(Inserted(t, n, v), v, lo, hi)
    ensures Nodes(Inserted(t, n, v)) == Nodes(t) + {n}
  {
    if t.Bin? {
      if v[t.node] > v[n] {
        InsertedOrdered(t.left, n, v, lo, v[t.node]);
      } else if v[t.node] < v[n] {
        InsertedOrdered(t.right, n, v, v[t.node], hi);
      } else {
        assert Nodes(Bin(Nil, n, t.right)) == {n} + Nodes(t.right);
      }
    }
  }

  // ----- The same functions seen from a focus -----

  lemma {:induction false} RemovedAt(c: Context, t: Tree)
    requires t.Bin? && Distinct(t) && ContextDistinct(c) && Nodes(t) !! ContextNodes(c)
    ensures Removed(Plug(c, t), t.node) == Plug(c, Splice(t))
  {
    RemovedBelow(c, t, t.node);
  }

  lemma {:induction false} RemovedBelow(c: Context, t: Tree, n: TreeNode)
    requires n in Nodes(t) && n !in ContextNodes(c)
    ensures Removed(Plug(c, t), n) == Plug(c, Removed(t, n))
    decreases c
  {
    if c.Frame? {
      var t1 := Join(c.side, c.node, c.other, t);
      assert Removed(t1, n) == Join(c.side, c.node, c.other, Removed(t, n));
      RemovedBelow(c.up, t1, n);
    }
  }

  /** A search for the key of `n` goes through every frame of `c` towards its hole. */
  ghost predicate Leads(c: Context, n: TreeNode, v: Keys)
    requires ContextNodes(c) <= v.Keys && n in v
  {
    match c
    case Top => true
    case Frame(side, m, _, up) => (if side == Left then v[m] > v[n] else v[m] < v[n]) && Leads(up, n, v)
  }

  lemma {:induction false} InsertedBelow(c: Context, t: Tree, n: TreeNode, v: Keys)
    requires ContextNodes(c) + Nodes(t) + {n} <= v.Keys && Leads(c, n, v)
    requires Distinct(t) && ContextDistinct(c) && Nodes(t) !! ContextNodes(c)
    ensures Nodes(Plug(c, t)) == Nodes(t) + ContextNodes(c)
    ensures Inserted(Plug(c, t), n, v) == Plug(c, Inserted(t, n, v))
    decreases c
  {
    if c.Frame? {
      InsertedBelow(c.up, Join(c.side, c.node, c.other, t), n, v);
    }
  }

  /** Every node of a tree has a place in it. */
  lemma {:induction false} Locate(c: Context, t: Tree, n: TreeNode) returns (c': Context, t': Tree)
    requires n in Nodes(t)
    ensures t'.Bin? && t'.node == n && Plug(c', t') == Plug(c, t)
    decreases t
  {
    if t.node == n {
      c', t' := c, t;
    } else if n in Nodes(t.left) {
      c', t' := Locate(Frame(Left, t.node, t.right, c), t.left, n);
    } else {
      c', t' := Locate(Frame(Right, t.node, t.left, c), t.right, n);
    }
  }

  // ----- What the link writes of the tree operations do -----

  ghost function Values(h: Links): Keys {
    map n | n in h :: h[n].value
  }

  /** The nodes in `s` have the same key and the same links in both heaps. */
  ghost predicate Unchanged(h: Links, h': Links, s: set<TreeNode>) {
    forall n :: n in s && n in h ==> n in h' && h'[n] == h[n]
  }

  ghost function WithChild(d: NodeData, was: TreeNode, child: TreeNode?): NodeData {
    if d.leftChild == was then d.(leftChild := child) else d.(rightChild := child)
  }

  /** `child` has taken the place of `node`; its parent link follows only if `linkBack`. */
  ghost predicate Bypassed(h: Links, h': Links, node: TreeNode, child: TreeNode?, linkBack: bool)
    requires node in h
  {
    var p := h[node].parent;
    && (p != null ==> p in h && p in h' && h'[p] == WithChild(h[p], node, child))
    && (child != null ==>
          child in h && child in h' && h'[child] == if linkBack then h[child].(parent := p) else h[child])
    && Unchanged(h, h', h.Keys - {p, child})
  }

  /** `lc` has been hung below `curr` on the left. */
  ghost predicate HungLeft(h: Links, h': Links, curr: TreeNode, lc: TreeNode) {
    && curr in h && lc in h && curr in h' && lc in h'
    && h'[curr] == h[curr].(leftChild := lc) && h'[lc] == h[lc].(parent := curr)
    && Unchanged(h, h', h.Keys - {curr, lc})
  }

  ghost predicate HungRight(h: Links, h': Links, curr: TreeNode, rc: TreeNode) {
    && curr in h && rc in h && curr in h' && rc in h'
    && h'[curr] == h[curr].(rightChild := rc) && h'[rc] == h[rc].(parent := curr)
    && Unchanged(h, h', h.Keys - {curr, rc})
  }

  /** `node` has been put between `curr` and its right child; the link to that child is set only if `intended`. */
  ghost predicate SqueezedIn(h: Links, h': Links, curr: TreeNode, node: TreeNode, intended: bool) {
    && curr in h && node in h && curr in h' && node in h'
    && var rc := h[curr].rightChild;
    && h'[curr] == h[curr].(rightChild := node)
    && h'[node] == h[node].(parent := curr, rightChild := if intended then rc else h[node].rightChild)
    && (rc != null ==> rc in h && rc in h' && h'[rc] == h[rc].(parent := node))
    && Unchanged(h, h', h.Keys - {curr, node, rc})
  }

  lemma BypassedLinks(s: set<TreeNode>, root: TreeNode?, h: Links, c: Context, t: Tree, u: Tree, linkBack: bool,
                      root': TreeNode?, h': Links)
    requires Focus(s, root, h, c, t) && t.Bin? && (u == t.left || u == t.right)
    requires h.Keys == s && Bypassed(h, h', t.node, Root(u), linkBack)
    requires root' == if c.Top? then Root(u) else root
    ensures Linked(h', u, if linkBack then ParentOf(c) else t.node)
    ensures LinkedAround(h', c, Root(u)) && root' == Outermost(c, Root(u))
    ensures u != t.left ==> Linked(h', t.left, t.node)
  {
    hide Focus, Linked, LinkedAround, Distinct, ContextDistinct, Nodes, ContextNodes;
    Sites(s, root, h, c, t);
    Surroundings(s, root, h, c, t);
    ParentAmong(c);
    RootAmong(t.left);
    RootAmong(t.right);
    Rehung(h, h', c, t.node, Root(u));
    Reparented(h, h', u, t.node, if linkBack then ParentOf(c) else t.node);
    if u != t.left {
      LinkedFrame(h, h', t.left, t.node);
    }
  }

  /** The parts around the root of a focused subtree are linked and apart. */
  lemma Surroundings(s: set<TreeNode>, root: TreeNode?, h: Links, c: Context, t: Tree)
    requires Focus(s, root, h, c, t) && t.Bin?
    ensures Distinct(t.left) && Distinct(t.right) && Linked(h, t.left, t.node) && Linked(h, t.right, t.node)
    ensures t.node !in Nodes(t.left) && t.node !in Nodes(t.right) && Nodes(t.left) !! Nodes(t.right)
    ensures Nodes(t.left) <= s && Nodes(t.right) <= s && Nodes(t.left) + Nodes(t.right) !! ContextNodes(c)
    ensures ContextDistinct(c) && LinkedAround(h, c, t.node) && ContextNodes(c) <= s && (c.Top? ==> root == t.node)
    ensures root == Outermost(c, t.node) && (c.Frame? ==> forall hole :: Outermost(c, hole) == root)
  {
  }

  lemma BypassedFocus(s: set<TreeNode>, root: TreeNode?, h: Links, c: Context, t: Tree, u: Tree,
                      root': TreeNode?, h': Links)
    requires Focus(s, root, h, c, t) && t.Bin? && ((u == t.left && t.right.Nil?) || (u == t.right && t.left.Nil?))
    requires h.Keys == s && Bypassed(h, h', t.node, Root(u), true)
    requires root' == if c.Top? then Root(u) else root
    ensures Focus(s - {t.node}, root', h', c, u)
  {
    assert Nodes(t) == Nodes(u) + {t.node} && t.node !in Nodes(u) && Distinct(u);
    BypassedLinks(s, root, h, c, t, u, true, root', h');
  }

  lemma ParentAmong(c: Context)
    ensures c.Frame? ==> ParentOf(c) in ContextNodes(c)
  {
  }

  lemma RootAmong(t: Tree)
    ensures t.Bin? ==> Root(t) in Nodes(t)
  {
  }

  ghost function Leftmost(t: Tree): TreeNode
    requires t.Bin?
  {
    if t.left.Nil? then t.node else Leftmost(t.left)
  }

  lemma {:induction false} GraftLinked(h: Links, h': Links, r: Tree, p: TreeNode?, l: Tree, q: TreeNode?)
    requires r.Bin? && Linked(h, r, p) && l.Bin? && Linked(h, l, q)
    requires Distinct(r) && Distinct(l) && Nodes(r) !! Nodes(l)
    requires HungLeft(h, h', Leftmost(r), l.node) && Nodes(r) + Nodes(l) <= h.Keys
    ensures Linked(h', AttachLeft(r, l), p) && Root(AttachLeft(r, l)) == r.node
    ensures Leftmost(r) in Nodes(r)
    ensures Distinct(AttachLeft(r, l)) && Nodes(AttachLeft(r, l)) == Nodes(r) + Nodes(l)
  {
    LinkedFrame(h, h', r.right, r.node) by {
      if r.left.Bin? {
        LeftmostAmong(r.left);
      }
    }
    if r.left.Nil? {
      Reparented(h, h', l, q, r.node);
    } else {
      LeftmostAmong(r.left);
      GraftLinked(h, h', r.left, r.node, l, q);
    }
  }

  lemma {:induction false} LeftmostAmong(t: Tree)
    requires t.Bin?
    ensures Leftmost(t) in Nodes(t)
  {
    if t.left.Bin? {
      LeftmostAmong(t.left);
    }
  }

  /** Removing a node with two children: its right child moves up, its left child goes below the leftmost node. */
  lemma SplicedFocus(s: set<TreeNode>, root: TreeNode?, h: Links, c: Context, t: Tree, linkBack: bool,
                     root': TreeNode?, h1: Links, h2: Links)
    requires Focus(s, root, h, c, t) && t.Bin? && t.left.Bin? && t.right.Bin?
    requires h.Keys == s && h1.Keys == s && Bypassed(h, h1, t.node, t.right.node, linkBack)
    requires root' == if c.Top? then t.right.node else root
    requires HungLeft(h1, h2, Leftmost(t.right), t.left.node)
    ensures linkBack ==> Focus(s - {t.node}, root', h2, c, Splice(t))
    ensures !linkBack && c.Frame? ==> h2[t.right.node].parent != ParentOf(c)
  {
    var l, r := t.left, t.right;
    var p := if linkBack then ParentOf(c) else t.node;
    BypassedLinks(s, root, h, c, t, r, linkBack, root', h1);
    assert Distinct(l) && Distinct(r) && Nodes(l) !! Nodes(r);
    assert t.node !in Nodes(l) + Nodes(r) && t.node !in ContextNodes(c) && Nodes(l) + Nodes(r) !! ContextNodes(c);
    assert s - {t.node} == Nodes(l) + Nodes(r) + ContextNodes(c);
    assert ContextDistinct(c) && Holds(h1, r.node, p, Root(r.left), Root(r.right));
    assert r.node in Nodes(r) && l.node in Nodes(l);
    hide Linked, LinkedAround, Distinct, ContextDistinct, Nodes, ContextNodes;
    GraftLinked(h1, h2, r, p, l, t.node);
    ParentAmong(c);
    AroundFrame(h1, h2, c, r.node);
  }

  /** What the links of a whole tree say about each of its places. */
  lemma {:induction false} Place(s: set<TreeNode>, root: TreeNode?, h: Links, c: Context, t: Tree)
    requires Focus(s, root, h, Top, Plug(c, t))
    ensures Focus(s, root, h, c, t)
    decreases c
  {
    if c.Frame? {
      Place(s, root, h, c.up, Join(c.side, c.node, c.other, t));
      Descend(s, root, h, c.up, Join(c.side, c.node, c.other, t));
    }
  }

  /** The operations write links only. */
  lemma KeysStay(h: Links, h': Links, node: TreeNode, child: TreeNode?, linkBack: bool)
    requires h.Keys == h'.Keys && node in h
    ensures Bypassed(h, h', node, child, linkBack) ==> Values(h') == Values(h)
    ensures child != null && HungLeft(h, h', node, child) ==> Values(h') == Values(h)
    ensures child != null && HungRight(h, h', node, child) ==> Values(h') == Values(h)
    ensures child != null && SqueezedIn(h, h', node, child, linkBack) ==> Values(h') == Values(h)
  {
  }

  /** A new leaf hangs in the hole. */
  lemma GrownFocus(s: set<TreeNode>, root: TreeNode?, h: Links, c: Context, n: TreeNode, h': Links)
    requires Focus(s, root, h, c, Nil) && c.Frame? && n !in s
    requires n in h && h[n].leftChild == null && h[n].rightChild == null
    requires if c.side == Left then HungLeft(h, h', c.node, n) else HungRight(h, h', c.node, n)
    ensures Focus(s + {n}, root, h', c, Bin(Nil, n, Nil))
  {
    assert HoleHolds(h, c, null);
    Replaced(s, root, h, c, Nil, s + {n}, root, h', Bin(Nil, n, Nil));
  }

  /** A node has been put below one with the same key: all is well exactly if the right child is linked. */
  lemma SqueezedFocus(s: set<TreeNode>, root: TreeNode?, h: Links, c: Context, t: Tree, n: TreeNode, intended: bool, h': Links)
    requires Focus(s, root, h, c, t) && t.Bin? && n !in s && s <= h.Keys
    requires n in h && h[n].leftChild == null && h[n].rightChild == null
    requires SqueezedIn(h, h', t.node, n, intended)
    ensures intended || t.right.Nil? ==> Focus(s + {n}, root, h', c, Bin(t.left, t.node, Bin(Nil, n, t.right)))
    ensures !intended && t.right.Bin? ==> h'[n].rightChild != Root(t.right)
  {
    Sites(s, root, h, c, t);
    if intended || t.right.Nil? {
      var t' := Bin(t.left, t.node, Bin(Nil, n, t.right));
      assert Distinct(t') && Nodes(t') == Nodes(t) + {n} by {
        assert Distinct(Bin(Nil, n, t.right));
      }
      assert Linked(h', t', ParentOf(c)) by {
        LinkedFrame(h, h', t.left, t.node);
        Reparented(h, h', t.right, t.node, n);
        assert Linked(h', Bin(Nil, n, t.right), t.node);
      }
      Replaced(s, root, h, c, t, s + {n}, root, h', t');
    }
  }

  lemma PlugTop(t: Tree)
    ensures Plug(Top, t) == t
  {
  }

  lemma RemovedHere(s: set<TreeNode>, root: TreeNode?, h: Links, c: Context, t: Tree)
    requires Focus(s, root, h, c, t) && t.Bin?
    ensures Removed(Plug(c, t), t.node) == Plug(c, Splice(t))
    ensures t.left.Nil? ==> Splice(t) == t.right
    ensures t.right.Nil? ==> Splice(t) == t.left
  {
    RemovedAt(c, t);
  }

  lemma SubtreesApart(s: set<TreeNode>, root: TreeNode?, h: Links, c: Context, t: Tree)
    requires Focus(s, root, h, c, t) && t.Bin?
    ensures t.left.Bin? ==> t.left.node !in Nodes(t.right)
    ensures t.left.Bin? && t.right.Bin? ==> Splice(t).Bin? && Splice(t).node == t.right.node
    ensures t.right.Bin? ==> Leftmost(t.right) in s
  {
    if t.right.Bin? {
      LeftmostAmong(t.right);
    }
  }

  // ----- Where an insertion ends -----

  /** A search for the key of `n` meets an equal key that has a right child. */
  ghost predicate Squeezes(t: Tree, n: TreeNode, v: Keys)
    requires Nodes(t) <= v.Keys && n in v
  {
    match t
    case Nil => false
    case Bin(l, m, r) =>
      if v[m] == v[n] then r.Bin? else if v[m] > v[n] then Squeezes(l, n, v) else Squeezes(r, n, v)
  }

  lemma InsertedHere(s: set<TreeNode>, root: TreeNode?, h: Links, c: Context, t: Tree, n: TreeNode, v: Keys)
    requires Focus(s, root, h, c, t) && s + {n} <= v.Keys && Leads(c, n, v)
    ensures Nodes(Plug(c, t)) == s && Inserted(Plug(c, t), n, v) == Plug(c, Inserted(t, n, v))
    ensures Squeezes(Plug(c, t), n, v) == Squeezes(t, n, v)
  {
    InsertedBelow(c, t, n, v);
    SqueezesBelow(c, t, n, v);
  }

  lemma {:induction false} SqueezesBelow(c: Context, t: Tree, n: TreeNode, v: Keys)
    requires ContextNodes(c) + Nodes(t) + {n} <= v.Keys && Leads(c, n, v)
    requires Distinct(t) && ContextDistinct(c) && Nodes(t) !! ContextNodes(c)
    ensures Nodes(Plug(c, t)) == Nodes(t) + ContextNodes(c)
    ensures Squeezes(Plug(c, t), n, v) == Squeezes(t, n, v)
    decreases c
  {
    if c.Frame? {
      SqueezesBelow(c.up, Join(c.side, c.node, c.other, t), n, v);
    }
  }

  /** The search goes on below the root of `t`. */
  lemma LeadsOn(s: set<TreeNode>, root: TreeNode?, h: Links, c: Context, t: Tree, n: TreeNode, v: Keys)
    requires Focus(s, root, h, c, t) && s + {n} <= v.Keys && ContextNodes(c) <= v.Keys && Leads(c, n, v) && t.Bin?
    ensures ContextNodes(Frame(Left, t.node, t.right, c)) <= v.Keys
    ensures v[t.node] > v[n] ==> Leads(Frame(Left, t.node, t.right, c), n, v)
    ensures ContextNodes(Frame(Right, t.node, t.left, c)) <= v.Keys
    ensures v[t.node] < v[n] ==> Leads(Frame(Right, t.node, t.left, c), n, v)
    ensures Plug(Frame(Left, t.node, t.right, c), t.left) == Plug(c, t)
    ensures Plug(Frame(Right, t.node, t.left, c), t.right) == Plug(c, t)
  {
  }

  // ----- One node takes the place of another -----

  /** The entry of `src` has been copied to `dest` and its neighbours point to `dest`. */
  ghost predicate Moved(h: Links, h': Links, dest: TreeNode, src: TreeNode)
    requires src in h
  {
    var d := h[src];
    && dest in h' && h'[dest] == d
    && (d.parent != null ==> d.parent in h && d.parent in h' && h'[d.parent] == WithChild(h[d.parent], src, dest))
    && (d.leftChild != null ==> d.leftChild in h && d.leftChild in h' && h'[d.leftChild] == h[d.leftChild].(parent := dest))
    && (d.rightChild != null ==> d.rightChild in h && d.rightChild in h' && h'[d.rightChild] == h[d.rightChild].(parent := dest))
    && Unchanged(h, h', h.Keys - {dest, d.parent, d.leftChild, d.rightChild})
  }

  lemma MovedFocus(s: set<TreeNode>, root: TreeNode?, h: Links, c: Context, t: Tree, dest: TreeNode, h': Links)
    requires Focus(s, root, h, c, t) && t.Bin? && dest !in s && h.Keys == s + {dest} && Moved(h, h', dest, t.node)
    ensures Focus(s - {t.node} + {dest}, if c.Top? then dest else root, h', c, Bin(t.left, dest, t.right))
  {
    Sites(s, root, h, c, t);
    var t' := Bin(t.left, dest, t.right);
    assert Linked(h', t', ParentOf(c)) by {
      assert Distinct(t.left) && Distinct(t.right) && Linked(h, t.left, t.node) && Linked(h, t.right, t.node);
      Reparented(h, h', t.left, t.node, dest);
      Reparented(h, h', t.right, t.node, dest);
    }
    Replaced(s, root, h, c, t, s - {t.node} + {dest}, if c.Top? then dest else root, h', t');
  }

  ghost function Renamed(t: Tree, src: TreeNode, dest: TreeNode): Tree {
    match t
    case Nil => Nil
    case Bin(l, n, r) => Bin(Renamed(l, src, dest), if n == src then dest else n, Renamed(r, src, dest))
  }

  lemma {:induction false} NotRenamed(t: Tree, src: TreeNode, dest: TreeNode)
    requires src !in Nodes(t)
    ensures Renamed(t, src, dest) == t
  {
    if t.Bin? {
      NotRenamed(t.left, src, dest);
      NotRenamed(t.right, src, dest);
    }
  }

  lemma {:induction false} RenamedPlug(c: Context, t: Tree, src: TreeNode, dest: TreeNode)
    requires src !in ContextNodes(c)
    ensures Renamed(Plug(c, t), src, dest) == Plug(c, Renamed(t, src, dest))
    decreases c
  {
    if c.Frame? {
      NotRenamed(c.other, src, dest);
      RenamedPlug(c.up, Join(c.side, c.node, c.other, t), src, dest);
    }
  }

  lemma RenamedHere(s: set<TreeNode>, root: TreeNode?, h: Links, c: Context, t: Tree, dest: TreeNode)
    requires Focus(s, root, h, c, t) && t.Bin?
    ensures Renamed(Plug(c, t), t.node, dest) == Plug(c, Bin(t.left, dest, t.right))
  {
    RenamedPlug(c, t, t.node, dest);
    NotRenamed(t.left, t.node, dest);
    NotRenamed(t.right, t.node, dest);
  }

  /** The key sequence of the tree is the same with another object in one place. */
  lemma {:induction false} RenamedInOrder(t: Tree, src: TreeNode, dest: TreeNode)
    ensures InOrder(Renamed(t, src, dest)) == seq(|InOrder(t)|, k requires 0 <= k < |InOrder(t)| => if InOrder(t)[k] == src then dest else InOrder(t)[k])
  {
    if t.Bin? {
      RenamedInOrder(t.left, src, dest);
      RenamedInOrder(t.right, src, dest);
    }
  }

  lemma {:induction false} RenamedOrdered(t: Tree, src: TreeNode, dest: TreeNode, v: Keys, v': Keys, lo: int, hi: int)
    requires Ordered(t, v, lo, hi) && src in v && dest in v' && v'[dest] == v[src]
    requires forall n :: n in Nodes(t) && n in v && n != src ==> n in v' && v'[n] == v[n]
    ensures Ordered(Renamed(t, src, dest), v', lo, hi)
  {
    if t.Bin? {
      RenamedOrdered(t.left, src, dest, v, v', lo, v[t.node]);
      RenamedOrdered(t.right, src, dest, v, v', v[t.node], hi);
    }
  }

  // ----- The sequence of nodes -----

  /** Removal takes one node out of the sequence and keeps the order of the others. */
  lemma {:induction false} RemovedInOrder(t: Tree, n: TreeNode) returns (before: seq<TreeNode>, after: seq<TreeNode>)
    requires Distinct(t) && n in Nodes(t)
    ensures InOrder(t) == before + [n] + after && InOrder(Removed(t, n)) == before + after
  {
    var l, r := InOrder(t.left), InOrder(t.right);
    if t.node == n {
      before, after := l, r;
      AttachLeftInOrder(t.right, t.left);
    } else if n in Nodes(t.left) {
      var rest;
      before, rest := RemovedInOrder(t.left, n);
      after := rest + [t.node] + r;
    } else {
      var rest;
      rest, after := RemovedInOrder(t.right, n);
      before := l + [t.node] + rest;
    }
  }

  lemma {:induction false} AttachLeftInOrder(r: Tree, l: Tree)
    ensures InOrder(AttachLeft(r, l)) == InOrder(l) + InOrder(r)
  {
    if r.Bin? {
      AttachLeftInOrder(r.left, l);
    }
  }
}
