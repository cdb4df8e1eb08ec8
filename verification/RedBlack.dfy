/** The red-black rules, for whole trees and for a tree cut into a focused subtree and its context. */
module RedBlack {
  import opened TreeShape

  ghost predicate IsRed<D>(t: Tree<D>) {
    t.Bin? && t.color == Red
  }

  function Weight(color: Color): nat {
    if color == Black then 1 else 0
  }

  /** Every path from the root of `t` down to a missing child passes `height` black nodes. */
  ghost predicate Balanced<D>(t: Tree<D>, height: int) {
    match t
    case Nil => height == 0
    case Bin(l, color, _, r) => Balanced(l, height - Weight(color)) && Balanced(r, height - Weight(color))
  }

  /** No red node has a red child. */
  ghost predicate NoRedRed<D>(t: Tree<D>) {
    match t
    case Nil => true
    case Bin(l, color, _, r) =>
      && (color == Red ==> !IsRed(l) && !IsRed(r))
      && NoRedRed(l) && NoRedRed(r)
  }

  ghost predicate RedBlackTree<D>(t: Tree<D>) {
    && !IsRed(t) && NoRedRed(t)
    && exists height :: Balanced(t, height)
  }

  /** A subtree of black height `height` in the hole balances the whole tree. */
  ghost predicate ContextBalanced<D>(c: Context<D>, height: int) {
    match c
    case Top => true
    case Frame(_, color, _, other, up) => Balanced(other, height) && ContextBalanced(up, height + Weight(color))
  }

  /** A subtree in the hole, red at its root or not, leaves no red node with a red child and no red root. */
  ghost predicate ContextNoRedRed<D>(c: Context<D>, holeRed: bool) {
    match c
    case Top => !holeRed
    case Frame(_, color, _, other, up) =>
      && (color == Red ==> !holeRed && !IsRed(other))
      && NoRedRed(other) && ContextNoRedRed(up, color == Red)
  }

  /** The whole tree is red-black except that `t` may be red below a red father or at the root. */
  ghost predicate Fits<D>(c: Context<D>, t: Tree<D>, height: int) {
    && Balanced(t, height) && ContextBalanced(c, height)
    && NoRedRed(t) && ContextNoRedRed(c, false)
  }

  lemma {:induction false} PlugRedBlack<D>(c: Context<D>, t: Tree<D>, height: int)
    requires Fits(c, t, height) && ContextNoRedRed(c, IsRed(t))
    ensures RedBlackTree(Plug(c, t))
    decreases c
  {
    if c.Frame? {
      PlugRedBlack(c.up, Join(c.side, c.color, c.cell, c.other, t), height + Weight(c.color));
    }
  }

  lemma {:induction false} HeightNonNegative<D>(t: Tree<D>, height: int)
    requires Balanced(t, height)
    ensures height >= 0
    ensures height >= 1 && t.Bin? && t.color == Red ==> t.left.Bin? && t.right.Bin?
  {
    if t.Bin? {
      HeightNonNegative(t.left, height - Weight(t.color));
    }
  }

  /** A red father is not the root; what surrounds it fits one black node higher. */
  lemma RedFather<D>(c: Context<D>, t: Tree<D>, height: int)
    requires Fits(c, t, height) && c.Frame? && c.color == Red
    ensures Balanced(c.other, height) && NoRedRed(c.other) && !IsRed(c.other)
    ensures c.up.Frame? && c.up.color == Black
    ensures Balanced(c.up.other, height) && NoRedRed(c.up.other)
    ensures ContextBalanced(c.up.up, height + 1) && ContextNoRedRed(c.up.up, false)
  {
    assert ContextNoRedRed(c.up, true) && ContextBalanced(c.up, height);
  }

  /** `t` is one black node short in the hole of `c`; everything else is red-black. */
  ghost predicate Light<D>(c: Context<D>, t: Tree<D>, height: int) {
    && Balanced(t, height) && ContextBalanced(c, height + 1)
    && NoRedRed(t) && ContextNoRedRed(c, false) && !IsRed(t)
  }

  /** The surroundings of a subtree that is one black node short: its sibling exists and weighs enough. */
  lemma LightSibling<D>(c: Context<D>, t: Tree<D>, height: int)
    requires Light(c, t, height) && c.Frame?
    ensures height >= 0 && c.other.Bin?
    ensures Balanced(c.other, height + 1) && NoRedRed(c.other)
    ensures ContextBalanced(c.up, height + 1 + Weight(c.color))
    ensures ContextNoRedRed(c.up, c.color == Red) && ContextNoRedRed(c.up, false)
    ensures c.color == Red ==> c.other.color == Black
    ensures c.other.color == Red || height > 0 ==> c.other.left.Bin? && c.other.right.Bin?
    ensures c.other.color == Red ==> c.other.left.color == Black && c.other.right.color == Black
    ensures height == 0 && c.other.color == Black ==>
      && (c.other.left.Bin? ==> c.other.left.color == Red)
      && (c.other.right.Bin? ==> c.other.right.color == Red)
  {
    HeightNonNegative(t, height);
    HeightNonNegative(c.other, height + 1);
    var below := height + 1 - Weight(c.other.color);
    HeightNonNegative(c.other.left, below);
    HeightNonNegative(c.other.right, below);
    LeafHeight(c.other.left, below);
    LeafHeight(c.other.right, below);
  }

  lemma LeafHeight<D>(t: Tree<D>, height: int)
    requires Balanced(t, height)
    ensures t.Nil? ==> height == 0
    ensures height == 0 && t.Bin? ==> t.color == Red
  {
    if t.Bin? {
      HeightNonNegative(t.left, height - Weight(t.color));
    }
  }

  /** The whole tree is red-black; `t` is in the hole of `c`. */
  ghost predicate Sound<D>(c: Context<D>, t: Tree<D>, height: int) {
    Fits(c, t, height) && ContextNoRedRed(c, IsRed(t))
  }

  lemma SoundBelow<D>(c: Context<D>, t: Tree<D>, height: int)
    requires Sound(c, t, height) && t.Bin?
    ensures Sound(Frame(Left, t.color, t.cell, t.right, c), t.left, height - Weight(t.color))
    ensures Sound(Frame(Right, t.color, t.cell, t.left, c), t.right, height - Weight(t.color))
  {
    BlackHoleToo(c, IsRed(t));
    BlackHoleToo(Frame(Left, t.color, t.cell, t.right, c), IsRed(t.left));
    BlackHoleToo(Frame(Right, t.color, t.cell, t.left, c), IsRed(t.right));
  }

  lemma BlackHoleToo<D>(c: Context<D>, holeRed: bool)
    requires ContextNoRedRed(c, holeRed)
    ensures ContextNoRedRed(c, false)
  {
  }

  lemma SoundWhole<D>(t: Tree<D>) returns (height: int)
    requires RedBlackTree(t)
    ensures Sound(Top, t, height)
  {
    height :| Balanced(t, height);
  }

  /** Colours alone decide whether a tree is red-black: two cells may change places. */
  lemma SwapKeepsSound<D>(p: Path<D>, height: int)
    requires Sound(p.Above(), p.Below(), height)
    ensures Sound(p.Swapped().Above(), p.Swapped().Below(), height)
  {
    var base, base' := Frame(p.side, p.cx, p.x, p.l, p.c), Frame(p.side, p.cx, p.y, p.l, p.c);
    CellsDoNotMatter(p.s, base, base', height, false);
    CellsDoNotMatter(p.s, base, base', height, IsRed(p.Below()));
  }

  lemma {:induction false} CellsDoNotMatter<D>(s: Context<D>, base: Context<D>, base': Context<D>, height: int, holeRed: bool)
    requires base.Frame? && base'.Frame? && base' == base.(cell := base'.cell)
    ensures ContextBalanced(Append(s, base), height) <==> ContextBalanced(Append(s, base'), height)
    ensures ContextNoRedRed(Append(s, base), holeRed) <==> ContextNoRedRed(Append(s, base'), holeRed)
  {
    if s.Frame? {
      CellsDoNotMatter(s.up, base, base', height + Weight(s.color), s.color == Red);
    }
  }

  /** Without a red leaf the tree is still sound; without a black one it is one black node short. */
  lemma LeafGone<D>(c: Context<D>, t: Tree<D>, height: int)
    requires Sound(c, t, height) && t.Bin? && t.left.Nil? && t.right.Nil?
    ensures t.color == Red ==> Sound(c, Nil, 0)
    ensures t.color == Black ==> Light(c, Nil, 0)
  {
    assert Balanced(t.left, height - Weight(t.color));
    BlackHoleToo(c, IsRed(t));
  }

  /** The number of frames from the hole to the root. */
  ghost function Depth<D>(c: Context<D>): nat {
    if c.Top? then 0 else 1 + Depth(c.up)
  }
}
