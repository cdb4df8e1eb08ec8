/** Cells in key order, the map they stand for, and what a search from the root may conclude. */
module SearchOrder {
  import opened TreeShape
  import opened RedBlack

  ghost predicate Ascending<D>(s: seq<Cell<D>>) {
    forall i, j :: 0 <= i < j < |s| ==> s[i].key < s[j].key
  }

  /** The map from keys to cells; a cell names its node object as well as its data. */
  ghost function Contents<D>(s: seq<Cell<D>>): map<int, Cell<D>>
    requires Ascending(s)
  {
    map i | 0 <= i < |s| :: s[i].key := s[i]
  }

  /** All keys of `a` are smaller than `key`, all keys of `b` are greater. */
  ghost predicate Bracket<D>(a: seq<Cell<D>>, key: int, b: seq<Cell<D>>) {
    && (forall i :: 0 <= i < |a| ==> a[i].key < key)
    && (forall i :: 0 <= i < |b| ==> key < b[i].key)
  }

  lemma AscendingSplits<D>(a: seq<Cell<D>>, x: Cell<D>, b: seq<Cell<D>>)
    requires Ascending(a + [x] + b)
    ensures Ascending(a) && Ascending(b) && Ascending(a + b) && Bracket(a, x.key, b)
  {
    var s := a + [x] + b;
    assert forall i :: 0 <= i < |a| ==> s[i] == a[i];
    assert s[|a|] == x;
    assert forall i :: 0 <= i < |b| ==> b[i] == s[|a| + 1 + i];
    var r := a + b;
    assert forall i :: 0 <= i < |r| ==> r[i] == s[if i < |a| then i else i + 1];
  }

  lemma AscendingJoins<D>(a: seq<Cell<D>>, x: Cell<D>, b: seq<Cell<D>>)
    requires Ascending(a + b) && Bracket(a, x.key, b)
    ensures Ascending(a + [x] + b)
  {
    var s := a + [x] + b;
    assert forall i :: 0 <= i < |s| && i != |a| ==> s[i] == (a + b)[if i < |a| then i else i - 1];
    assert forall i :: 0 <= i < |a| ==> s[i] == a[i];
    assert forall i :: |a| < i < |s| ==> s[i] == b[i - |a| - 1];
  }

  lemma Entry<D>(s: seq<Cell<D>>, x: Cell<D>)
    requires Ascending(s) && x in s
    ensures x.key in Contents(s) && Contents(s)[x.key] == x
  {
  }

  ghost function CellAt<D>(s: seq<Cell<D>>, key: int): (x: Cell<D>)
    requires Ascending(s) && key in Contents(s)
    ensures x in s && x.key == key
  {
    Contents(s)[key]
  }

  /** Two sequences with the same cells, apart from `x`, stand for the same map, apart from the key of `x`. */
  lemma ContentsMinus<D>(s: seq<Cell<D>>, x: Cell<D>, r: seq<Cell<D>>)
    requires Ascending(s) && Ascending(r) && x in s
    requires forall y :: y in r <==> y in s && y != x
    ensures Contents(r) == Contents(s) - {x.key}
  {
    hide Contents, Ascending;
    Entry(s, x);
    forall key | key in Contents(r)
      ensures key in Contents(s) && key != x.key && Contents(r)[key] == Contents(s)[key]
    {
      Entry(s, CellAt(r, key));
    }
    forall key | key in Contents(s) && key != x.key
      ensures key in Contents(r)
    {
      Entry(r, CellAt(s, key));
    }
  }

  lemma ContentsWithout<D>(a: seq<Cell<D>>, x: Cell<D>, b: seq<Cell<D>>)
    requires Ascending(a + [x] + b)
    ensures Ascending(a + b)
    ensures x.key in Contents(a + [x] + b) && Contents(a + b) == Contents(a + [x] + b) - {x.key}
  {
    var s, r := a + [x] + b, a + b;
    AscendingSplits(a, x, b);
    Entry(s, x);
    forall y
      ensures y in r <==> y in s && y != x
    {
      assert y in r <==> y in a || y in b;
      assert y in s <==> y in a + [x] || y in b;
    }
    hide Contents, Ascending;
    ContentsMinus(s, x, r);
  }

  lemma ContentsWith<D>(a: seq<Cell<D>>, x: Cell<D>, b: seq<Cell<D>>)
    requires Ascending(a + b) && Bracket(a, x.key, b)
    ensures Ascending(a + [x] + b)
    ensures x.key !in Contents(a + b) && Contents(a + [x] + b) == Contents(a + b)[x.key := x]
  {
    AscendingJoins(a, x, b);
    ContentsWithout(a, x, b);
    Entry(a + [x] + b, x);
  }

  /** The map has as many keys as there are cells. */
  lemma {:induction false} ContentsSize<D>(s: seq<Cell<D>>)
    requires Ascending(s)
    ensures |Contents(s)| == |s|
  {
    if s != [] {
      var a, x := s[..|s| - 1], s[|s| - 1];
      assert s == a + [x] + [] && a + [] == a;
      ContentsSize(a);
      assert Bracket(a, x.key, []);
      hide Contents, Ascending, Bracket;
      ContentsWith(a, x, []);
    }
  }

  lemma ContentsUpdated<D>(a: seq<Cell<D>>, x: Cell<D>, x': Cell<D>, b: seq<Cell<D>>)
    requires Ascending(a + [x] + b) && x'.key == x.key
    ensures Ascending(a + [x'] + b)
    ensures Contents(a + [x'] + b) == Contents(a + [x] + b)[x.key := x']
  {
    AscendingSplits(a, x, b);
    ContentsWithout(a, x, b);
    ContentsWith(a, x, b);
    ContentsWith(a, x', b);
  }

  /** A search for `key` has come to the hole of `c`. */
  ghost predicate Searching<D>(c: Context<D>, t: Tree<D>, key: int) {
    Ascending(Order(c, t)) && Bracket(Before(c), key, After(c))
  }

  /** The hole hangs on the side of its father where the key belongs. */
  lemma SideByKey<D>(c: Context<D>, key: int)
    requires Bracket(Before(c), key, After(c)) && c.Frame?
    ensures if c.side == Left then key < c.cell.key else c.cell.key < key
  {
    if c.side == Left {
      assert After(c)[0] == c.cell;
    } else {
      assert Before(c)[|Before(c)| - 1] == c.cell;
    }
  }

  lemma OrderSplits<D>(c: Context<D>, t: Tree<D>)
    requires t.Bin?
    ensures Order(c, t) == (Before(c) + InOrder(t.left)) + [t.cell] + (InOrder(t.right) + After(c))
  {
  }

  lemma ContentsOfRest<D>(c: Context<D>, t: Tree<D>)
    requires Ascending(Order(c, t)) && t.Bin?
    ensures Ascending(Rest(c, t)) && Contents(Rest(c, t)) == Contents(Order(c, t)) - {t.cell.key}
  {
    OrderSplits(c, t);
    ContentsWithout(Before(c) + InOrder(t.left), t.cell, InOrder(t.right) + After(c));
    assert Rest(c, t) == (Before(c) + InOrder(t.left)) + (InOrder(t.right) + After(c));
  }

  lemma BracketMoves<D>(a: seq<Cell<D>>, x: Cell<D>, b: seq<Cell<D>>, key: int)
    requires Bracket(a, x.key, b)
    ensures key < x.key ==> Bracket([], key, [x] + b)
    ensures x.key < key ==> Bracket(a + [x], key, [])
  {
  }

  lemma SearchLeft<D>(c: Context<D>, t: Tree<D>, key: int)
    requires Searching(c, t, key) && t.Bin? && key < t.cell.key
    ensures Searching(Frame(Left, t.color, t.cell, t.right, c), t.left, key)
  {
    var c' := Frame(Left, t.color, t.cell, t.right, c);
    AscendOrder(c', t.left);
    OrderSplits(c, t);
    var b := InOrder(t.right) + After(c);
    assert Before(c') == Before(c) && After(c') == [t.cell] + b;
    AscendingSplits(Before(c) + InOrder(t.left), t.cell, b);
    hide Ascending, InOrder, Before, After;
    BracketMoves(Before(c) + InOrder(t.left), t.cell, b, key);
  }

  lemma SearchRight<D>(c: Context<D>, t: Tree<D>, key: int)
    requires Searching(c, t, key) && t.Bin? && key > t.cell.key
    ensures Searching(Frame(Right, t.color, t.cell, t.left, c), t.right, key)
  {
    var c' := Frame(Right, t.color, t.cell, t.left, c);
    AscendOrder(c', t.right);
    OrderSplits(c, t);
    var a := Before(c) + InOrder(t.left);
    assert Before(c') == a + [t.cell] && After(c') == After(c);
    AscendingSplits(a, t.cell, InOrder(t.right) + After(c));
    hide Ascending, InOrder, Before, After;
    BracketMoves(a, t.cell, InOrder(t.right) + After(c), key);
  }

  lemma SearchEnd<D>(c: Context<D>, t: Tree<D>, key: int)
    requires Searching(c, t, key)
    ensures t.Nil? ==> key !in Contents(Order(c, t))
    ensures t.Bin? && t.cell.key == key ==> key in Contents(Order(c, t)) && Contents(Order(c, t))[key] == t.cell
  {
    var s := Order(c, t);
    if t.Bin? {
      var i := |Before(c)| + |InOrder(t.left)|;
      assert s[i] == t.cell;
    } else {
      assert s == Before(c) + After(c);
    }
  }

  // ----- How deep a red-black tree is -----

  ghost function Height<D>(t: Tree<D>): nat {
    match t
    case Nil => 0
    case Bin(l, _, _, r) => 1 + if Height(l) >= Height(r) then Height(l) else Height(r)
  }

  ghost function Pow2(n: nat): nat {
    if n == 0 then 1 else 2 * Pow2(n - 1)
  }

  lemma {:induction false} HeightBound<D>(t: Tree<D>, height: int)
    requires Balanced(t, height) && NoRedRed(t)
    ensures height >= 0 && Height(t) <= 2 * height + if IsRed(t) then 1 else 0
  {
    if t.Bin? {
      HeightBound(t.left, height - Weight(t.color));
      HeightBound(t.right, height - Weight(t.color));
    }
  }

  lemma {:induction false} SizeBound<D>(t: Tree<D>, height: nat)
    requires Balanced(t, height)
    ensures |InOrder(t)| + 1 >= Pow2(height)
  {
    if t.Bin? {
      HeightNonNegative(t.left, height - Weight(t.color));
      SizeBound(t.left, height - Weight(t.color));
      SizeBound(t.right, height - Weight(t.color));
    }
  }

  lemma {:induction false} Pow2Sum(m: nat, n: nat)
    ensures Pow2(m + n) == Pow2(m) * Pow2(n)
  {
    if m > 0 {
      Pow2Sum(m - 1, n);
    }
  }

  lemma {:induction false} Pow2Grows(m: nat, n: nat)
    requires m <= n
    ensures Pow2(m) <= Pow2(n)
    decreases n
  {
    if m < n {
      Pow2Grows(m, n - 1);
    }
  }

  /** A path of a red-black tree with n cells is at most 2 * log2(n + 1) nodes long. */
  lemma LogarithmicHeight<D>(t: Tree<D>, steps: nat)
    requires RedBlackTree(t) && steps <= Height(t)
    ensures Pow2(steps) <= (|InOrder(t)| + 1) * (|InOrder(t)| + 1)
  {
    var height :| Balanced(t, height);
    HeightBound(t, height);
    SizeBound(t, height);
    Pow2Grows(steps, height + height);
    Pow2Sum(height, height);
    Squares(Pow2(height), |InOrder(t)| + 1);
  }

  lemma Squares(a: nat, b: nat)
    requires a <= b
    ensures a * a <= b * b
  {
    assert a * a <= a * b <= b * b;
  }
}
