/** Doubly linked lists whose nodes are embedded in the objects they link. */
module LinkedLists {

  /** `owner` is the object the node is embedded in. */
  class LinkedListNode<T> {
    var prev: LinkedListNode?<T>
    var next: LinkedListNode?<T>
    const owner: T

    constructor (owner: T)
      ensures this.owner == owner && prev == null && next == null
    {
      this.owner, prev, next := owner, null, null;
    }
  }

  class LinkedList<T> {
    var head: LinkedListNode?<T>
    var tail: LinkedListNode?<T>
    var length: int
    /** The nodes from head to tail. */
    ghost var contents: seq<LinkedListNode<T>>

    /** The node before and the node after the gap in front of place `i`. */
    static ghost function Before(c: seq<LinkedListNode<T>>, i: nat): LinkedListNode?<T>
      requires i <= |c|
    {
      if i == 0 then null else c[i - 1]
    }

    static ghost function After(c: seq<LinkedListNode<T>>, i: nat): LinkedListNode?<T>
      requires i <= |c|
    {
      if i == |c| then null else c[i]
    }

    static ghost predicate Distinct(c: seq<LinkedListNode<T>>) {
      forall i, j :: 0 <= i < j < |c| ==> c[i] != c[j]
    }

    /** The links of the nodes of `c` read `prevs` and `nexts`. */
    static ghost predicate Reads(c: seq<LinkedListNode<T>>, prevs: seq<LinkedListNode?<T>>, nexts: seq<LinkedListNode?<T>>)
      reads c
    {
      |prevs| == |nexts| == |c| && forall i :: 0 <= i < |c| ==> c[i].prev == prevs[i] && c[i].next == nexts[i]
    }

    /** Links as they are in a chain of the nodes of `c`. */
    static ghost function Prevs(c: seq<LinkedListNode<T>>): (r: seq<LinkedListNode?<T>>)
      ensures |r| == |c|
    {
      seq(|c|, i requires 0 <= i < |c| => Before(c, i))
    }

    static ghost function Nexts(c: seq<LinkedListNode<T>>): (r: seq<LinkedListNode?<T>>)
      ensures |r| == |c|
    {
      seq(|c|, i requires 0 <= i < |c| => After(c, i + 1))
    }

    static ghost predicate Chained(c: seq<LinkedListNode<T>>)
      reads c
    {
      Distinct(c) && Reads(c, Prevs(c), Nexts(c))
    }

    /** The links after a node has been put into the gap in front of place `k`. */
    static lemma ChainWith(c: seq<LinkedListNode<T>>, k: nat, node: LinkedListNode<T>)
      requires k <= |c| && Distinct(c) && node !in c
      ensures var c' := c[..k] + [node] + c[k..];
        && Distinct(c')
        && (forall i {:trigger Prevs(c')[i]} :: 0 <= i <= |c| ==>
              Prevs(c')[i] == if i < k then Prevs(c)[i] else if i == k then Before(c, k) else if i == k + 1 then node else Prevs(c)[i - 1])
        && (forall i {:trigger Nexts(c')[i]} :: 0 <= i <= |c| ==>
              Nexts(c')[i] == if i < k - 1 then Nexts(c)[i] else if i == k - 1 then node else if i == k then After(c, k) else Nexts(c)[i - 1])
    {
    }

    /** The links after the node at place `k` has been taken out. */
    static lemma ChainWithout(c: seq<LinkedListNode<T>>, k: nat)
      requires k < |c| && Distinct(c)
      ensures var c' := c[..k] + c[k + 1..];
        && Distinct(c')
        && (forall i {:trigger Prevs(c')[i]} :: 0 <= i < |c| - 1 ==>
              Prevs(c')[i] == if i < k then Prevs(c)[i] else if i == k then Before(c, k) else Prevs(c)[i + 1])
        && (forall i {:trigger Nexts(c')[i]} :: 0 <= i < |c| - 1 ==>
              Nexts(c')[i] == if i < k - 1 then Nexts(c)[i] else if i == k - 1 then After(c, k + 1) else Nexts(c)[i + 1])
    {
    }

    /** The links spell out `contents`; nothing is said about `length`, which `Clear` leaves alone. */
    ghost predicate Valid()
      reads this, contents
    {
      Chained(contents) && head == After(contents, 0) && tail == Before(contents, |contents|)
    }

    constructor ()
      ensures Valid() && contents == [] && length == 0
    {
      head, tail, length, contents := null, null, 0, [];
    }

    /** What the links of the node at place `k` say, and that no other node is that node. */
    lemma At(k: nat)
      requires Valid() && k < |contents|
      ensures var n := contents[k];
        && (n == head <==> k == 0) && (n == tail <==> k == |contents| - 1)
        && n.prev == Before(contents, k) && n.next == After(contents, k + 1)
        && forall i :: 0 <= i < |contents| && i != k ==> contents[i] != n
    {
      assert contents[k].prev == Prevs(contents)[k] && contents[k].next == Nexts(contents)[k];
    }

    method Append(node: LinkedListNode<T>)
      requires Valid() && node !in contents
      modifies this, node, tail
      ensures Valid() && contents == old(contents) + [node] && length == old(length) + 1
    {
      hide Distinct, Prevs, Nexts;
      ghost var c, n := contents, |contents|;
      ChainWith(c, n, node);
      if n > 0 {
        At(n - 1);
      }
      if tail != null {
        tail.next := node;
        node.prev := tail;
        node.next := null;
        tail := node;
      } else {
        node.prev, node.next := null, null;
        head, tail := node, node;
      }
      length := length + 1;
      contents := c[..n] + [node] + c[n..];
      assert contents == c + [node];
    }

    /** `v` are the verdicts on the gaps from the first to the last. */
    static ghost predicate Judges(judge: (LinkedListNode?<T>, LinkedListNode?<T>) ~> int, c: seq<LinkedListNode<T>>, v: seq<int>)
      requires forall i :: 0 <= i <= |c| ==> judge.requires(Before(c, i), After(c, i))
      reads set i, o | 0 <= i <= |c| && o in judge.reads(Before(c, i), After(c, i)) :: o
    {
      |v| == |c| + 1 && forall i :: 0 <= i <= |c| ==> judge(Before(c, i), After(c, i)) == v[i]
    }

    /** The first gap with verdict 0, unless a gap before it has a negative verdict. */
    static ghost predicate Accepts(v: seq<int>, place: nat) {
      place < |v| && v[place] == 0 && forall i :: 0 <= i < place ==> v[i] > 0
    }

    method InsertWhen(node: LinkedListNode<T>, judge: (LinkedListNode?<T>, LinkedListNode?<T>) ~> int, ghost v: seq<int>)
        returns (ghost place: int)
      requires Valid() && node !in contents
      requires forall i :: 0 <= i <= |contents| ==> judge.requires(Before(contents, i), After(contents, i))
      requires Judges(judge, contents, v)
      modifies this, node, contents
      ensures Valid()
      ensures place >= 0 ==> Accepts(v, place)
      ensures place >= 0 ==> contents == old(contents[..place] + [node] + contents[place..]) && length == old(length) + 1
      ensures place < 0 ==> contents == old(contents) && length == old(length) && forall i: nat :: !Accepts(v, i)
    {
      hide Distinct, Prevs, Nexts;
      var accepted, prev, next, k := FindGap(judge, v);
      place := if accepted then k else -1;
      if accepted {
        Link(node, prev, next, k);
      }
    }

    /** The walk over the gaps, from the head on. */
    method FindGap(judge: (LinkedListNode?<T>, LinkedListNode?<T>) ~> int, ghost v: seq<int>)
        returns (accepted: bool, prev: LinkedListNode?<T>, next: LinkedListNode?<T>, ghost k: nat)
      requires Valid()
      requires forall i :: 0 <= i <= |contents| ==> judge.requires(Before(contents, i), After(contents, i))
      requires Judges(judge, contents, v)
      ensures Valid()
      ensures accepted ==> Accepts(v, k) && prev == Before(contents, k) && next == After(contents, k)
      ensures !accepted ==> forall i: nat :: !Accepts(v, i)
    {
      hide Distinct, Prevs, Nexts;
      Ends();
      prev, next, k := null, head, 0;
      while true
        invariant k <= |contents| && prev == Before(contents, k) && next == After(contents, k)
        invariant forall i :: 0 <= i < k ==> v[i] > 0
        decreases |contents| - k
      {
        var judgement := judge(prev, next);
        assert judgement == v[k];
        if judgement == 0 {
          return true, prev, next, k;
        } else if judgement < 0 {
          return false, prev, next, k;
        }
        if k < |contents| {
          At(k);
        }
        prev := next;
        if next != null {
          next := next.next;
        }
        if prev == null && next == null {
          return false, prev, next, k;
        }
        k := k + 1;
      }
    }

    method Link(node: LinkedListNode<T>, prev: LinkedListNode?<T>, next: LinkedListNode?<T>, ghost k: nat)
      requires Valid() && node !in contents && k <= |contents| && prev == Before(contents, k) && next == After(contents, k)
      modifies this, node, contents
      ensures Valid() && contents == old(contents[..k] + [node] + contents[k..]) && length == old(length) + 1
    {
      hide Distinct, Prevs, Nexts;
      ghost var c, n := contents, |contents|;
      ChainWith(c, k, node);
      if k > 0 {
        At(k - 1);
      }
      if k < n {
        At(k);
      }
      length := length + 1;
      if prev != null && next != null {
        prev.next := node;
        next.prev := node;
        node.prev := prev;
        node.next := next;
      } else if prev != null {
        prev.next := node;
        tail := node;
        node.next := null;
        node.prev := prev;
      } else if next != null {
        next.prev := node;
        head := node;
        node.next := next;
        node.prev := null;
      } else {
        head, tail := node, node;
        node.prev, node.next := null, null;
      }
      contents := c[..k] + [node] + c[k..];
    }

    method Remove(node: LinkedListNode<T>, ghost k: nat)
      requires Valid() && k < |contents| && contents[k] == node
      modifies this, contents
      ensures Valid() && contents == old(contents[..k] + contents[k + 1..]) && length == old(length) - 1
    {
      hide Distinct, Prevs, Nexts;
      ghost var c, n := contents, |contents|;
      ChainWithout(c, k);
      At(k);
      if k > 0 {
        At(k - 1);
      }
      if k < n - 1 {
        At(k + 1);
      }
      if node == head && node == tail {
        head, tail := null, null;
      } else if node == head {
        head.next.prev := null;
        head := head.next;
      } else if node == tail {
        tail.prev.next := null;
        tail := tail.prev;
      } else {
        node.prev.next := node.next;
        node.next.prev := node.prev;
      }
      length := length - 1;
      contents := c[..k] + c[k + 1..];
    }

    method RemoveFirst() returns (first: LinkedListNode?<T>)
      requires Valid()
      modifies this, contents
      ensures Valid()
      ensures old(contents) == [] ==> first == null && contents == [] && length == old(length)
      ensures old(contents) != [] ==> first == old(contents[0]) && contents == old(contents[1..]) && length == old(length) - 1
    {
      first := null;
      if head != null {
        length := length - 1;
        first := head;
        if head == tail {
          head, tail := null, null;
        } else {
          head.next.prev := null;
          head := head.next;
        }
        contents := contents[1..];
      }
    }

    lemma Ends()
      requires Valid()
      ensures contents == [] ==> head == null && tail == null
      ensures contents != [] ==> head == contents[0] && tail == contents[|contents| - 1]
    {
    }

    /** The node at a place below `length`; walks from the nearer end. */
    method Get(index: int) returns (node: LinkedListNode?<T>)
      requires Valid() && length == |contents| && index >= 0
      ensures node == if index < |contents| then contents[index] else null
    {
      hide Valid;
      Ends();
      if index < length {
        if index < length / 2 {
          var counter := index;
          node := head;
          while counter != 0
            invariant 0 <= counter <= index && node == contents[index - counter]
          {
            At(index - counter);
            node := node.next;
            counter := counter - 1;
          }
        } else {
          var counter := length - index - 1;
          node := tail;
          while counter != 0
            invariant 0 <= counter <= length - index - 1 && node == contents[index + counter]
          {
            At(index + counter);
            node := node.prev;
            counter := counter - 1;
          }
        }
      } else {
        node := null;
      }
    }

    method IndexOf(node: LinkedListNode<T>) returns (index: int)
      requires Valid()
      ensures if node in contents then 0 <= index < |contents| && contents[index] == node else index == -1
    {
      var curr := head;
      var counter := 0;
      while curr != null && curr != node
        invariant 0 <= counter <= |contents| && curr == After(contents, counter) && node !in contents[..counter]
        decreases |contents| - counter
      {
        counter := counter + 1;
        curr := curr.next;
      }
      return if curr != null then counter else -1;
    }

    method Clear()
      requires Valid()
      modifies `head, `tail, `contents
      ensures Valid() && contents == []
    {
      head, tail := null, null;
      contents := [];
    }
  }
}
