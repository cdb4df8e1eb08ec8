/** The free blocks as a table, and what freeing and allocating do to the set of free bytes. */
module FreeTable {
  import opened BlockTree
  import opened DoubleLinkedTrees

  const PAGE_SIZE := 4096

  datatype Block = Block(address: int, size: int)
  {
    function End(): int {
      address + size
    }
  }

  /** Which node stands for which free block. */
  type Table = map<TreeNode, Block>

  ghost predicate Within(b: int, address: int, size: int) {
    address <= b < address + size
  }

  ghost function Range(address: int, size: int): iset<int> {
    iset b | Within(b, address, size)
  }

  ghost predicate Covered(m: Table, b: int) {
    exists n :: n in m && Within(b, m[n].address, m[n].size)
  }

  ghost function Bytes(m: Table): iset<int> {
    iset b | Covered(m, b)
  }

  lemma BytesWith(m: Table, n: TreeNode, k: Block)
    ensures Bytes(m[n := k]) == Bytes(m - {n}) + Range(k.address, k.size)
  {
    var m' := m[n := k];
    forall b
      ensures Covered(m', b) <==> Covered(m - {n}, b) || Within(b, k.address, k.size)
    {
      if Covered(m - {n}, b) {
        var j: TreeNode :| j in m - {n} && Within(b, m[j].address, m[j].size);
        assert j in m' && m'[j] == m[j];
      }
      if Within(b, k.address, k.size) {
        assert n in m' && m'[n] == k;
      }
      if Covered(m', b) {
        var j: TreeNode :| j in m' && Within(b, m'[j].address, m'[j].size);
        assert j == n || j in m - {n};
      }
    }
  }

  lemma BytesWithout(m: Table, n: TreeNode)
    requires n in m
    ensures Bytes(m) == Bytes(m - {n}) + Range(m[n].address, m[n].size)
    ensures WellSpaced(m) ==> Bytes(m - {n}) !! Range(m[n].address, m[n].size) && WellSpaced(m - {n})
  {
    BytesWith(m, n, m[n]);
    assert m == m[n := m[n]];
  }

  /** Two ranges that touch make one. */
  lemma Adjoin(address: int, size: int, size': int)
    requires 0 <= size && 0 <= size'
    ensures Range(address, size) + Range(address + size, size') == Range(address, size + size')
    ensures Range(address, size) !! Range(address + size, size')
  {
  }

  ghost predicate Sensible(b: Block) {
    0 <= b.address && 0 < b.size && b.End() < LIMIT
  }

  /** Blocks neither overlap nor touch. */
  ghost predicate WellSpaced(m: Table) {
    && (forall n :: n in m ==> Sensible(m[n]))
    && (forall n, n' :: n in m && n' in m && n != n' ==> m[n].End() < m[n'].address || m[n'].End() < m[n].address)
  }

  /** `less` is the last block that starts at `address` or before, `more` the first one at `address` or after. */
  ghost predicate Neighbours(m: Table, address: int, less: TreeNode?, more: TreeNode?) {
    && (if less == null then forall n :: n in m ==> m[n].address > address
        else less in m && m[less].address <= address
             && forall n :: n in m && m[n].address <= address ==> m[n].address <= m[less].address)
    && (if more == null then forall n :: n in m ==> m[n].address < address
        else more in m && m[more].address >= address
             && forall n :: n in m && m[n].address >= address ==> m[more].address <= m[n].address)
  }

  /** The range fits into the gap between its neighbours. */
  ghost predicate Fits(m: Table, address: int, size: int, less: TreeNode?, more: TreeNode?) {
    && Neighbours(m, address, less, more)
    && (less != null ==> m[less].End() <= address)
    && (more != null ==> address + size <= m[more].address)
  }

  /** The bytes of a range that freeing it adds: those with no block at or before them except blocks that have begun
      by `address` and are over. */
  ghost predicate Joins(m: Table, address: int, size: int, b: int) {
    Within(b, address, size) && forall n :: n in m && m[n].address <= b ==> m[n].address <= address && m[n].End() <= b
  }

  ghost function Added(m: Table, address: int, size: int): iset<int> {
    iset b | Joins(m, address, size, b)
  }

  /** A block begins inside the range and ends inside it, too. */
  ghost predicate Swallows(m: Table, address: int, size: int, n: TreeNode)
    requires n in m
  {
    address < m[n].address && m[n].End() < address + size
  }

  /** A block begins where the range begins and ends before it. */
  ghost predicate Underruns(m: Table, address: int, size: int) {
    exists n :: n in m && m[n].address == address && m[n].End() < address + size
  }

  /** Freeing a range makes all of it free exactly when it swallows no free block. */
  lemma AddedIsAll(m: Table, address: int, size: int)
    requires WellSpaced(m) && !Underruns(m, address, size)
    ensures Bytes(m) + Added(m, address, size) == Bytes(m) + Range(address, size)
            <==> forall n :: n in m ==> !Swallows(m, address, size, n)
  {
    if n: TreeNode :| n in m && Swallows(m, address, size, n) {
      var b := m[n].End();
      assert b in Range(address, size) && !Joins(m, address, size, b);
      assert !Covered(m, b);
    } else {
      forall b | b in Range(address, size) && !Covered(m, b)
        ensures Joins(m, address, size, b)
      {
        forall n | n in m && m[n].address <= b
          ensures m[n].address <= address && m[n].End() <= b
        {
          assert !Within(b, m[n].address, m[n].size) && !Swallows(m, address, size, n);
        }
      }
      assert forall b :: b in Bytes(m) + Added(m, address, size) <==> b in Bytes(m) + Range(address, size);
    }
  }

  /** A range apart from all blocks is added whole. */
  lemma DisjointAdded(m: Table, address: int, size: int)
    requires WellSpaced(m) && Bytes(m) !! Range(address, size) && size > 0
    ensures Added(m, address, size) == Range(address, size) && !Underruns(m, address, size)
  {
    forall n | n in m && m[n].address < address + size
      ensures m[n].End() <= address
    {
      var b := if m[n].address < address then address else m[n].address;
      assert b in Range(address, size) && !Covered(m, b) && !Within(b, m[n].address, m[n].size);
    }
  }

  ghost predicate Covers(m: Table, address: int, size: int, less: TreeNode?)
    requires less != null ==> less in m
  {
    less != null && m[less].End() >= address + size
  }

  /** Where the range begins and ends once it is cut to fit between its neighbours. */
  ghost function CutBegin(m: Table, address: int, less: TreeNode?): int
    requires less != null ==> less in m
  {
    if less != null && m[less].End() > address then m[less].End() else address
  }

  ghost function CutEnd(m: Table, end: int, more: TreeNode?): int
    requires more != null ==> more in m
  {
    if more != null && m[more].address < end then m[more].address else end
  }

  lemma CutFits(m: Table, address: int, size: int, less: TreeNode?, more: TreeNode?)
    requires WellSpaced(m) && Neighbours(m, address, less, more) && size > 0 && !Underruns(m, address, size)
    ensures Covers(m, address, size, less) ==> Added(m, address, size) == iset{}
    ensures !Covers(m, address, size, less) ==>
              var a, e := CutBegin(m, address, less), CutEnd(m, address + size, more);
              a < e && Fits(m, a, e - a, less, more) && Range(a, e - a) == Added(m, address, size)
              && address <= a && e <= address + size && (more != null ==> a != m[more].address)
  {
    if Covers(m, address, size, less) {
      assert m[less].address <= address;
      assert forall b :: !Joins(m, address, size, b);
    } else {
      CutNeighbours(m, address, size, less, more);
      forall b
        ensures Joins(m, address, size, b) <==> Within(b, CutBegin(m, address, less), CutEnd(m, address + size, more) - CutBegin(m, address, less))
      {
        CutJoins(m, address, size, less, more, b);
      }
    }
  }

  /** Exactly the bytes of the cut range join. */
  lemma CutJoins(m: Table, address: int, size: int, less: TreeNode?, more: TreeNode?, b: int)
    requires WellSpaced(m) && Neighbours(m, address, less, more) && size > 0 && !Covers(m, address, size, less)
    requires var a, e := CutBegin(m, address, less), CutEnd(m, address + size, more); a < e && Fits(m, a, e - a, less, more)
    ensures var a, e := CutBegin(m, address, less), CutEnd(m, address + size, more);
            Joins(m, address, size, b) <==> Within(b, a, e - a)
  {
    var a, e := CutBegin(m, address, less), CutEnd(m, address + size, more);
    if Within(b, a, e - a) {
      forall n | n in m && m[n].address <= b
        ensures m[n].address <= address && m[n].End() <= b
      {
        Between(m, a, e - a, less, more, n);
      }
    }
  }

  lemma CutNeighbours(m: Table, address: int, size: int, less: TreeNode?, more: TreeNode?)
    requires WellSpaced(m) && Neighbours(m, address, less, more) && size > 0 && !Underruns(m, address, size)
    requires !Covers(m, address, size, less)
    ensures var a, e := CutBegin(m, address, less), CutEnd(m, address + size, more);
            a < e && Fits(m, a, e - a, less, more) && (more != null ==> a != m[more].address)
  {
    assert less == null || less != more;
    assert more != null && less != null ==> m[less].End() < m[more].address;
  }

  ghost predicate TouchesLeft(m: Table, address: int, less: TreeNode?)
    requires less != null ==> less in m
  {
    less != null && m[less].End() == address
  }

  ghost predicate TouchesRight(m: Table, end: int, more: TreeNode?)
    requires more != null ==> more in m
  {
    more != null && m[more].address == end
  }

  /** The table after the range has joined the blocks it touches; `spare` stands for it if it touches none. */
  ghost function Freed(m: Table, address: int, size: int, less: TreeNode?, more: TreeNode?, spare: TreeNode): Table
    requires Neighbours(m, address, less, more)
  {
    if TouchesLeft(m, address, less) then
      if TouchesRight(m, address + size, more) then
        (m - {less})[more := Block(m[less].address, m[less].size + size + m[more].size)]
      else m[less := Block(m[less].address, m[less].size + size)]
    else if TouchesRight(m, address + size, more) then m[more := Block(address, size + m[more].size)]
    else m[spare := Block(address, size)]
  }

  lemma Between(m: Table, address: int, size: int, less: TreeNode?, more: TreeNode?, n: TreeNode)
    requires WellSpaced(m) && Fits(m, address, size, less, more) && size > 0 && n in m
    ensures n == less ==> m[n].End() <= address
    ensures n != less ==> m[n].address > address || (less != null && less in m && m[n].End() < m[less].address)
    ensures n != less && m[n].address > address ==> more != null && more in m && (n == more || m[more].End() < m[n].address)
    ensures n == more ==> address + size <= m[n].address
    ensures less != null ==> less != more
  {
  }

  lemma FreedBytes(m: Table, address: int, size: int, less: TreeNode?, more: TreeNode?, spare: TreeNode)
    requires WellSpaced(m) && Fits(m, address, size, less, more) && size > 0
    requires spare !in m || TouchesLeft(m, address, less) || TouchesRight(m, address + size, more)
    ensures Bytes(Freed(m, address, size, less, more, spare)) == Bytes(m) + Range(address, size)
  {
    hide Bytes, Range;
    if TouchesLeft(m, address, less) {
      var l := m[less];
      BytesWithout(m, less);
      Adjoin(l.address, l.size, size);
      if TouchesRight(m, address + size, more) {
        var m1, r := m - {less}, m[more];
        BytesWithout(m1, more);
        BytesWith(m1, more, Block(l.address, l.size + size + r.size));
        Adjoin(l.address, l.size + size, r.size);
      } else {
        BytesWith(m, less, Block(l.address, l.size + size));
      }
    } else if TouchesRight(m, address + size, more) {
      BytesWithout(m, more);
      BytesWith(m, more, Block(address, size + m[more].size));
      Adjoin(address, size, m[more].size);
    } else {
      BytesWith(m, spare, Block(address, size));
      assert m - {spare} == m;
    }
  }

  /** Where the joined block begins and ends. */
  ghost function Low(m: Table, address: int, less: TreeNode?): int
    requires less != null ==> less in m
  {
    if TouchesLeft(m, address, less) then m[less].address else address
  }

  ghost function High(m: Table, end: int, more: TreeNode?): int
    requires more != null ==> more in m
  {
    if TouchesRight(m, end, more) then m[more].End() else end
  }

  lemma JoinedApart(m: Table, address: int, size: int, less: TreeNode?, more: TreeNode?, n: TreeNode)
    requires WellSpaced(m) && Fits(m, address, size, less, more) && n in m && 0 < size
    requires !(TouchesLeft(m, address, less) && n == less) && !(TouchesRight(m, address + size, more) && n == more)
    ensures m[n].End() < Low(m, address, less) || High(m, address + size, more) < m[n].address
  {
    Between(m, address, size, less, more, n);
  }

  lemma JoinedSensible(m: Table, address: int, size: int, less: TreeNode?, more: TreeNode?)
    requires WellSpaced(m) && Fits(m, address, size, less, more) && 0 < size && 0 <= address && address + size < LIMIT
    ensures Sensible(Block(Low(m, address, less), High(m, address + size, more) - Low(m, address, less)))
    ensures less != null ==> WellSpaced(m - {less})
  {
  }

  lemma FreedWellSpaced(m: Table, address: int, size: int, less: TreeNode?, more: TreeNode?, spare: TreeNode)
    requires WellSpaced(m) && Fits(m, address, size, less, more)
    requires spare !in m || TouchesLeft(m, address, less) || TouchesRight(m, address + size, more)
    requires 0 < size && 0 <= address && address + size < LIMIT
    ensures WellSpaced(Freed(m, address, size, less, more, spare))
  {
    var joined := Block(Low(m, address, less), High(m, address + size, more) - Low(m, address, less));
    JoinedSensible(m, address, size, less, more);
    assert (less != null ==> less in m) && (more != null ==> more in m);
    hide WellSpaced, Neighbours, Sensible;
    forall n | n in m && !(TouchesLeft(m, address, less) && n == less) && !(TouchesRight(m, address + size, more) && n == more)
      ensures m[n].End() < joined.address || joined.End() < m[n].address
    {
      JoinedApart(m, address, size, less, more, n);
    }
    JoinedWith(m, address, size, less, more, spare, joined);
  }

  lemma JoinedWith(m: Table, address: int, size: int, less: TreeNode?, more: TreeNode?, spare: TreeNode, joined: Block)
    requires WellSpaced(m) && Neighbours(m, address, less, more) && Sensible(joined)
    requires joined == Block(Low(m, address, less), High(m, address + size, more) - Low(m, address, less))
    requires less != null ==> WellSpaced(m - {less})
    requires forall n ::
               n in m && !(TouchesLeft(m, address, less) && n == less) && !(TouchesRight(m, address + size, more) && n == more)
               ==> m[n].End() < joined.address || joined.End() < m[n].address
    ensures WellSpaced(Freed(m, address, size, less, more, spare))
  {
    var t := Freed(m, address, size, less, more, spare);
    if TouchesLeft(m, address, less) && TouchesRight(m, address + size, more) {
      assert t == (m - {less})[more := joined];
      hide *;
      WellSpacedWith(m - {less}, more, joined);
    } else if TouchesLeft(m, address, less) {
      assert t == m[less := joined];
      hide *;
      WellSpacedWith(m, less, joined);
    } else {
      var k := if TouchesRight(m, address + size, more) then more else spare;
      assert t == m[k := joined];
      hide *;
      WellSpacedWith(m, k, joined);
    }
  }

  lemma WellSpacedWith(m: Table, n: TreeNode, b: Block)
    requires WellSpaced(m) && Sensible(b)
    requires forall j :: j in m && j != n ==> m[j].End() < b.address || b.End() < m[j].address
    ensures WellSpaced(m[n := b])
  {
  }

  /** The last `size` bytes of the block of `n` are taken. */
  ghost function Taken(m: Table, n: TreeNode, size: int): Table
    requires n in m
  {
    if m[n].size == size then m - {n} else m[n := Block(m[n].address, m[n].size - size)]
  }

  lemma TakenBytes(m: Table, n: TreeNode, size: int)
    requires WellSpaced(m) && n in m && 0 <= size <= m[n].size
    ensures Bytes(Taken(m, n, size)) == Bytes(m) - Range(m[n].End() - size, size)
    ensures Range(m[n].End() - size, size) <= Bytes(m)
  {
    var k := m[n];
    BytesWithout(m, n);
    BytesWith(m, n, Block(k.address, k.size - size));
    Adjoin(k.address, k.size - size, size);
    hide Bytes, Range;
    var rest, head, tail := Bytes(m - {n}), Range(k.address, k.size - size), Range(k.End() - size, size);
    assert Bytes(m) == rest + (head + tail) && rest !! head + tail && head !! tail;
    if size == k.size {
      Nothing(k.address);
    }
  }

  lemma Nothing(address: int)
    ensures Range(address, 0) == iset{}
  {
  }

  lemma TakenWellSpaced(m: Table, n: TreeNode, size: int)
    requires WellSpaced(m) && n in m && 0 <= size <= m[n].size
    ensures WellSpaced(Taken(m, n, size))
  {
  }

  /** Another node stands for the same block. */
  ghost function Passed(m: Table, src: TreeNode, dest: TreeNode): Table
    requires src in m
  {
    (m - {src})[dest := m[src]]
  }

  lemma PassedBytes(m: Table, src: TreeNode, dest: TreeNode)
    requires src in m && dest !in m
    ensures Bytes(Passed(m, src, dest)) == Bytes(m)
    ensures Total(Passed(m, src, dest)) == Total(m)
  {
    hide Bytes, Range;
    var m1 := m - {src};
    BytesWithout(m, src);
    BytesWith(m1, dest, m[src]);
    assert m1 - {dest} == m1;
    TotalWithout(m, src);
    TotalWith(m1, dest, m[src]);
  }

  lemma PassedWellSpaced(m: Table, src: TreeNode, dest: TreeNode)
    requires WellSpaced(m) && src in m && dest !in m
    ensures WellSpaced(Passed(m, src, dest))
  {
  }

  // ----- The sum of all sizes -----

  ghost function Total(m: Table): int
    decreases |m|
  {
    if m == map[] then 0
    else
      var n: TreeNode :| n in m;
      assert |m - {n}| < |m| by { Smaller(m, n); }
      m[n].size + Total(m - {n})
  }

  lemma Smaller(m: Table, n: TreeNode)
    requires n in m
    ensures |m - {n}| < |m|
  {
    assert m.Keys == (m - {n}).Keys + {n};
  }

  lemma {:induction false} TotalWithout(m: Table, n: TreeNode)
    requires n in m
    ensures Total(m) == m[n].size + Total(m - {n})
    decreases |m|
  {
    var k: TreeNode :| k in m && Total(m) == m[k].size + Total(m - {k});
    if k != n {
      Smaller(m, k);
      Smaller(m, n);
      TotalWithout(m - {k}, n);
      TotalWithout(m - {n}, k);
      assert m - {k} - {n} == m - {n} - {k};
    }
  }

  lemma TotalWith(m: Table, n: TreeNode, b: Block)
    ensures Total(m[n := b]) == b.size + Total(m - {n})
  {
    TotalWithout(m[n := b], n);
    assert m[n := b] - {n} == m - {n};
  }

  lemma FreedTotal(m: Table, address: int, size: int, less: TreeNode?, more: TreeNode?, spare: TreeNode)
    requires WellSpaced(m) && Fits(m, address, size, less, more) && size > 0
    requires spare !in m || TouchesLeft(m, address, less) || TouchesRight(m, address + size, more)
    ensures Total(Freed(m, address, size, less, more, spare)) == Total(m) + size
  {
    hide Total;
    if TouchesLeft(m, address, less) {
      Between(m, address, size, less, more, less);
      hide WellSpaced, Neighbours;
      TotalWithout(m, less);
      if TouchesRight(m, address + size, more) {
        TotalWithout(m - {less}, more);
        TotalWith(m - {less}, more, Block(m[less].address, m[less].size + size + m[more].size));
      } else {
        TotalWith(m, less, Block(m[less].address, m[less].size + size));
      }
    } else if TouchesRight(m, address + size, more) {
      TotalWithout(m, more);
      TotalWith(m, more, Block(address, size + m[more].size));
    } else {
      TotalWith(m, spare, Block(address, size));
      assert m - {spare} == m;
    }
  }

  lemma TakenTotal(m: Table, n: TreeNode, size: int)
    requires n in m
    ensures Total(Taken(m, n, size)) == Total(m) - size
  {
    TotalWithout(m, n);
    TotalWith(m, n, Block(m[n].address, m[n].size - size));
  }

  // ----- Whole pages -----

  ghost predicate Aligned(x: int) {
    x % PAGE_SIZE == 0
  }

  ghost predicate PageSized(m: Table) {
    forall n :: n in m ==> Aligned(m[n].address) && Aligned(m[n].size)
  }

  lemma AlignedSum(x: int, y: int)
    requires Aligned(x) && Aligned(y)
    ensures Aligned(x + y) && Aligned(x - y)
  {
  }

  lemma FreedPageSized(m: Table, address: int, size: int, less: TreeNode?, more: TreeNode?, spare: TreeNode)
    requires Neighbours(m, address, less, more)
    ensures PageSized(m) && Aligned(address) && Aligned(size) ==> PageSized(Freed(m, address, size, less, more, spare))
  {
    if PageSized(m) && Aligned(address) && Aligned(size) {
      if less != null {
        AlignedSum(m[less].size, size);
        if more != null {
          AlignedSum(m[less].size + size, m[more].size);
        }
      }
      if more != null {
        AlignedSum(size, m[more].size);
      }
      hide Aligned;
    }
  }

  lemma TakenPageSized(m: Table, n: TreeNode, size: int)
    requires n in m
    ensures PageSized(m) && Aligned(size) ==> PageSized(Taken(m, n, size))
  {
    if PageSized(m) && Aligned(size) {
      AlignedSum(m[n].size, size);
      hide Aligned;
    }
  }

  lemma CutAligned(m: Table, address: int, size: int, less: TreeNode?, more: TreeNode?)
    requires Neighbours(m, address, less, more)
    ensures PageSized(m) && Aligned(address) && Aligned(size) ==>
              Aligned(CutBegin(m, address, less)) && Aligned(CutEnd(m, address + size, more) - CutBegin(m, address, less))
  {
    if PageSized(m) && Aligned(address) && Aligned(size) {
      AlignedSum(address, size);
      if less != null {
        AlignedSum(m[less].address, m[less].size);
      }
      hide Neighbours;
      AlignedSum(CutEnd(m, address + size, more), CutBegin(m, address, less));
    }
  }
}
