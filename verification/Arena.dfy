/** The layout of the kernel heap: pages cut into blocks of seven sizes behind a header, and runs of pages for what is larger.

    Addresses are physical ones; the kernel sees them through a direct map that begins at a page boundary. */
module Arena {
  import opened DoubleLinkedTrees
  import opened FreeTable

  const MINIMUM_BLOCK_SIZE := 16
  const MAXIMUM_LINKABLE_BLOCK_SIZE := 1024
  const DESCRIPTOR_COUNT := 7
  /** The size of the header at the beginning of a page or of a run of pages. */
  const STAGE_SIZE := 16
  /** The page count in a header has 32 bits. */
  const COUNT_LIMIT := 0x1_0000_0000

  datatype ArenaDescriptor = ArenaDescriptor(blockSize: nat, blocksPerPage: nat, firstFreeBlock: int)

  datatype ArenaStage = ArenaStage(descriptor: int, count: int, isLarge: bool)

  /** The links at the beginning of a free block; 0 is the null pointer. */
  datatype ArenaBlockNode = ArenaBlockNode(prev: int, next: int)

  // ----- Block sizes and places -----

  function BlockSize(d: nat): (r: nat)
    ensures r >= MINIMUM_BLOCK_SIZE
  {
    if d == 0 then MINIMUM_BLOCK_SIZE else 2 * BlockSize(d - 1)
  }

  function BlocksPerPage(d: nat): nat {
    Quotient(PAGE_SIZE - STAGE_SIZE, BlockSize(d))
  }

  function Quotient(n: nat, s: nat): nat
    requires s > 0
  {
    n / s
  }

  lemma BlockSizes()
    ensures BlockSize(0) == 16 && BlockSize(1) == 32 && BlockSize(2) == 64 && BlockSize(3) == 128
    ensures BlockSize(4) == 256 && BlockSize(5) == 512 && BlockSize(6) == MAXIMUM_LINKABLE_BLOCK_SIZE == 1024
    ensures BlocksPerPage(0) == 255 && BlocksPerPage(1) == 127 && BlocksPerPage(2) == 63 && BlocksPerPage(3) == 31
    ensures BlocksPerPage(4) == 15 && BlocksPerPage(5) == 7 && BlocksPerPage(6) == 3
  {
    assert BlockSize(3) == 128;
  }

  function GetBlock(page: int, d: nat, k: int): int {
    page + STAGE_SIZE + k * BlockSize(d)
  }

  /** The header of the page of an address: its low twelve bits are masked away. */
  function GetStage(address: int): int {
    address - address % PAGE_SIZE
  }

  /** A block lies between the header and the end of its page, and its page is found by masking. */
  lemma BlockInPage(page: int, d: nat, k: nat)
    requires Aligned(page) && k < BlocksPerPage(d)
    ensures page + STAGE_SIZE <= GetBlock(page, d, k) && GetBlock(page, d, k) + BlockSize(d) <= page + PAGE_SIZE
    ensures GetStage(GetBlock(page, d, k)) == page
  {
    var s, n := BlockSize(d), BlocksPerPage(d);
    Products(k + 1, n, s);
    assert (k + 1) * s == k * s + s;
    assert n * s <= PAGE_SIZE - STAGE_SIZE;
    Products(0, k, s);
  }

  lemma Products(j: nat, k: nat, s: nat)
    requires j <= k
    ensures j * s <= k * s
  {
  }

  /** Different blocks of a page do not overlap. */
  lemma BlocksApart(page: int, d: nat, j: nat, k: nat)
    requires j < k
    ensures GetBlock(page, d, j) + BlockSize(d) <= GetBlock(page, d, k)
  {
    var s := BlockSize(d);
    Products(j + 1, k, s);
    assert (j + 1) * s == j * s + s;
  }

  /** The blocks use a page up: a byte behind the header lies in one of them, unless there is no room for another block from
      it to the end of the page. */
  lemma PageUsedUp(page: int, d: nat, x: int)
    requires page + STAGE_SIZE <= x < page + PAGE_SIZE
    ensures (exists k: nat :: k < BlocksPerPage(d) && GetBlock(page, d, k) <= x < GetBlock(page, d, k) + BlockSize(d))
            || page + PAGE_SIZE - x < BlockSize(d)
  {
    var s, n, y := BlockSize(d), BlocksPerPage(d), x - page - STAGE_SIZE;
    var k := Quotient(y, s);
    DivMod(y, s);
    DivMod(PAGE_SIZE - STAGE_SIZE, s);
    if k < n {
      assert GetBlock(page, d, k) <= x < GetBlock(page, d, k) + s;
    } else {
      Products(n, k, s);
    }
  }

  lemma DivMod(n: nat, s: nat)
    requires s > 0
    ensures Quotient(n, s) >= 0 && n - s < Quotient(n, s) * s <= n
  {
    assert n == n / s * s + n % s;
  }

  // ----- Free lists -----

  type Nodes = map<int, ArenaBlockNode>

  ghost function First(list: seq<int>): int {
    if list == [] then 0 else list[0]
  }

  ghost function Link(list: seq<int>, i: int): ArenaBlockNode
    requires 0 <= i < |list|
  {
    ArenaBlockNode(if i == 0 then 0 else list[i - 1], if i == |list| - 1 then 0 else list[i + 1])
  }

  /** The links of the blocks spell out the list. */
  ghost predicate Threaded(nodes: Nodes, list: seq<int>) {
    && (forall i :: 0 <= i < |list| ==> list[i] != 0 && list[i] in nodes && nodes[list[i]] == Link(list, i))
    && (forall i, j :: 0 <= i < j < |list| ==> list[i] != list[j])
  }

  lemma ThreadedElsewhere(nodes: Nodes, nodes': Nodes, list: seq<int>)
    requires Threaded(nodes, list) && forall b :: b in list && b in nodes ==> b in nodes' && nodes'[b] == nodes[b]
    ensures Threaded(nodes', list)
  {
    assert forall i :: 0 <= i < |list| ==> list[i] in list;
  }

  ghost function Popped(nodes: Nodes, list: seq<int>): Nodes
    requires |list| > 1 ==> list[1] in nodes
  {
    if |list| > 1 then nodes[list[1] := nodes[list[1]].(prev := 0)] else nodes
  }

  lemma PoppedThreaded(nodes: Nodes, list: seq<int>)
    requires Threaded(nodes, list) && list != []
    ensures Threaded(Popped(nodes, list), list[1..])
  {
    var nodes', rest := Popped(nodes, list), list[1..];
    forall i | 0 <= i < |rest|
      ensures rest[i] in nodes' && nodes'[rest[i]] == Link(rest, i)
    {
      assert nodes[list[i + 1]] == Link(list, i + 1);
    }
  }

  ghost function Pushed(nodes: Nodes, list: seq<int>, b: int): Nodes
    requires list != [] ==> list[0] in nodes
  {
    (if list == [] then nodes else nodes[list[0] := nodes[list[0]].(prev := b)])[b := ArenaBlockNode(0, First(list))]
  }

  lemma PushedThreaded(nodes: Nodes, list: seq<int>, b: int)
    requires Threaded(nodes, list) && b !in list && b != 0
    ensures Threaded(Pushed(nodes, list, b), [b] + list)
  {
    var nodes', more := Pushed(nodes, list, b), [b] + list;
    forall i | 0 <= i < |more|
      ensures more[i] in nodes' && nodes'[more[i]] == Link(more, i)
    {
      if i > 0 {
        assert more[i] == list[i - 1] && nodes[list[i - 1]] == Link(list, i - 1) && list[i - 1] in list;
      }
    }
  }

  // ----- The pages of the heap -----

  /** Where each run of pages begins and how many pages it has; the class of those that are cut into blocks. */
  type Pages = map<int, nat>
  type Classes = map<int, nat>

  ghost predicate PageByte(pages: Pages, b: int) {
    exists p :: p in pages && Within(b, p, PAGE_SIZE * pages[p])
  }

  ghost function HeapBytes(pages: Pages): iset<int> {
    iset b | PageByte(pages, b)
  }

  /** The headers say what the runs of pages are, and the runs do not overlap. */
  ghost predicate Laid(pages: Pages, classes: Classes, stages: map<int, ArenaStage>) {
    && classes.Keys <= pages.Keys <= stages.Keys
    && (forall p :: p in pages ==> p > 0 && Aligned(p) && pages[p] > 0 && p + PAGE_SIZE * pages[p] < LIMIT)
    && (forall p :: p in pages ==>
          if p in classes then classes[p] < DESCRIPTOR_COUNT && pages[p] == 1 && !stages[p].isLarge && stages[p].descriptor == classes[p]
          else stages[p].isLarge && stages[p].count == pages[p] % COUNT_LIMIT)
    && (forall p, q :: p in pages && q in pages && p < q ==> p + PAGE_SIZE * pages[p] <= q)
  }

  // ----- The partition into free and live blocks -----

  type Lists = l: seq<seq<int>> | |l| == DESCRIPTOR_COUNT witness seq(DESCRIPTOR_COUNT, _ => [])

  ghost predicate IsBlock(classes: Classes, d: nat, b: int) {
    var p := GetStage(b);
    p in classes && classes[p] == d && exists k: nat :: k < BlocksPerPage(d) && b == GetBlock(p, d, k)
  }

  /** A live pointer is a block large enough, or it lies behind the header of a run of pages large enough. */
  ghost predicate Holds(pages: Pages, classes: Classes, b: int, size: nat) {
    && size > 0
    && var p := GetStage(b);
    if p in classes then IsBlock(classes, classes[p], b) && size <= BlockSize(classes[p])
    else p in pages && b == p + STAGE_SIZE && STAGE_SIZE + size <= PAGE_SIZE * pages[p]
  }

  /** Every block of every page is either in the free list of its class or live, and nothing else is. */
  ghost predicate Parted(pages: Pages, classes: Classes, lists: Lists, live: map<int, nat>) {
    && (forall d, i :: 0 <= d < DESCRIPTOR_COUNT && 0 <= i < |lists[d]| ==>
          IsBlock(classes, d, lists[d][i]) && lists[d][i] !in live)
    && (forall b :: b in live ==> Holds(pages, classes, b, live[b]))
    && (forall p, k :: p in classes && classes[p] < DESCRIPTOR_COUNT && 0 <= k < BlocksPerPage(classes[p]) ==>
          var b := GetBlock(p, classes[p], k); b in lists[classes[p]] || b in live)
  }

  /** Every run of pages that is not cut into blocks has its live pointer. */
  ghost predicate RunsLive(pages: Pages, classes: Classes, live: map<int, nat>) {
    forall p :: p in pages && p !in classes ==> p + STAGE_SIZE in live
  }

  lemma RunsLiveMore(pages: Pages, classes: Classes, live: map<int, nat>, b: int, size: nat)
    requires RunsLive(pages, classes, live)
    ensures RunsLive(pages, classes, live[b := size])
  {
  }

  lemma RunsLiveBlock(pages: Pages, classes: Classes, live: map<int, nat>, b: int)
    requires RunsLive(pages, classes, live) && GetStage(b) in classes && forall p :: p in pages ==> Aligned(p)
    ensures RunsLive(pages, classes, live - {b})
  {
    forall p | p in pages && p !in classes
      ensures p + STAGE_SIZE in live - {b}
    {
      assert GetStage(p + STAGE_SIZE) == p;
    }
  }

  lemma RunsLiveCut(pages: Pages, classes: Classes, live: map<int, nat>, p: int, d: nat)
    requires RunsLive(pages, classes, live)
    ensures RunsLive(pages[p := 1], classes[p := d], live)
  {
  }

  lemma RunsLiveWith(pages: Pages, classes: Classes, live: map<int, nat>, p: int, n: nat, size: nat)
    requires RunsLive(pages, classes, live)
    ensures RunsLive(pages[p := n], classes, live[p + STAGE_SIZE := size])
  {
  }

  lemma RunsLiveWithout(pages: Pages, classes: Classes, live: map<int, nat>, p: int)
    requires RunsLive(pages, classes, live)
    ensures RunsLive(pages - {p}, classes, live - {p + STAGE_SIZE})
  {
  }

  lemma PopParted(pages: Pages, classes: Classes, lists: Lists, live: map<int, nat>, d: nat, size: nat)
    requires Parted(pages, classes, lists, live) && d < DESCRIPTOR_COUNT && lists[d] != [] && 0 < size <= BlockSize(d)
    requires forall i :: 0 < i < |lists[d]| ==> lists[d][i] != lists[d][0]
    ensures Parted(pages, classes, lists[d := lists[d][1..]], live[lists[d][0] := size]) && lists[d][0] !in live
  {
    var b, rest, lists', live' := lists[d][0], lists[d][1..], lists[d := lists[d][1..]], live[lists[d][0] := size];
    assert IsBlock(classes, d, b);
    forall e, i | 0 <= e < DESCRIPTOR_COUNT && 0 <= i < |lists'[e]|
      ensures IsBlock(classes, e, lists'[e][i]) && lists'[e][i] !in live'
    {
      var i0 := if e == d then i + 1 else i;
      assert lists'[e][i] == lists[e][i0] && IsBlock(classes, e, lists[e][i0]);
    }
    forall p, k | p in classes && classes[p] < DESCRIPTOR_COUNT && 0 <= k < BlocksPerPage(classes[p])
      ensures var c := GetBlock(p, classes[p], k); c in lists'[classes[p]] || c in live'
    {
      var c := GetBlock(p, classes[p], k);
      assert c in lists[classes[p]] || c in live;
      if classes[p] == d && c in lists[d] && c != b {
        assert lists[d] == [b] + rest;
      }
    }
  }

  lemma PushParted(pages: Pages, classes: Classes, lists: Lists, live: map<int, nat>, d: nat, b: int)
    requires Parted(pages, classes, lists, live) && d < DESCRIPTOR_COUNT && b in live && IsBlock(classes, d, b)
    requires forall p :: p in classes ==> Aligned(p)
    ensures Parted(pages, classes, lists[d := [b] + lists[d]], live - {b})
  {
    var lists', live' := lists[d := [b] + lists[d]], live - {b};
    forall e, i | 0 <= e < DESCRIPTOR_COUNT && 0 <= i < |lists'[e]|
      ensures IsBlock(classes, e, lists'[e][i]) && lists'[e][i] !in live'
    {
      if !(e == d && i == 0) {
        var i0 := if e == d then i - 1 else i;
        assert lists'[e][i] == lists[e][i0] && IsBlock(classes, e, lists[e][i0]);
      }
    }
    forall p, k | p in classes && classes[p] < DESCRIPTOR_COUNT && 0 <= k < BlocksPerPage(classes[p])
      ensures var c := GetBlock(p, classes[p], k); c in lists'[classes[p]] || c in live'
    {
      var c := GetBlock(p, classes[p], k);
      assert c in lists[classes[p]] || c in live;
      BlockInPage(p, classes[p], k);
      if c == b {
        assert classes[p] == d && lists'[d][0] == b;
      } else if classes[p] == d {
        assert c in lists[d] ==> c in lists'[d];
      }
    }
  }

  /** All blocks of a page, from the header on. */
  ghost function Blocks(page: int, d: nat): (r: seq<int>)
    ensures |r| == BlocksPerPage(d)
  {
    seq(BlocksPerPage(d), k requires 0 <= k < BlocksPerPage(d) => GetBlock(page, d, k))
  }

  lemma BlocksDistinct(page: int, d: nat)
    ensures Increasing(Blocks(page, d))
  {
    forall j: nat, k: nat | j < k < BlocksPerPage(d)
      ensures GetBlock(page, d, j) < GetBlock(page, d, k)
    {
      BlocksApart(page, d, j, k);
    }
  }

  /** What stands at an address, whatever that is. */
  function NodeAt(nodes: Nodes, b: int): ArenaBlockNode {
    if b in nodes then nodes[b] else ArenaBlockNode(0, 0)
  }

  /** The first `n` of some blocks are linked to each other, and nothing else has changed. */
  ghost predicate PartLinked(was: Nodes, nodes: Nodes, bs: seq<int>, n: nat) {
    && 0 < n <= |bs|
    && (forall i :: 0 <= i < n ==> bs[i] in nodes && nodes[bs[i]].prev == Link(bs, i).prev)
    && (forall i :: 0 <= i < n - 1 ==> nodes[bs[i]].next == Link(bs, i).next)
    && (forall b :: b in was && b !in bs ==> b in nodes && nodes[b] == was[b])
  }

  ghost predicate Increasing(bs: seq<int>) {
    forall j, k :: 0 <= j < k < |bs| ==> bs[j] < bs[k]
  }

  lemma LinkFirst(was: Nodes, bs: seq<int>)
    requires bs != []
    ensures PartLinked(was, was[bs[0] := NodeAt(was, bs[0]).(prev := 0)], bs, 1)
  {
  }

  ghost function LinkedTo(nodes: Nodes, b: int, c: int): Nodes
    requires b in nodes && b != c
  {
    nodes[c := NodeAt(nodes, c).(prev := b)][b := nodes[b].(next := c)]
  }

  /** A block and the one before it get their links. */
  lemma LinkNext(was: Nodes, nodes: Nodes, bs: seq<int>, n: nat)
    requires PartLinked(was, nodes, bs, n) && n < |bs| && Increasing(bs)
    ensures bs[n - 1] in nodes && bs[n - 1] != bs[n]
    ensures PartLinked(was, LinkedTo(nodes, bs[n - 1], bs[n]), bs, n + 1)
  {
    hide Link;
    assert bs[n - 1] < bs[n] && bs[n - 1] in bs && bs[n] in bs;
    var nodes' := LinkedTo(nodes, bs[n - 1], bs[n]);
    forall i | 0 <= i < n + 1
      ensures bs[i] in nodes' && nodes'[bs[i]].prev == Link(bs, i).prev && (i < n ==> nodes'[bs[i]].next == Link(bs, i).next)
    {
      LinkedPart(was, nodes, bs, n, i);
    }
    hide LinkedTo, Increasing;
  }

  lemma LinkedPart(was: Nodes, nodes: Nodes, bs: seq<int>, n: nat, i: nat)
    requires PartLinked(was, nodes, bs, n) && n < |bs| && Increasing(bs) && i <= n && bs[n - 1] != bs[n]
    ensures var nodes' := LinkedTo(nodes, bs[n - 1], bs[n]);
      bs[i] in nodes' && nodes'[bs[i]].prev == Link(bs, i).prev && (i < n ==> nodes'[bs[i]].next == Link(bs, i).next)
  {
    hide Link;
    Neighbours(bs, n);
    if i < n - 1 {
      assert bs[i] < bs[n - 1] && bs[i] < bs[n];
    }
  }

  lemma Neighbours(bs: seq<int>, n: nat)
    requires 0 < n < |bs|
    ensures Link(bs, n).prev == bs[n - 1] && Link(bs, n - 1).next == bs[n]
  {
  }

  lemma LinkLast(was: Nodes, nodes: Nodes, bs: seq<int>)
    requires PartLinked(was, nodes, bs, |bs|) && Increasing(bs) && bs[0] > 0
    ensures var b, nodes' := bs[|bs| - 1], nodes[bs[|bs| - 1] := nodes[bs[|bs| - 1]].(next := 0)];
            Threaded(nodes', bs) && forall b :: b in was && b !in bs ==> b in nodes' && nodes'[b] == was[b]
  {
    var nodes' := nodes[bs[|bs| - 1] := nodes[bs[|bs| - 1]].(next := 0)];
    forall i | 0 <= i < |bs|
      ensures bs[i] != 0 && bs[i] in nodes' && nodes'[bs[i]] == Link(bs, i)
    {
      assert i == 0 || bs[0] < bs[i];
    }
  }

  /** A new page is cut into free blocks. */
  lemma CutParted(pages: Pages, classes: Classes, lists: Lists, live: map<int, nat>, p: int, d: nat)
    requires Parted(pages, classes, lists, live) && classes.Keys <= pages.Keys
    requires d < DESCRIPTOR_COUNT && lists[d] == [] && p !in pages && Aligned(p)
    ensures Parted(pages[p := 1], classes[p := d], lists[d := Blocks(p, d)], live)
  {
    var pages', classes', lists' := pages[p := 1], classes[p := d], lists[d := Blocks(p, d)];
    forall e, i | 0 <= e < DESCRIPTOR_COUNT && 0 <= i < |lists'[e]|
      ensures IsBlock(classes', e, lists'[e][i]) && lists'[e][i] !in live
    {
      if e == d {
        BlockInPage(p, d, i);
      } else {
        assert IsBlock(classes, e, lists[e][i]);
      }
    }
    forall b | b in live
      ensures Holds(pages', classes', b, live[b])
    {
      assert Holds(pages, classes, b, live[b]);
    }
    forall q, k | q in classes' && classes'[q] < DESCRIPTOR_COUNT && 0 <= k < BlocksPerPage(classes'[q])
      ensures var c := GetBlock(q, classes'[q], k); c in lists'[classes'[q]] || c in live
    {
      if q == p {
        assert Blocks(p, d)[k] == GetBlock(p, d, k);
      } else {
        var c := GetBlock(q, classes[q], k);
        assert c in lists[classes[q]] || c in live;
      }
    }
  }

  /** A run of pages is handed out whole. */
  lemma LargeParted(pages: Pages, classes: Classes, lists: Lists, live: map<int, nat>, p: int, n: nat, size: nat)
    requires Parted(pages, classes, lists, live) && classes.Keys <= pages.Keys && p !in pages && Aligned(p)
    requires 0 < size && STAGE_SIZE + size <= PAGE_SIZE * n
    ensures Parted(pages[p := n], classes, lists, live[p + STAGE_SIZE := size]) && p + STAGE_SIZE !in live
  {
    var pages', b, live' := pages[p := n], p + STAGE_SIZE, live[p + STAGE_SIZE := size];
    assert GetStage(b) == p;
    forall c | c in live'
      ensures Holds(pages', classes, c, live'[c])
    {
      assert c != b ==> Holds(pages, classes, c, live[c]);
    }
    forall c | c in live
      ensures GetStage(c) in pages
    {
      assert Holds(pages, classes, c, live[c]);
    }
    forall e, i | 0 <= e < DESCRIPTOR_COUNT && 0 <= i < |lists[e]|
      ensures lists[e][i] !in live'
    {
      assert IsBlock(classes, e, lists[e][i]);
    }
  }

  lemma ReturnParted(pages: Pages, classes: Classes, lists: Lists, live: map<int, nat>, p: int)
    requires Parted(pages, classes, lists, live) && p in pages && p !in classes && p + STAGE_SIZE in live && Aligned(p)
    requires forall q :: q in classes ==> Aligned(q)
    ensures Parted(pages - {p}, classes, lists, live - {p + STAGE_SIZE})
  {
    var pages', b, live' := pages - {p}, p + STAGE_SIZE, live - {p + STAGE_SIZE};
    assert GetStage(b) == p;
    forall c | c in live'
      ensures Holds(pages', classes, c, live'[c])
    {
      assert Holds(pages, classes, c, live[c]);
    }
    forall q, k | q in classes && classes[q] < DESCRIPTOR_COUNT && 0 <= k < BlocksPerPage(classes[q])
      ensures var c := GetBlock(q, classes[q], k); c in lists[classes[q]] || c in live'
    {
      var c := GetBlock(q, classes[q], k);
      assert c in lists[classes[q]] || c in live;
      BlockInPage(q, classes[q], k);
    }
  }

  // ----- Bytes -----

  lemma HeapBytesWith(pages: Pages, p: int, n: nat)
    requires p !in pages
    ensures HeapBytes(pages[p := n]) == HeapBytes(pages) + Range(p, PAGE_SIZE * n)
  {
    var pages' := pages[p := n];
    forall b
      ensures PageByte(pages', b) <==> PageByte(pages, b) || Within(b, p, PAGE_SIZE * n)
    {
      if PageByte(pages, b) {
        var q :| q in pages && Within(b, q, PAGE_SIZE * pages[q]);
        assert q in pages' && pages'[q] == pages[q];
      }
      assert p in pages' && pages'[p] == n;
    }
  }

  lemma HeapBytesWithout(pages: Pages, classes: Classes, stages: map<int, ArenaStage>, p: int)
    requires Laid(pages, classes, stages) && p in pages
    ensures HeapBytes(pages) == HeapBytes(pages - {p}) + Range(p, PAGE_SIZE * pages[p])
    ensures HeapBytes(pages - {p}) !! Range(p, PAGE_SIZE * pages[p])
  {
    HeapBytesWith(pages - {p}, p, pages[p]);
    assert (pages - {p})[p := pages[p]] == pages;
  }

  /** A run outside of the heap fits between the runs of the heap. */
  lemma NewRun(pages: Pages, classes: Classes, stages: map<int, ArenaStage>, p: int, n: nat, stage: ArenaStage)
    requires Laid(pages, classes, stages) && p > 0 && Aligned(p) && n > 0 && HeapBytes(pages) !! Range(p, PAGE_SIZE * n)
    requires p + PAGE_SIZE * n < LIMIT
    ensures p !in pages
    ensures stage.isLarge && stage.count == n % COUNT_LIMIT ==> Laid(pages[p := n], classes, stages[p := stage])
    ensures !stage.isLarge && 0 <= stage.descriptor < DESCRIPTOR_COUNT && n == 1 ==>
              Laid(pages[p := n], classes[p := stage.descriptor], stages[p := stage])
  {
    forall q | q in pages
      ensures q != p && (p < q ==> p + PAGE_SIZE * n <= q) && (q < p ==> q + PAGE_SIZE * pages[q] <= p)
    {
      var b := if p < q then q else p;
      assert Within(b, q, PAGE_SIZE * pages[q]) ==> PageByte(pages, b);
      assert Within(b, p, PAGE_SIZE * n) ==> b in Range(p, PAGE_SIZE * n);
    }
  }

  // ----- What the partition means for the users of the heap -----

  /** The bytes a live pointer stands for lie behind the header of its page or run. */
  lemma HeldInside(pages: Pages, classes: Classes, stages: map<int, ArenaStage>, b: int, size: nat)
    requires Laid(pages, classes, stages) && Holds(pages, classes, b, size)
    ensures var p := GetStage(b); p in pages && p + STAGE_SIZE <= b && b + size <= p + PAGE_SIZE * pages[p]
  {
    var p := GetStage(b);
    if p in classes {
      var k: nat :| k < BlocksPerPage(classes[p]) && b == GetBlock(p, classes[p], k);
      BlockInPage(p, classes[p], k);
    }
  }

  /** What live pointers and free blocks stand for never overlaps, and no header is inside of it. */
  lemma Disjoint(pages: Pages, classes: Classes, stages: map<int, ArenaStage>, lists: Lists, live: map<int, nat>, b: int, c: int)
    requires Laid(pages, classes, stages) && Parted(pages, classes, lists, live) && b in live && c in live && b != c
    ensures Range(b, live[b]) !! Range(c, live[c])
  {
    assert Holds(pages, classes, b, live[b]) && Holds(pages, classes, c, live[c]);
    HeldInside(pages, classes, stages, b, live[b]);
    HeldInside(pages, classes, stages, c, live[c]);
    var p, q := GetStage(b), GetStage(c);
    if p == q && p in classes {
      BlocksDisjoint(classes, classes[p], b, c);
    }
  }

  lemma BlocksDisjoint(classes: Classes, d: nat, b: int, c: int)
    requires IsBlock(classes, d, b) && IsBlock(classes, d, c) && b != c && GetStage(b) == GetStage(c)
    ensures b + BlockSize(d) <= c || c + BlockSize(d) <= b
  {
    var p := GetStage(b);
    var j: nat :| j < BlocksPerPage(d) && b == GetBlock(p, d, j);
    var k: nat :| k < BlocksPerPage(d) && c == GetBlock(p, d, k);
    if j < k {
      BlocksApart(p, d, j, k);
    } else {
      BlocksApart(p, d, k, j);
    }
  }

  /** No byte of a live pointer belongs to a header. */
  lemma HeadersSafe(pages: Pages, classes: Classes, stages: map<int, ArenaStage>, lists: Lists, live: map<int, nat>, b: int, q: int)
    requires Laid(pages, classes, stages) && Parted(pages, classes, lists, live) && b in live && q in pages
    ensures Range(b, live[b]) !! Range(q, STAGE_SIZE)
  {
    assert Holds(pages, classes, b, live[b]);
    HeldInside(pages, classes, stages, b, live[b]);
  }

  /** No byte of a live pointer belongs to the links of a free block. */
  lemma LinksSafe(pages: Pages, classes: Classes, stages: map<int, ArenaStage>, lists: Lists, live: map<int, nat>, b: int, d: nat, i: nat)
    requires Laid(pages, classes, stages) && Parted(pages, classes, lists, live) && b in live && d < DESCRIPTOR_COUNT && i < |lists[d]|
    ensures Range(b, live[b]) !! Range(lists[d][i], 16)
  {
    var f := lists[d][i];
    assert Holds(pages, classes, b, live[b]) && IsBlock(classes, d, f) && f !in live;
    HeldInside(pages, classes, stages, b, live[b]);
    assert Holds(pages, classes, f, 16);
    HeldInside(pages, classes, stages, f, 16);
    if GetStage(b) == GetStage(f) {
      BlocksDisjoint(classes, d, b, f);
    }
  }

  /** No byte of the links of a free block belongs to a header. */
  lemma LinksOutsideHeaders(pages: Pages, classes: Classes, stages: map<int, ArenaStage>, lists: Lists, live: map<int, nat>,
                            d: nat, i: nat, q: int)
    requires Laid(pages, classes, stages) && Parted(pages, classes, lists, live) && d < DESCRIPTOR_COUNT && i < |lists[d]| && q in pages
    ensures Range(lists[d][i], 16) !! Range(q, STAGE_SIZE)
  {
    assert IsBlock(classes, d, lists[d][i]) && Holds(pages, classes, lists[d][i], 16);
    HeldInside(pages, classes, stages, lists[d][i], 16);
  }

  /** Nor do the links of two free blocks overlap. */
  lemma LinksApart(pages: Pages, classes: Classes, stages: map<int, ArenaStage>, lists: Lists, live: map<int, nat>,
                   d: nat, i: nat, e: nat, j: nat)
    requires Laid(pages, classes, stages) && Parted(pages, classes, lists, live)
    requires d < DESCRIPTOR_COUNT && i < |lists[d]| && e < DESCRIPTOR_COUNT && j < |lists[e]| && lists[d][i] != lists[e][j]
    ensures Range(lists[d][i], 16) !! Range(lists[e][j], 16)
  {
    var b, c := lists[d][i], lists[e][j];
    assert IsBlock(classes, d, b) && Holds(pages, classes, b, 16) && IsBlock(classes, e, c) && Holds(pages, classes, c, 16);
    HeldInside(pages, classes, stages, b, 16);
    HeldInside(pages, classes, stages, c, 16);
    if GetStage(b) == GetStage(c) {
      BlocksDisjoint(classes, d, b, c);
    }
  }

  /** The header that masking finds tells apart the two kinds of pointers. */
  lemma HeaderFound(pages: Pages, classes: Classes, stages: map<int, ArenaStage>, lists: Lists, live: map<int, nat>, b: int)
    requires Laid(pages, classes, stages) && Parted(pages, classes, lists, live) && b in live
    ensures var p := GetStage(b);
      && p in pages && p in stages && (stages[p].isLarge <==> p !in classes)
      && (stages[p].isLarge ==> b == p + STAGE_SIZE && stages[p].count == pages[p] % COUNT_LIMIT)
      && (!stages[p].isLarge ==> stages[p].descriptor == classes[p] && IsBlock(classes, classes[p], b) && live[b] <= BlockSize(classes[p]))
  {
    assert Holds(pages, classes, b, live[b]);
  }
}
