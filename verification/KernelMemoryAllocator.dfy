/** `malloc` and `free` of the kernel on top of the free memory manager. */
module KernelHeap {
  import opened DoubleLinkedTrees
  import opened FreeTable
  import opened FreeMemory
  import opened Arena

  // ----- Whole pages -----

  /** An address from the manager is a page boundary. */
  lemma CutAligned(m: Table, size: int, result: int)
    requires WellSpaced(m) && PageSized(m) && Aligned(size) && 0 <= size && FreeMemoryManager.CutFromBestFit(m, size, result)
    ensures Aligned(result) && 0 <= result && result + size < LIMIT
  {
    var n :| n in m && FreeMemoryManager.BestFit(m, size, n) && result == m[n].End() - size;
    assert Sensible(m[n]) && Aligned(m[n].address) && Aligned(m[n].size) && m[n].size >= size;
    hide WellSpaced, PageSized, FreeMemoryManager.CutFromBestFit, FreeMemoryManager.BestFit, Aligned;
    AlignedSum(m[n].address, m[n].size);
    AlignedSum(m[n].address + m[n].size, size);
  }

  /** The page or pages that are handed out, or 0. */
  method AllocPage(memory: FreeMemoryManager, count: nat) returns (page: int)
    requires memory.Valid() && 0 !in memory.Managed() && 0 < count && PAGE_SIZE * count < LIMIT
    modifies memory, memory.Footprint()
    ensures memory.Valid() && forall o :: o in memory.Footprint() ==> o in old(memory.Footprint()) || fresh(o)
    ensures page == 0 <==> !old(FreeMemoryManager.Available(memory.free, PAGE_SIZE * count))
    ensures page == 0 ==> memory.Managed() == old(memory.Managed())
    ensures page != 0 ==>
              && Aligned(page) && 0 < page && page + PAGE_SIZE * count < LIMIT
              && Range(page, PAGE_SIZE * count) <= old(memory.Managed())
              && memory.Managed() == old(memory.Managed()) - Range(page, PAGE_SIZE * count)
  {
    hide FreeMemoryManager.Holding, FreeMemoryManager.Housed, WellSpaced, PageSized, Total, Bytes, FreeMemoryManager.PageBytes,
      FreeMemoryManager.CutFromBestFit, FreeMemoryManager.Available, FreeMemoryManager.Footprint;
    ghost var m := memory.free;
    page := memory.Alloc(PAGE_SIZE * count);
    if FreeMemoryManager.Available(m, PAGE_SIZE * count) {
      CutAligned(m, PAGE_SIZE * count, page);
      assert page in Range(page, PAGE_SIZE * count);
    }
  }

  method FreePage(memory: FreeMemoryManager, page: int, count: nat)
    requires memory.Valid() && Aligned(page) && 0 <= page && page + PAGE_SIZE * count < LIMIT
    requires memory.Managed() !! Range(page, PAGE_SIZE * count)
    modifies memory, memory.Footprint()
    ensures memory.Valid() && forall o :: o in memory.Footprint() ==> o in old(memory.Footprint()) || fresh(o)
    ensures memory.Managed() == old(memory.Managed()) + Range(page, PAGE_SIZE * count)
  {
    hide FreeMemoryManager.Holding, FreeMemoryManager.Housed, WellSpaced, PageSized, Total, Bytes, FreeMemoryManager.PageBytes,
      FreeMemoryManager.Footprint;
    Freeable(memory.free, page, PAGE_SIZE * count);
    memory.Free(page, PAGE_SIZE * count);
  }

  lemma Freeable(m: Table, address: int, size: nat)
    requires WellSpaced(m) && Bytes(m) !! Range(address, size)
    ensures Added(m, address, size) == Range(address, size) && !Underruns(m, address, size)
  {
    if size > 0 {
      DisjointAdded(m, address, size);
    }
  }

  // ----- The heap -----

  ghost predicate Described(ds: seq<ArenaDescriptor>, lists: Lists) {
    |ds| == DESCRIPTOR_COUNT && forall d :: 0 <= d < DESCRIPTOR_COUNT ==> ds[d] == ArenaDescriptor(BlockSize(d), BlocksPerPage(d), First(lists[d]))
  }

  ghost predicate AllThreaded(nodes: Nodes, lists: Lists) {
    forall d :: 0 <= d < DESCRIPTOR_COUNT ==> Threaded(nodes, lists[d])
  }

  /** The runs of pages of the heap, the class of those that are cut into blocks, the free blocks of each class, and the bytes
      that the manager answers for. */
  datatype Account = Account(pages: Pages, classes: Classes, lists: Lists, managed: iset<int>)

  class KernelMemoryAllocator {
    const arenaDescriptors: array<ArenaDescriptor>
    const memory: FreeMemoryManager
    /** The headers of pages and of runs of pages, and the links at the beginning of blocks, as they stand in memory. */
    var stages: map<int, ArenaStage>
    var nodes: Nodes
    ghost var pages: Pages
    ghost var classes: Classes
    ghost var lists: Lists
    /** The pointers that are in use, with the size asked for. */
    ghost var live: map<int, nat>

    ghost predicate Consistent()
      reads this, arenaDescriptors
    {
      && Described(arenaDescriptors[..], lists) && AllThreaded(nodes, lists)
      && Laid(pages, classes, stages) && Parted(pages, classes, lists, live) && RunsLive(pages, classes, live)
    }

    ghost predicate Valid()
      reads this, arenaDescriptors, memory, memory.pages, memory.addressIdxTree, memory.sizeIdxTree, memory.Live()
    {
      && Consistent() && memory.Valid()
      && 0 !in memory.Managed() && memory.Managed() !! HeapBytes(pages)
      && this !in memory.Footprint() && arenaDescriptors !in memory.Footprint()
    }

    /** All memory between the heap and the manager. */
    ghost function All(): iset<int>
      reads this, memory
    {
      memory.Managed() + HeapBytes(pages)
    }

    constructor (memory: FreeMemoryManager)
      requires memory.Valid() && 0 !in memory.Managed()
      ensures Valid() && this.memory == memory && live == map[] && fresh(arenaDescriptors)
      ensures All() == memory.Managed()
    {
      hide FreeMemoryManager.Stocked, FreeMemoryManager.Chained, FreeMemoryManager.Counted, FreeMemoryManager.Indexed,
        FreeMemoryManager.Blocks, FreeMemoryManager.LiveIn, FreeMemoryManager.Housed, WellSpaced, PageSized, Total, Bytes,
        FreeMemoryManager.PageBytes, Described, AllThreaded, Laid, Parted, HeapBytes;
      ghost var used := memory.Live();
      assert memory.Indexed(used) && FreeMemoryManager.Blocks(used) == memory.free;
      arenaDescriptors := new ArenaDescriptor[DESCRIPTOR_COUNT](_ => ArenaDescriptor(0, 0, 0));
      this.memory := memory;
      stages, nodes, pages, classes, live := map[], map[], map[], map[], map[];
      lists := seq(DESCRIPTOR_COUNT, _ => []);
      new;
      Init();
      EmptyHeap(lists);
      assert memory.Indexed(used) && FreeMemoryManager.Blocks(used) == memory.free;
    }

    static lemma EmptyHeap(lists: Lists)
      requires forall d :: 0 <= d < DESCRIPTOR_COUNT ==> lists[d] == []
      ensures AllThreaded(map[], lists) && Laid(map[], map[], map[]) && Parted(map[], map[], lists, map[]) && HeapBytes(map[]) == iset{}
      ensures RunsLive(map[], map[], map[])
    {
    }

    /** The table of block sizes. */
    method Init()
      requires arenaDescriptors.Length == DESCRIPTOR_COUNT && forall d :: 0 <= d < DESCRIPTOR_COUNT ==> lists[d] == []
      modifies arenaDescriptors
      ensures Described(arenaDescriptors[..], lists)
    {
      var blockSize := MINIMUM_BLOCK_SIZE;
      for i := 0 to DESCRIPTOR_COUNT
        invariant blockSize == BlockSize(i)
        invariant forall d :: 0 <= d < i ==> arenaDescriptors[d] == ArenaDescriptor(BlockSize(d), BlocksPerPage(d), 0)
      {
        arenaDescriptors[i] := ArenaDescriptor(blockSize, (PAGE_SIZE - STAGE_SIZE) / blockSize, 0);
        blockSize := blockSize * 2;
      }
    }

    // ----- Popping and pushing blocks -----

    /** The first free block of a class is taken. */
    method Pop(d: nat, ghost size: nat) returns (block: int)
      requires Consistent() && d < DESCRIPTOR_COUNT && lists[d] != [] && 0 < size <= BlockSize(d)
      modifies `nodes, `lists, `live, arenaDescriptors
      ensures Consistent() && block != 0 && block !in old(live) && live == old(live)[block := size]
      ensures block == old(lists)[d][0] && IsBlock(classes, d, block) && lists == old(lists)[d := old(lists)[d][1..]]
      ensures Kept(old(live), old(nodes), nodes)
    {
      hide Parted, Laid, Threaded, BlockSize, BlocksPerPage, RunsLive;
      ghost var free := lists[d];
      Head(nodes, lists, d);
      var list := arenaDescriptors[d].firstFreeBlock;
      var next := nodes[list].next;
      FreeNotLive(pages, classes, lists, live, d);
      if next != 0 {
        nodes := nodes[next := nodes[next].(prev := 0)];
      }
      arenaDescriptors[d] := arenaDescriptors[d].(firstFreeBlock := next);
      PopThreaded(old(nodes), pages, classes, lists, live, d);
      PopParted(pages, classes, lists, live, d, size);
      RunsLiveMore(pages, classes, live, list, size);
      ListedBlock(pages, classes, lists, live, d);
      live := live[list := size];
      lists := lists[d := lists[d][1..]];
      block := list;
    }

    static lemma FreeNotLive(pages: Pages, classes: Classes, lists: Lists, live: map<int, nat>, d: nat)
      requires Parted(pages, classes, lists, live) && d < DESCRIPTOR_COUNT
      ensures forall b :: b in lists[d] ==> b !in live
    {
    }

    static lemma ListedBlock(pages: Pages, classes: Classes, lists: Lists, live: map<int, nat>, d: nat)
      requires Parted(pages, classes, lists, live) && d < DESCRIPTOR_COUNT && lists[d] != []
      ensures IsBlock(classes, d, lists[d][0])
    {
    }

    static lemma Head(nodes: Nodes, lists: Lists, d: nat)
      requires AllThreaded(nodes, lists) && d < DESCRIPTOR_COUNT && lists[d] != []
      ensures var list := lists[d];
        && list[0] != 0 && list[0] in nodes && nodes[list[0]].next == First(list[1..])
        && (|list| > 1 ==> list[1] != 0 && list[1] in nodes)
        && forall i :: 0 < i < |list| ==> list[i] != list[0]
    {
      assert Threaded(nodes, lists[d]);
    }

    /** A block is in the list of its own class only. */
    static lemma OneList(pages: Pages, classes: Classes, lists: Lists, live: map<int, nat>, d: nat, e: nat, b: int)
      requires Parted(pages, classes, lists, live) && d < DESCRIPTOR_COUNT && e < DESCRIPTOR_COUNT && d != e && b in lists[d]
      ensures b !in lists[e]
    {
      var i :| 0 <= i < |lists[d]| && lists[d][i] == b;
      assert IsBlock(classes, d, lists[d][i]);
      assert forall j :: 0 <= j < |lists[e]| ==> IsBlock(classes, e, lists[e][j]);
    }

    static lemma PopThreaded(nodes: Nodes, pages: Pages, classes: Classes, lists: Lists, live: map<int, nat>, d: nat)
      requires AllThreaded(nodes, lists) && Parted(pages, classes, lists, live) && d < DESCRIPTOR_COUNT && lists[d] != []
      requires |lists[d]| > 1 ==> lists[d][1] in nodes
      ensures AllThreaded(Popped(nodes, lists[d]), lists[d := lists[d][1..]])
    {
      hide Parted;
      var lists' := lists[d := lists[d][1..]];
      forall e | 0 <= e < DESCRIPTOR_COUNT
        ensures Threaded(Popped(nodes, lists[d]), lists'[e])
      {
        assert Threaded(nodes, lists[d]) && Threaded(nodes, lists[e]);
        if e == d {
          PoppedThreaded(nodes, lists[d]);
        } else {
          if |lists[d]| > 1 {
            OneList(pages, classes, lists, live, d, e, lists[d][1]);
          }
          ThreadedElsewhere(nodes, Popped(nodes, lists[d]), lists[e]);
        }
      }
    }

    // ----- New pages -----

    /** The blocks of a new page are linked one after the other. */
    method Thread(page: int, d: nat, count: nat)
      requires count == BlocksPerPage(d) > 0 && page > 0
      modifies `nodes
      ensures Threaded(nodes, Blocks(page, d))
      ensures forall b :: b in old(nodes) && b !in Blocks(page, d) ==> b in nodes && nodes[b] == old(nodes)[b]
    {
      hide BlockSize, BlocksPerPage, PartLinked, Threaded, Increasing, GetBlock;
      ghost var was, bs := nodes, Blocks(page, d);
      BlocksDistinct(page, d);
      FirstBlock(page, d);
      LinkFirst(was, bs);
      nodes := nodes[GetBlock(page, d, 0) := NodeAt(nodes, GetBlock(page, d, 0)).(prev := 0)];
      for idx := 1 to count
        invariant PartLinked(was, nodes, bs, idx)
      {
        LinkNext(was, nodes, bs, idx);
        assert GetBlock(page, d, idx) == bs[idx] && GetBlock(page, d, idx - 1) == bs[idx - 1];
        nodes := nodes[GetBlock(page, d, idx) := NodeAt(nodes, GetBlock(page, d, idx)).(prev := GetBlock(page, d, idx - 1))];
        nodes := nodes[GetBlock(page, d, idx - 1) := nodes[GetBlock(page, d, idx - 1)].(next := GetBlock(page, d, idx))];
      }
      LinkLast(was, nodes, bs);
      assert GetBlock(page, d, count - 1) == bs[count - 1];
      LastLinked(was, nodes, bs);
      nodes := nodes[GetBlock(page, d, count - 1) := nodes[GetBlock(page, d, count - 1)].(next := 0)];
    }

    static lemma FirstBlock(page: int, d: nat)
      requires BlocksPerPage(d) > 0 && page > 0
      ensures GetBlock(page, d, 0) == Blocks(page, d)[0] > 0
    {
    }

    static lemma LastLinked(was: Nodes, nodes: Nodes, bs: seq<int>)
      requires PartLinked(was, nodes, bs, |bs|)
      ensures bs[|bs| - 1] in nodes
    {
    }

    /** A new page becomes an arena page of a class without free blocks. */
    method Cut(page: int, d: nat)
      requires Consistent() && d < DESCRIPTOR_COUNT && lists[d] == [] && page > 0 && Aligned(page)
      requires HeapBytes(pages) !! Range(page, PAGE_SIZE) && page + PAGE_SIZE < LIMIT
      modifies `stages, `nodes, `pages, `classes, `lists, arenaDescriptors
      ensures Consistent() && pages == old(pages)[page := 1] && page !in old(pages) && lists[d] != []
      ensures classes == old(classes)[page := d] && lists == old(lists)[d := Blocks(page, d)]
      ensures stages == old(stages)[page := ArenaStage(d, BlocksPerPage(d), false)]
      ensures Kept(live, old(nodes), nodes)
    {
      hide Parted, Laid, Threaded, BlockSize, BlocksPerPage, HeapBytes, Blocks, GetBlock, AllThreaded, RunsLive;
      ghost var was, lists' := nodes, lists[d := Blocks(page, d)];
      SomeBlocks(page, d);
      var stage := ArenaStage(d, arenaDescriptors[d].blocksPerPage, false);
      NewRun(pages, classes, stages, page, 1, stage);
      LaidFacts(pages, classes, stages);
      CutParted(pages, classes, lists, live, page, d);
      RunsLiveCut(pages, classes, live, page, d);
      stages := stages[page := stage];
      arenaDescriptors[d] := arenaDescriptors[d].(firstFreeBlock := GetBlock(page, d, 0));
      Thread(page, d, stage.count);
      CutThreaded(was, nodes, pages, classes, lists, live, page, d);
      CutKeeps(was, nodes, pages, classes, lists, live, page, d);
      pages, classes, lists := pages[page := 1], classes[page := d], lists';
    }

    static lemma SomeBlocks(page: int, d: nat)
      requires d < DESCRIPTOR_COUNT
      ensures BlocksPerPage(d) > 0 && Blocks(page, d) != [] && GetBlock(page, d, 0) == First(Blocks(page, d))
    {
      BlockSizes();
      assert BlockSize(d) <= 1024;
    }

    static lemma LaidFacts(pages: Pages, classes: Classes, stages: map<int, ArenaStage>)
      requires Laid(pages, classes, stages)
      ensures classes.Keys <= pages.Keys && (forall p :: p in pages ==> Aligned(p)) && forall p :: p in classes ==> Aligned(p)
    {
    }

    /** Blocks of a new page are in no list yet. */
    static lemma CutThreaded(was: Nodes, nodes: Nodes, pages: Pages, classes: Classes, lists: Lists, live: map<int, nat>, page: int, d: nat)
      requires AllThreaded(was, lists) && Parted(pages, classes, lists, live) && d < DESCRIPTOR_COUNT
      requires classes.Keys <= pages.Keys && page !in pages && Aligned(page)
      requires Threaded(nodes, Blocks(page, d))
      requires forall b :: b in was && b !in Blocks(page, d) ==> b in nodes && nodes[b] == was[b]
      ensures AllThreaded(nodes, lists[d := Blocks(page, d)])
    {
      hide Threaded;
      var lists' := lists[d := Blocks(page, d)];
      forall e | 0 <= e < DESCRIPTOR_COUNT && e != d
        ensures Threaded(nodes, lists'[e])
      {
        assert Threaded(was, lists[e]);
        forall b | b in lists[e]
          ensures b !in Blocks(page, d)
        {
          var i :| 0 <= i < |lists[e]| && lists[e][i] == b;
          assert IsBlock(classes, e, lists[e][i]);
          NotOnPage(page, d, b);
        }
        ThreadedElsewhere(was, nodes, lists[e]);
      }
    }

    static lemma CutKeeps(was: Nodes, nodes: Nodes, pages: Pages, classes: Classes, lists: Lists, live: map<int, nat>, page: int, d: nat)
      requires Parted(pages, classes, lists, live) && classes.Keys <= pages.Keys && page !in pages && Aligned(page)
      requires forall b :: b in was && b !in Blocks(page, d) ==> b in nodes && nodes[b] == was[b]
      ensures Kept(live, was, nodes)
    {
      forall b | b in live
        ensures b !in Blocks(page, d)
      {
        assert Holds(pages, classes, b, live[b]);
        NotOnPage(page, d, b);
      }
    }

    static lemma NotOnPage(page: int, d: nat, b: int)
      requires Aligned(page) && GetStage(b) != page
      ensures b !in Blocks(page, d)
    {
      forall k: nat | k < BlocksPerPage(d)
        ensures Blocks(page, d)[k] != b
      {
        BlockInPage(page, d, k);
      }
    }

    /** A live block goes back to the head of its list. */
    method Push(d: nat, block: int)
      requires Consistent() && d < DESCRIPTOR_COUNT && block in live && IsBlock(classes, d, block) && block != 0
      modifies `nodes, `lists, `live, arenaDescriptors
      ensures Consistent() && live == old(live) - {block} && lists == old(lists)[d := [block] + old(lists)[d]]
      ensures Kept(live, old(nodes), nodes)
    {
      hide Parted, Laid, Threaded, BlockSize, BlocksPerPage, RunsLive;
      ghost var was, free := nodes, lists[d];
      FreeNotLive(pages, classes, lists, live, d);
      if free != [] {
        Head(nodes, lists, d);
      }
      if arenaDescriptors[d].firstFreeBlock != 0 {
        nodes := nodes[block := NodeAt(nodes, block).(next := arenaDescriptors[d].firstFreeBlock)];
        nodes := nodes[arenaDescriptors[d].firstFreeBlock := nodes[arenaDescriptors[d].firstFreeBlock].(prev := block)];
        arenaDescriptors[d] := arenaDescriptors[d].(firstFreeBlock := block);
      } else {
        arenaDescriptors[d] := arenaDescriptors[d].(firstFreeBlock := block);
        nodes := nodes[block := NodeAt(nodes, block).(next := 0)];
      }
      nodes := nodes[block := nodes[block].(prev := 0)];
      LaidFacts(pages, classes, stages);
      NotFree(pages, classes, lists, live, d, block);
      PushThreaded(was, pages, classes, lists, live, d, block);
      PushParted(pages, classes, lists, live, d, block);
      RunsLiveBlock(pages, classes, live, block);
      assert nodes == Pushed(was, free, block);
      lists := lists[d := [block] + lists[d]];
      live := live - {block};
    }

    static lemma NotFree(pages: Pages, classes: Classes, lists: Lists, live: map<int, nat>, d: nat, b: int)
      requires Parted(pages, classes, lists, live) && d < DESCRIPTOR_COUNT && b in live
      ensures b !in lists[d]
    {
    }

    static lemma PushThreaded(nodes: Nodes, pages: Pages, classes: Classes, lists: Lists, live: map<int, nat>, d: nat, b: int)
      requires AllThreaded(nodes, lists) && Parted(pages, classes, lists, live) && d < DESCRIPTOR_COUNT && b in live && b != 0
      requires lists[d] != [] ==> lists[d][0] in nodes
      ensures AllThreaded(Pushed(nodes, lists[d], b), lists[d := [b] + lists[d]])
    {
      hide Parted;
      var lists' := lists[d := [b] + lists[d]];
      forall e | 0 <= e < DESCRIPTOR_COUNT
        ensures Threaded(Pushed(nodes, lists[d], b), lists'[e])
      {
        assert Threaded(nodes, lists[d]) && Threaded(nodes, lists[e]);
        NotFree(pages, classes, lists, live, e, b);
        if e == d {
          PushedThreaded(nodes, lists[d], b);
        } else {
          if lists[d] != [] {
            OneList(pages, classes, lists, live, d, e, lists[d][0]);
          }
          ThreadedElsewhere(nodes, Pushed(nodes, lists[d], b), lists[e]);
        }
      }
    }

    // ----- malloc -----

    /** How many pages a request takes that needs new ones, in 64-bit arithmetic like the original's. */
    static function PagesFor(size: nat): nat {
      if size > MAXIMUM_LINKABLE_BLOCK_SIZE then ((size + STAGE_SIZE) % LIMIT + (PAGE_SIZE - 1)) % LIMIT / PAGE_SIZE else 1
    }

    /** The pages have room for a header and `size` bytes, exactly if the sums do not wrap around, and then one page less has
        not. */
    static lemma PagesSuffice(size: nat)
      requires MAXIMUM_LINKABLE_BLOCK_SIZE < size < LIMIT
      ensures 4096 * PagesFor(size) >= 16 + size <==> size + 4111 < 0x1_0000_0000_0000_0000
      ensures 4096 * (PagesFor(size) - 1) < 16 + size
    {
    }

    /** Where the first sum wraps around, no page at all is asked for. */
    static lemma NoPages()
      ensures PagesFor(LIMIT - STAGE_SIZE) == 0
    {
    }

    /** What users have written at the beginning of their blocks is still there. */
    static ghost predicate Kept(live: map<int, nat>, nodes: Nodes, nodes': Nodes) {
      forall b :: b in live && b in nodes ==> b in nodes' && nodes'[b] == nodes[b]
    }

    ghost function Books(): Account
      reads this, memory
    {
      Account(pages, classes, lists, memory.Managed())
    }

    static ghost predicate SmallestClass(size: nat, d: nat) {
      d < DESCRIPTOR_COUNT && size <= BlockSize(d) && forall e :: 0 <= e < d ==> BlockSize(e) < size
    }

    /** What a successful `malloc` does. A large size gets a run of pages of its own, a small one the first free block of the
        smallest class that is large enough. */
    static ghost predicate Handed(a: Account, size: nat, address: int, a': Account) {
      if size > MAXIMUM_LINKABLE_BLOCK_SIZE then
        var p, n := address - STAGE_SIZE, PagesFor(size);
        && p !in a.pages && Range(p, PAGE_SIZE * n) <= a.managed
        && a' == a.(pages := a.pages[p := n], managed := a.managed - Range(p, PAGE_SIZE * n))
      else
        exists d: nat :: SmallestClass(size, d) && HandedBlock(a, d, address, a')
    }

    /** A class without free blocks is given a page first. */
    static ghost predicate HandedBlock(a: Account, d: nat, address: int, a': Account)
      requires d < DESCRIPTOR_COUNT
    {
      if a.lists[d] != [] then address == a.lists[d][0] && a' == a.(lists := a.lists[d := a.lists[d][1..]])
      else
        var p := address - STAGE_SIZE;
        && p !in a.pages && Range(p, PAGE_SIZE) <= a.managed && BlocksPerPage(d) > 0
        && a' == a.(pages := a.pages[p := 1], classes := a.classes[p := d], lists := a.lists[d := Blocks(p, d)[1..]],
                    managed := a.managed - Range(p, PAGE_SIZE))
    }

    /** What `free` of a live pointer does: a run of pages goes back to the manager, as many pages as its header counts, and a
        block goes to the head of the list of its class. */
    static ghost predicate TakenBack(a: Account, address: int, a': Account) {
      var p := GetStage(address);
      if p in a.classes then
        var d := a.classes[p];
        d < DESCRIPTOR_COUNT && a' == a.(lists := a.lists[d := [address] + a.lists[d]])
      else
        p in a.pages && a' == a.(pages := a.pages - {p}, managed := a.managed + Range(p, PAGE_SIZE * (a.pages[p] % COUNT_LIMIT)))
    }

    method MallocLarge(size: nat) returns (address: int)
      requires Valid() && size > MAXIMUM_LINKABLE_BLOCK_SIZE && size + STAGE_SIZE + (PAGE_SIZE - 1) < LIMIT
      modifies this, memory, memory.Footprint()
      ensures Valid() && All() == old(All())
      ensures forall o :: o in memory.Footprint() ==> o in old(memory.Footprint()) || fresh(o)
      ensures address == 0 <==> !old(FreeMemoryManager.Available(memory.free, PAGE_SIZE * PagesFor(size)))
      ensures address == 0 ==> live == old(live) && Books() == old(Books())
      ensures Kept(old(live), old(nodes), nodes)
      ensures address != 0 ==> address !in old(live) && live == old(live)[address := size]
      ensures address != 0 ==> Handed(old(Books()), size, address, Books())
    {
      hide FreeMemoryManager.Stocked, FreeMemoryManager.Chained, FreeMemoryManager.Counted, FreeMemoryManager.Indexed,
        FreeMemoryManager.Blocks, FreeMemoryManager.LiveIn, FreeMemoryManager.Housed, WellSpaced, PageSized, Total, Bytes,
        FreeMemoryManager.PageBytes,
        FreeMemoryManager.Available, Described, AllThreaded, Laid, Parted, HeapBytes, RunsLive;
      var requiredSize := (size + STAGE_SIZE) % LIMIT;
      requiredSize := (requiredSize + (PAGE_SIZE - 1)) % LIMIT;
      var requiredPages := requiredSize / PAGE_SIZE;
      var page := AllocPage(memory, requiredPages);
      if page == 0 {
        return 0;
      }
      ghost var used := memory.Live();
      assert memory.Indexed(used) && FreeMemoryManager.Blocks(used) == memory.free;
      var stage := ArenaStage(-1, requiredPages % COUNT_LIMIT, true);
      NewRun(pages, classes, stages, page, requiredPages, stage);
      LaidFacts(pages, classes, stages);
      LargeParted(pages, classes, lists, live, page, requiredPages, size);
      RunsLiveWith(pages, classes, live, page, requiredPages, size);
      HeapBytesWith(pages, page, requiredPages);
      stages := stages[page := stage];
      address := page + STAGE_SIZE;
      pages, live := pages[page := requiredPages], live[address := size];
      assert memory.Indexed(used) && FreeMemoryManager.Blocks(used) == memory.free;
    }

    /** The smallest class that is large enough. */
    method FindClass(size: nat) returns (d: nat)
      requires Valid() && 0 < size <= MAXIMUM_LINKABLE_BLOCK_SIZE
      ensures Valid() && SmallestClass(size, d)
    {
      hide FreeMemoryManager.Valid, FreeMemoryManager.Managed, Parted, Laid, AllThreaded;
      BlockSizes();
      d := 0;
      for idx := 0 to DESCRIPTOR_COUNT
        invariant d == if idx == 0 then 0 else idx - 1
        invariant forall e :: 0 <= e < idx ==> BlockSize(e) < size
      {
        d := idx;
        if arenaDescriptors[idx].blockSize >= size {
          break;
        }
      }
    }

    static ghost predicate Refilled(a: Account, d: nat, page: int, a': Account)
      requires d < DESCRIPTOR_COUNT
    {
      && page !in a.pages && Range(page, PAGE_SIZE) <= a.managed
      && a' == Account(a.pages[page := 1], a.classes[page := d], a.lists[d := Blocks(page, d)], a.managed - Range(page, PAGE_SIZE))
    }

    /** A class without free blocks gets a new page; false if there is none. */
    method Refill(d: nat) returns (ok: bool, ghost page: int)
      requires Valid() && d < DESCRIPTOR_COUNT
      modifies this, arenaDescriptors, memory, memory.Footprint()
      ensures Valid() && All() == old(All()) && live == old(live)
      ensures forall o :: o in memory.Footprint() ==> o in old(memory.Footprint()) || fresh(o)
      ensures !ok <==> old(lists)[d] == [] && !old(FreeMemoryManager.Available(memory.free, PAGE_SIZE))
      ensures !ok || old(lists)[d] != [] ==> Books() == old(Books())
      ensures ok ==> lists[d] != []
      ensures Kept(live, old(nodes), nodes)
      ensures ok && old(lists)[d] == [] ==> Refilled(old(Books()), d, page, Books())
    {
      hide FreeMemoryManager.Stocked, FreeMemoryManager.Chained, FreeMemoryManager.Counted, FreeMemoryManager.Indexed,
        FreeMemoryManager.Blocks, FreeMemoryManager.LiveIn, FreeMemoryManager.Housed, WellSpaced, PageSized, Total, Bytes,
        FreeMemoryManager.PageBytes,
        FreeMemoryManager.Available, Described, AllThreaded, Laid, Parted, HeapBytes;
      EmptyOrNot(arenaDescriptors[..], nodes, lists, d);
      page := 0;
      if arenaDescriptors[d].firstFreeBlock == 0 {
        var newPage := AllocPage(memory, 1);
        assert PAGE_SIZE * 1 == PAGE_SIZE;
        if newPage == 0 {
          return false, 0;
        }
        page := newPage;
        ghost var used, before := memory.Live(), pages;
        assert memory.Indexed(used) && FreeMemoryManager.Blocks(used) == memory.free;
        Cut(newPage, d);
        assert memory.Indexed(used) && FreeMemoryManager.Blocks(used) == memory.free;
        HeapBytesWith(before, page, 1);
      }
      ok := true;
    }

    method Take(d: nat, ghost size: nat) returns (block: int)
      requires Valid() && d < DESCRIPTOR_COUNT && lists[d] != [] && 0 < size <= BlockSize(d)
      modifies `nodes, `lists, `live, arenaDescriptors
      ensures Valid() && All() == old(All()) && block != 0 && block !in old(live) && live == old(live)[block := size]
      ensures Kept(old(live), old(nodes), nodes)
      ensures block == old(lists)[d][0] && Books() == old(Books()).(lists := old(lists)[d := old(lists)[d][1..]])
    {
      hide FreeMemoryManager.Stocked, FreeMemoryManager.Chained, FreeMemoryManager.Counted, FreeMemoryManager.Indexed,
        FreeMemoryManager.Blocks, FreeMemoryManager.LiveIn, FreeMemoryManager.Housed, WellSpaced, PageSized, Total, Bytes,
        FreeMemoryManager.PageBytes,
        Described, AllThreaded, Laid, Parted, HeapBytes, RunsLive;
      ghost var used := memory.Live();
      assert memory.Indexed(used) && FreeMemoryManager.Blocks(used) == memory.free;
      block := Pop(d, size);
      assert memory.Indexed(used) && FreeMemoryManager.Blocks(used) == memory.free;
    }

    method MallocSmall(size: nat) returns (address: int)
      requires Valid() && 0 < size <= MAXIMUM_LINKABLE_BLOCK_SIZE
      modifies this, arenaDescriptors, memory, memory.Footprint()
      ensures Valid() && All() == old(All())
      ensures forall o :: o in memory.Footprint() ==> o in old(memory.Footprint()) || fresh(o)
      ensures address == 0 <==> NeedsPages(size, old(lists)) && !old(FreeMemoryManager.Available(memory.free, PAGE_SIZE))
      ensures address == 0 ==> live == old(live) && Books() == old(Books())
      ensures Kept(old(live), old(nodes), nodes)
      ensures address != 0 ==> address !in old(live) && live == old(live)[address := size]
      ensures address != 0 ==> Handed(old(Books()), size, address, Books())
    {
      hide Valid, FreeMemoryManager.Available, FreeMemoryManager.Managed, All, Blocks, BlocksPerPage;
      ghost var a := Books();
      var d := FindClass(size);
      OneClass(size, d);
      ghost var page;
      var ok;
      ok, page := Refill(d);
      if ok {
        SomeBlocks(page, d);
        address := Take(d, size);
        assert SmallestClass(size, d) && HandedBlock(a, d, address, Books());
      } else {
        address := 0;
      }
    }

    static lemma OneClass(size: nat, d: nat)
      requires SmallestClass(size, d)
      ensures forall e: nat :: SmallestClass(size, e) ==> e == d
    {
    }

    static lemma EmptyOrNot(ds: seq<ArenaDescriptor>, nodes: Nodes, lists: Lists, d: nat)
      requires Described(ds, lists) && AllThreaded(nodes, lists) && d < DESCRIPTOR_COUNT
      ensures |ds| == DESCRIPTOR_COUNT && (ds[d].firstFreeBlock == 0 <==> lists[d] == [])
    {
      assert Threaded(nodes, lists[d]);
    }

    /** Whether a request cannot be met from a free block. */
    static ghost predicate NeedsPages(size: nat, lists: Lists) {
      size > MAXIMUM_LINKABLE_BLOCK_SIZE || exists d: nat :: SmallestClass(size, d) && lists[d] == []
    }

    method Malloc(size: nat) returns (address: int)
      requires Valid() && size + STAGE_SIZE + (PAGE_SIZE - 1) < LIMIT
      modifies this, arenaDescriptors, memory, memory.Footprint()
      ensures Valid() && All() == old(All())
      ensures forall o :: o in memory.Footprint() ==> o in old(memory.Footprint()) || fresh(o)
      ensures address == 0 <==> size == 0 || (NeedsPages(size, old(lists)) && !old(FreeMemoryManager.Available(memory.free, PAGE_SIZE * PagesFor(size))))
      ensures address == 0 ==> live == old(live) && Books() == old(Books())
      ensures Kept(old(live), old(nodes), nodes)
      ensures address != 0 ==> address !in old(live) && live == old(live)[address := size]
      ensures address != 0 ==> Handed(old(Books()), size, address, Books())
    {
      hide Valid, FreeMemoryManager.Available, All, Handed;
      if size == 0 {
        return 0;
      }
      if size > MAXIMUM_LINKABLE_BLOCK_SIZE {
        address := MallocLarge(size);
      } else {
        address := MallocSmall(size);
      }
    }

    // ----- free -----

    /** The pages of a large pointer go back, as many as the 32 bits of the header say. */
    method FreeLarge(address: int)
      requires Valid() && address in live && GetStage(address) in stages && stages[GetStage(address)].isLarge
      modifies this, memory, memory.Footprint()
      ensures Valid() && live == old(live) - {address}
      ensures forall o :: o in memory.Footprint() ==> o in old(memory.Footprint()) || fresh(o)
      ensures All() == old(All()) - Lost(old(pages), GetStage(address))
      ensures TakenBack(old(Books()), address, Books()) && Kept(live, old(nodes), nodes)
    {
      hide FreeMemoryManager.Stocked, FreeMemoryManager.Chained, FreeMemoryManager.Counted, FreeMemoryManager.Indexed,
        FreeMemoryManager.Blocks, FreeMemoryManager.LiveIn, FreeMemoryManager.Housed, WellSpaced, PageSized, Total, Bytes,
        FreeMemoryManager.PageBytes,
        Described, AllThreaded, Laid, Parted, HeapBytes, RunsLive;
      LargeFacts(pages, classes, stages, lists, live, address);
      var realAddress := address - STAGE_SIZE;
      var count := stages[GetStage(address)].count;
      ghost var n := pages[realAddress];
      HeapBytesWithout(pages, classes, stages, realAddress);
      SplitRun(realAddress, n, count);
      ReturnParted(pages, classes, lists, live, realAddress);
      RunsLiveWithout(pages, classes, live, realAddress);
      LaidWithout(pages, classes, stages, realAddress);
      FreePage(memory, realAddress, count);
      ghost var used := memory.Live();
      assert memory.Indexed(used) && FreeMemoryManager.Blocks(used) == memory.free;
      pages, live := pages - {realAddress}, live - {address};
      assert memory.Indexed(used) && FreeMemoryManager.Blocks(used) == memory.free;
    }

    /** The pages of a run that its header has forgotten. */
    static ghost function Lost(pages: Pages, p: int): iset<int> {
      if p in pages then
        var n := pages[p];
        Range(p + PAGE_SIZE * (n % COUNT_LIMIT), PAGE_SIZE * (n - n % COUNT_LIMIT))
      else iset{}
    }

    /** None, unless the run has 2^32 pages or more. */
    static lemma LostNone(pages: Pages, p: int)
      requires p in pages
      ensures Lost(pages, p) == iset{} <==> pages[p] < 0x1_0000_0000
    {
      var n := pages[p];
      if n < COUNT_LIMIT {
        assert n % COUNT_LIMIT == n;
      } else {
        assert n - n % COUNT_LIMIT > 0;
        assert p + PAGE_SIZE * (n % COUNT_LIMIT) in Lost(pages, p);
      }
    }

    static lemma LargeFacts(pages: Pages, classes: Classes, stages: map<int, ArenaStage>, lists: Lists, live: map<int, nat>, address: int)
      requires Laid(pages, classes, stages) && Parted(pages, classes, lists, live) && address in live
      requires GetStage(address) in stages && stages[GetStage(address)].isLarge
      ensures var p := address - STAGE_SIZE;
        && p == GetStage(address) && p in pages && p !in classes && p in stages && p > 0 && Aligned(p)
        && p + PAGE_SIZE * pages[p] < LIMIT
        && stages[p].count == pages[p] % COUNT_LIMIT && (forall q :: q in classes ==> Aligned(q))
    {
      HeaderFound(pages, classes, stages, lists, live, address);
    }

    static lemma LaidWithout(pages: Pages, classes: Classes, stages: map<int, ArenaStage>, p: int)
      requires Laid(pages, classes, stages) && p !in classes
      ensures Laid(pages - {p}, classes, stages)
    {
    }

    static lemma SplitRun(p: int, n: nat, m: nat)
      requires m == n % COUNT_LIMIT
      ensures m <= n && Range(p, PAGE_SIZE * n) == Range(p, PAGE_SIZE * m) + Range(p + PAGE_SIZE * m, PAGE_SIZE * (n - m))
      ensures Range(p, PAGE_SIZE * m) !! Range(p + PAGE_SIZE * m, PAGE_SIZE * (n - m))
    {
      Adjoin(p, PAGE_SIZE * m, PAGE_SIZE * (n - m));
    }

    method FreeSmall(address: int)
      requires Valid() && address in live && GetStage(address) in stages && !stages[GetStage(address)].isLarge
      modifies `stages, `nodes, `lists, `live, arenaDescriptors
      ensures Valid() && live == old(live) - {address} && All() == old(All())
      ensures TakenBack(old(Books()), address, Books()) && Kept(live, old(nodes), nodes)
      ensures var p := GetStage(address);
        p in old(stages) && stages == old(stages)[p := old(stages)[p].(count := (old(stages)[p].count + 1) % COUNT_LIMIT)]
    {
      hide FreeMemoryManager.Stocked, FreeMemoryManager.Chained, FreeMemoryManager.Counted, FreeMemoryManager.Indexed,
        FreeMemoryManager.Blocks, FreeMemoryManager.LiveIn, FreeMemoryManager.Housed, WellSpaced, PageSized, Total, Bytes,
        FreeMemoryManager.PageBytes,
        Described, AllThreaded, Laid, Parted, HeapBytes, RunsLive;
      ghost var used := memory.Live();
      assert memory.Indexed(used) && FreeMemoryManager.Blocks(used) == memory.free;
      SmallFacts(pages, classes, stages, lists, live, address);
      var stage := stages[GetStage(address)];
      stages := stages[GetStage(address) := stage.(count := (stage.count + 1) % COUNT_LIMIT)];
      Push(stage.descriptor, address);
      assert memory.Indexed(used) && FreeMemoryManager.Blocks(used) == memory.free;
    }

    static lemma SmallFacts(pages: Pages, classes: Classes, stages: map<int, ArenaStage>, lists: Lists, live: map<int, nat>, address: int)
      requires Laid(pages, classes, stages) && Parted(pages, classes, lists, live) && address in live
      requires GetStage(address) in stages && !stages[GetStage(address)].isLarge
      ensures var p, stage := GetStage(address), stages[GetStage(address)];
        && 0 <= stage.descriptor < DESCRIPTOR_COUNT && IsBlock(classes, stage.descriptor, address) && address != 0
        && Laid(pages, classes, stages[p := stage.(count := (stage.count + 1) % COUNT_LIMIT)])
    {
      HeaderFound(pages, classes, stages, lists, live, address);
      HeldInside(pages, classes, stages, address, live[address]);
    }

    method Free(address: int)
      requires Valid() && (address == 0 || address in live)
      modifies this, arenaDescriptors, memory, memory.Footprint()
      ensures Valid() && live == old(live) - {address}
      ensures forall o :: o in memory.Footprint() ==> o in old(memory.Footprint()) || fresh(o)
      ensures GetStage(address) in old(classes) ==> All() == old(All())
      ensures GetStage(address) !in old(classes) ==> All() == old(All()) - Lost(old(pages), GetStage(address))
      ensures Kept(live, old(nodes), nodes)
      ensures if address == 0 then Books() == old(Books()) else TakenBack(old(Books()), address, Books())
    {
      hide FreeMemoryManager.Valid, FreeMemoryManager.Managed, Described, AllThreaded, Laid, Parted, HeapBytes, Lost;
      NoNull(pages, classes, stages, lists, live, address);
      if address == 0 {
        return;
      }
      if stages[GetStage(address)].isLarge {
        FreeLarge(address);
      } else {
        FreeSmall(address);
      }
    }

    static lemma NoNull(pages: Pages, classes: Classes, stages: map<int, ArenaStage>, lists: Lists, live: map<int, nat>, address: int)
      requires Laid(pages, classes, stages) && Parted(pages, classes, lists, live)
      ensures 0 !in live && GetStage(0) !in pages && GetStage(0) !in classes && Lost(pages, GetStage(0)) == iset{}
      ensures address in live ==> GetStage(address) in stages && (stages[GetStage(address)].isLarge <==> GetStage(address) !in classes)
    {
      if address in live {
        HeaderFound(pages, classes, stages, lists, live, address);
      }
      if 0 in live {
        HeaderFound(pages, classes, stages, lists, live, 0);
      }
    }

    /** What `Valid` says of the books. */
    static ghost predicate Kempt(a: Account) {
      && a.classes.Keys <= a.pages.Keys && (forall p :: p in a.pages ==> Aligned(p))
      && forall d, i :: 0 <= d < DESCRIPTOR_COUNT && 0 <= i < |a.lists[d]| ==> IsBlock(a.classes, d, a.lists[d][i])
    }

    lemma BooksKempt()
      requires Valid()
      ensures Kempt(Books())
    {
    }

    /** `free` undoes `malloc`, except that a page that was cut for it stays with the heap. */
    static lemma FreeUndoesMalloc(a: Account, size: nat, address: int, a': Account, a'': Account)
      requires Kempt(a) && Kempt(a') && Handed(a, size, address, a') && TakenBack(a', address, a'')
      requires size > MAXIMUM_LINKABLE_BLOCK_SIZE ==> PagesFor(size) < COUNT_LIMIT
      ensures a'' == a || (size <= MAXIMUM_LINKABLE_BLOCK_SIZE && exists d: nat, p :: SmallestClass(size, d) && a.lists[d] == [] && Refilled(a, d, p, a''))
    {
      hide IsBlock, PagesFor, BlocksPerPage;
      if size > MAXIMUM_LINKABLE_BLOCK_SIZE {
        var p := address - STAGE_SIZE;
        assert Aligned(p) && GetStage(address) == p;
        assert a''.pages == a.pages && a''.managed == a.managed;
      } else {
        var d: nat :| SmallestClass(size, d) && HandedBlock(a, d, address, a');
        if a.lists[d] != [] {
          assert IsBlock(a.classes, d, a.lists[d][0]);
          BlockClass(a.classes, d, address);
          assert [address] + a.lists[d][1..] == a.lists[d];
          assert a''.lists == a.lists;
        } else {
          var p := address - STAGE_SIZE;
          assert Aligned(p) && GetStage(address) == p;
          FirstOf(p, d);
          assert a''.lists == a.lists[d := Blocks(p, d)];
          assert Refilled(a, d, p, a'');
        }
      }
    }

    static lemma BlockClass(classes: Classes, d: nat, b: int)
      requires IsBlock(classes, d, b)
      ensures GetStage(b) in classes && classes[GetStage(b)] == d
    {
    }

    static lemma FirstOf(p: int, d: nat)
      requires BlocksPerPage(d) > 0
      ensures [p + STAGE_SIZE] + Blocks(p, d)[1..] == Blocks(p, d)
    {
    }

    /** A byte at `x` changes only what is read at most fifteen bytes before it. */
    static ghost predicate Reread<T>(m: map<int, T>, m': map<int, T>, x: int) {
      m'.Keys == m.Keys && forall k :: k in m && x !in Range(k, 16) ==> m'[k] == m[k]
    }

    /** A user of the heap writes any byte of a live block, whatever headers and links are then read out of the bytes around
        it: nothing that the heap relies on has changed. */
    method UserWrites(address: int, offset: nat, nodes': Nodes, stages': map<int, ArenaStage>)
      requires Valid() && address in live && offset < live[address]
      requires Reread(nodes, nodes', address + offset) && Reread(stages, stages', address + offset)
      modifies `nodes, `stages
      ensures Valid() && nodes == nodes' && stages == stages'
    {
      hide FreeMemoryManager.Stocked, FreeMemoryManager.Chained, FreeMemoryManager.Counted, FreeMemoryManager.Indexed,
        FreeMemoryManager.Blocks, FreeMemoryManager.LiveIn, FreeMemoryManager.Housed, WellSpaced, PageSized, Total, Bytes,
        FreeMemoryManager.PageBytes, Described, AllThreaded, Laid, Parted, HeapBytes, Reread, RunsLive;
      ghost var used := memory.Live();
      assert memory.Indexed(used) && FreeMemoryManager.Blocks(used) == memory.free;
      ThreadedStays(pages, classes, stages, lists, live, nodes, nodes', address, offset);
      LaidStays(pages, classes, stages, lists, live, stages', address, offset);
      nodes, stages := nodes', stages';
      assert memory.Indexed(used) && FreeMemoryManager.Blocks(used) == memory.free;
    }

    static lemma ThreadedStays(pages: Pages, classes: Classes, stages: map<int, ArenaStage>, lists: Lists, live: map<int, nat>,
                               nodes: Nodes, nodes': Nodes, b: int, offset: nat)
      requires Laid(pages, classes, stages) && Parted(pages, classes, lists, live) && AllThreaded(nodes, lists)
      requires b in live && offset < live[b] && Reread(nodes, nodes', b + offset)
      ensures AllThreaded(nodes', lists)
    {
      forall d | 0 <= d < DESCRIPTOR_COUNT
        ensures Threaded(nodes', lists[d])
      {
        forall f | f in lists[d] && f in nodes
          ensures f in nodes' && nodes'[f] == nodes[f]
        {
          var i :| 0 <= i < |lists[d]| && lists[d][i] == f;
          LinksSafe(pages, classes, stages, lists, live, b, d, i);
          assert b + offset in Range(b, live[b]);
        }
        ThreadedElsewhere(nodes, nodes', lists[d]);
      }
    }

    static lemma LaidStays(pages: Pages, classes: Classes, stages: map<int, ArenaStage>, lists: Lists, live: map<int, nat>,
                           stages': map<int, ArenaStage>, b: int, offset: nat)
      requires Laid(pages, classes, stages) && Parted(pages, classes, lists, live)
      requires b in live && offset < live[b] && Reread(stages, stages', b + offset)
      ensures Laid(pages, classes, stages')
    {
      forall q | q in pages
        ensures stages'[q] == stages[q]
      {
        HeadersSafe(pages, classes, stages, lists, live, b, q);
        assert b + offset in Range(b, live[b]);
      }
    }
  }
}
