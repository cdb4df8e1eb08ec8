/** Where the frames for page tables and user pages come from: to the free memory manager, a free frame is a whole page of
    the bytes it answers for. */
module PageFrames {
  import opened DoubleLinkedTrees
  import opened FreeTable
  import opened FreeMemory
  import KernelHeap

  ghost predicate IsFree(managed: iset<int>, frame: int) {
    Range(frame * PAGE_SIZE, PAGE_SIZE) <= managed
  }

  ghost function Frames(managed: iset<int>): iset<int> {
    iset f | IsFree(managed, f)
  }

  /** Taking the bytes of one frame out takes no other frame. */
  lemma FramesWithout(managed: iset<int>, frame: int)
    ensures Frames(managed - Range(frame * PAGE_SIZE, PAGE_SIZE)) == Frames(managed) - iset{frame}
  {
    var page := Range(frame * PAGE_SIZE, PAGE_SIZE);
    forall f
      ensures IsFree(managed - page, f) <==> IsFree(managed, f) && f != frame
    {
      FramesApart(f, frame);
      assert f * PAGE_SIZE in Range(f * PAGE_SIZE, PAGE_SIZE);
    }
  }

  /** Giving them back frees that frame and no other. */
  lemma FramesWith(managed: iset<int>, frame: int)
    ensures Frames(managed + Range(frame * PAGE_SIZE, PAGE_SIZE)) == Frames(managed) + iset{frame}
  {
    var page := Range(frame * PAGE_SIZE, PAGE_SIZE);
    forall f
      ensures IsFree(managed + page, f) <==> IsFree(managed, f) || f == frame
    {
      FramesApart(f, frame);
      if f != frame && IsFree(managed + page, f) {
        assert forall b :: b in Range(f * PAGE_SIZE, PAGE_SIZE) ==> b in managed + page && b !in page;
      }
    }
  }

  lemma FramesApart(f: int, g: int)
    ensures f != g ==> Range(f * PAGE_SIZE, PAGE_SIZE) !! Range(g * PAGE_SIZE, PAGE_SIZE)
  {
  }

  /** `allocPage` with one page, seen from the paging code: a free frame, which is free no longer, or 0. */
  method AllocFrame(memory: FreeMemoryManager) returns (frame: int)
    requires memory.Valid() && 0 !in memory.Managed()
    modifies memory, memory.Footprint()
    ensures memory.Valid() && forall o :: o in memory.Footprint() ==> o in old(memory.Footprint()) || fresh(o)
    ensures frame == 0 <==> !old(FreeMemoryManager.Available(memory.free, PAGE_SIZE))
    ensures frame == 0 ==> Frames(memory.Managed()) == old(Frames(memory.Managed()))
    ensures frame != 0 ==> frame in old(Frames(memory.Managed())) && Frames(memory.Managed()) == old(Frames(memory.Managed())) - iset{frame}
  {
    hide FreeMemoryManager.Valid, FreeMemoryManager.Managed, FreeMemoryManager.Footprint, FreeMemoryManager.Available, Frames;
    ghost var managed := memory.Managed();
    assert PAGE_SIZE * 1 == PAGE_SIZE;
    var page := KernelHeap.AllocPage(memory, 1);
    frame := page / PAGE_SIZE;
    if page != 0 {
      FramesWithout(managed, frame);
      FrameFree(managed, frame);
    }
  }

  lemma FrameFree(managed: iset<int>, frame: int)
    requires Range(frame * PAGE_SIZE, PAGE_SIZE) <= managed
    ensures frame in Frames(managed)
  {
  }

  /** `freePage` with one page. */
  method FreeFrame(memory: FreeMemoryManager, frame: int)
    requires memory.Valid() && 0 <= frame && frame * PAGE_SIZE + PAGE_SIZE < LIMIT
    requires memory.Managed() !! Range(frame * PAGE_SIZE, PAGE_SIZE)
    modifies memory, memory.Footprint()
    ensures memory.Valid() && forall o :: o in memory.Footprint() ==> o in old(memory.Footprint()) || fresh(o)
    ensures Frames(memory.Managed()) == old(Frames(memory.Managed())) + iset{frame}
  {
    hide FreeMemoryManager.Valid, FreeMemoryManager.Managed, FreeMemoryManager.Footprint, Frames;
    ghost var managed := memory.Managed();
    assert PAGE_SIZE * 1 == PAGE_SIZE;
    KernelHeap.FreePage(memory, frame * PAGE_SIZE, 1);
    FramesWith(managed, frame);
  }
}
