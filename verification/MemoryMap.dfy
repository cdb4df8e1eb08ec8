/** Registering the usable memory that the firmware reports with the free memory manager. */
module MemoryMap {
  import opened DoubleLinkedTrees
  import opened FreeTable
  import opened FreeMemory

  const BEGIN_OF_USABLE_ADDRESS := 0xF0_0000
  const MAX_ARDS := 33

  /** A range of memory as reported; 1 marks usable memory. */
  datatype Ards = Ards(base: int, size: int, kind: int)

  ghost predicate Sane(a: Ards) {
    0 <= a.base && 0 <= a.size && a.base + a.size < LIMIT
  }

  /** The whole page around `b` is usable memory of the range, beyond the first 15 MB. */
  ghost predicate InWholePage(a: Ards, b: int) {
    var page := b - b % PAGE_SIZE;
    a.kind == 1 && 15 * 1024 * 1024 <= page && a.base <= page && page + PAGE_SIZE <= a.base + a.size
  }

  ghost predicate Reported(ards: seq<Ards>, b: int) {
    exists i :: 0 <= i < |ards| && InWholePage(ards[i], b)
  }

  ghost function ReportedBytes(ards: seq<Ards>): iset<int> {
    iset b | Reported(ards, b)
  }

  /** What of a usable range is registered: whole pages beyond the first 15 MB. */
  function AlignArds(a: Ards): (r: (int, int))
    requires Sane(a) && a.kind == 1
    ensures Aligned(r.0) && Aligned(r.1) && 0 <= r.0 && 0 <= r.1 && r.0 + r.1 < LIMIT
  {
    if a.base + a.size < BEGIN_OF_USABLE_ADDRESS then (0, 0)
    else
      var (base, size) :=
        if a.base < BEGIN_OF_USABLE_ADDRESS then (BEGIN_OF_USABLE_ADDRESS, a.size - (BEGIN_OF_USABLE_ADDRESS - a.base))
        else (a.base, a.size);
      if base % 4096 == 0 then (base, size / 4096 * 4096)
      else
        var next := base / 4096 * 4096 + 4096;
        if next - base >= size then (0, 0) else (next, (size - (next - base)) / 4096 * 4096)
  }

  /** The registered bytes are exactly those of the whole usable pages. */
  lemma AlignExact(a: Ards, b: int)
    requires Sane(a) && a.kind == 1
    ensures var r := AlignArds(a); Within(b, r.0, r.1) <==> InWholePage(a, b)
  {
    var r := AlignArds(a);
    var p := b / PAGE_SIZE;
    assert b - b % PAGE_SIZE == p * PAGE_SIZE;
    var q, s := r.0 / PAGE_SIZE, r.1 / PAGE_SIZE;
    assert r.0 == q * PAGE_SIZE && r.1 == s * PAGE_SIZE;
    assert Within(b, r.0, r.1) <==> q <= p < q + s;
  }

  /** Usable ranges do not overlap in whole pages. */
  ghost predicate Separate(ards: seq<Ards>) {
    forall i, j, b :: 0 <= i < j < |ards| && InWholePage(ards[i], b) ==> !InWholePage(ards[j], b)
  }

  lemma ReportedMore(ards: seq<Ards>, i: nat, base: int, size: int)
    requires i < |ards| && forall b :: Within(b, base, size) <==> InWholePage(ards[i], b)
    ensures ReportedBytes(ards[..i + 1]) == ReportedBytes(ards[..i]) + Range(base, size)
    ensures Separate(ards) ==> ReportedBytes(ards[..i]) !! Range(base, size)
    ensures Range(base, size) <= ReportedBytes(ards)
  {
    hide InWholePage;
    forall b
      ensures Reported(ards[..i + 1], b) <==> Reported(ards[..i], b) || InWholePage(ards[i], b)
    {
      if Reported(ards[..i], b) {
        var k :| 0 <= k < i && InWholePage(ards[..i][k], b);
        assert ards[..i + 1][k] == ards[k];
      }
      if InWholePage(ards[i], b) {
        assert ards[..i + 1][i] == ards[i];
      }
    }
  }

  /** One turn of the loop; a return stands for a `continue`. */
  method Register(manager: FreeMemoryManager, ghost ards: seq<Ards>, ghost i: nat, a: Ards, ghost managed: iset<int>)
    requires manager.Valid() && i < |ards| && Separate(ards) && a == ards[i] && Sane(a)
    requires manager.Managed() == managed + ReportedBytes(ards[..i]) && ReportedBytes(ards) !! managed
    modifies manager, manager.Footprint()
    ensures manager.Valid() && manager.Managed() == managed + ReportedBytes(ards[..i + 1])
    ensures forall o :: o in manager.Footprint() ==> o in old(manager.Footprint()) || fresh(o)
  {
    hide FreeMemoryManager.Valid, FreeMemoryManager.Managed, InWholePage, Separate, ReportedBytes, Range, FreeMemoryManager.Footprint;
    var base, size := a.base, a.size;
    ReportedOne(ards, i, a);
    if a.kind != 1 {
      return;
    }
    Nothing(0);
    if base + size < BEGIN_OF_USABLE_ADDRESS {
      return;
    }
    if base < BEGIN_OF_USABLE_ADDRESS {
      size := size - (BEGIN_OF_USABLE_ADDRESS - base);
      base := BEGIN_OF_USABLE_ADDRESS;
    }
    if base % 4096 != 0 {
      var prevBase := base;
      base := base / 4096;
      base := base * 4096;
      base := base + 4096;
      if base - prevBase >= size {
        return;
      }
      size := size - (base - prevBase);
    }
    size := size / 4096;
    size := size * 4096;
    if size == 0 {
      Nothing(base);
      return;
    }
    Apart(manager, base, size);
    manager.Free(base, size);
  }

  /** What one usable range adds to the reported bytes. */
  lemma ReportedOne(ards: seq<Ards>, i: nat, a: Ards)
    requires i < |ards| && a == ards[i] && Sane(a)
    ensures a.kind != 1 ==> ReportedBytes(ards[..i + 1]) == ReportedBytes(ards[..i])
    ensures a.kind == 1 ==>
              var (base, size) := AlignArds(a);
              && ReportedBytes(ards[..i + 1]) == ReportedBytes(ards[..i]) + Range(base, size)
              && (Separate(ards) ==> ReportedBytes(ards[..i]) !! Range(base, size)) && Range(base, size) <= ReportedBytes(ards)
  {
    hide InWholePage, Separate, ReportedBytes, Range;
    if a.kind == 1 {
      var (base, size) := AlignArds(a);
      forall b {
        AlignExact(a, b);
      }
      hide AlignArds;
      ReportedMore(ards, i, base, size);
    } else {
      NotUsable(a);
      ReportedMore(ards, i, 0, 0);
      Nothing(0);
    }
  }

  lemma NotUsable(a: Ards)
    requires a.kind != 1
    ensures forall b :: !InWholePage(a, b)
  {
  }

  /** A range outside of everything the manager answers for can be freed, and all of it becomes free. */
  lemma Apart(manager: FreeMemoryManager, base: int, size: int)
    requires manager.Valid() && size > 0 && manager.Managed() !! Range(base, size)
    ensures Range(base, size) !! FreeMemoryManager.PageBytes(manager.pages) && !Underruns(manager.free, base, size)
    ensures Added(manager.free, base, size) == Range(base, size)
  {
    hide FreeMemoryManager.Holding, FreeMemoryManager.Housed, WellSpaced, PageSized, Total, Bytes, Range, FreeMemoryManager.PageBytes;
    DisjointAdded(manager.free, base, size);
  }

  method ProcessArds(manager: FreeMemoryManager, ardsBuffer: seq<Ards>)
    requires manager.Valid() && forall a :: a in ardsBuffer ==> Sane(a)
    requires Separate(Limited(ardsBuffer)) && ReportedBytes(Limited(ardsBuffer)) !! manager.Managed()
    modifies manager, manager.Footprint()
    ensures manager.Valid() && manager.Managed() == old(manager.Managed()) + ReportedBytes(Limited(ardsBuffer))
    ensures |ardsBuffer| <= 33 ==> manager.Managed() == old(manager.Managed()) + ReportedBytes(ardsBuffer)
    ensures |ardsBuffer| > 33 ==> manager.Managed() == old(manager.Managed()) + ReportedBytes(ardsBuffer[..33])
  {
    hide FreeMemoryManager.Valid, FreeMemoryManager.Managed, Separate, ReportedBytes, FreeMemoryManager.Footprint;
    var ards := ardsBuffer;
    if |ards| > MAX_ARDS {
      ards := ards[..MAX_ARDS];
    }
    ghost var managed, footprint := manager.Managed(), manager.Footprint();
    NothingReported();
    assert ards[..0] == [];
    for i := 0 to |ards|
      invariant manager.Valid() && forall o :: o in manager.Footprint() ==> o in footprint || fresh(o)
      invariant manager.Managed() == managed + ReportedBytes(ards[..i])
    {
      Register(manager, ards, i, ards[i], managed);
    }
    assert ards[..|ards|] == ards;
  }

  function Limited(ards: seq<Ards>): seq<Ards> {
    if |ards| > MAX_ARDS then ards[..MAX_ARDS] else ards
  }

  lemma NothingReported()
    ensures ReportedBytes([]) == iset{}
  {
  }
}
