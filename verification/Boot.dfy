/** From firmware's memory map to the heap: what the bootloader claimed stays out
    of everything the kernel hands out. */
module Boot {
  import opened Machine
  import opened MemoryMap
  import Elf = ElfLoader
  import Image = ElfImage
  import Frames = FrameModel
  import Heaps = HeapModel
  import FrameAllocator
  import Heap
  import FreeList

  const HEAP_FRAMES: nat := 256

  /** The copy loop of `exit_and_jump`: as many descriptors as there is room for. */
  method CopyMap(descriptors: seq<MemoryRegion>, regions: array<MemoryRegion>) returns (count: nat)
    modifies regions
    ensures count == Min(|descriptors|, regions.Length)
    ensures regions[..count] == descriptors[..count]
    ensures regions[count..] == old(regions[count..])
  {
    count := 0;
    for i := 0 to |descriptors|
      invariant count == i <= regions.Length
      invariant regions[..count] == descriptors[..count]
      invariant regions[count..] == old(regions[count..])
    {
      if count >= regions.Length {
        break;
      }
      regions[count] := descriptors[i];
      count := count + 1;
    }
  }

  // --------------------------------------------------------------- firmware's map

  ghost predicate Apart(a: MemoryRegion, b: MemoryRegion) {
    a.End() <= b.start || b.End() <= a.start
  }

  /** Firmware's final map: no two descriptors overlap. */
  ghost predicate DisjointMap(descriptors: seq<MemoryRegion>) {
    forall i, j :: 0 <= i < j < |descriptors| ==> Apart(descriptors[i], descriptors[j])
  }

  ghost predicate HoldsPage(r: MemoryRegion, page: nat) {
    r.start <= page * PAGE_SIZE && (page + 1) * PAGE_SIZE <= r.End()
  }

  /** Every page the bootloader claimed is reported as loader data. */
  ghost predicate Reported(descriptors: seq<MemoryRegion>, claimed: set<nat>) {
    forall page :: page in claimed ==>
      exists i :: 0 <= i < |descriptors| && descriptors[i].kind == LOADER_DATA && HoldsPage(descriptors[i], page)
  }

  lemma UsableExcludesClaimed(descriptors: seq<MemoryRegion>, k: nat, page: nat)
    requires DisjointMap(descriptors) && k < |descriptors| && WholeFrame(descriptors[k], page)
    ensures forall i :: 0 <= i < |descriptors| && descriptors[i].kind == LOADER_DATA ==>
              !HoldsPage(descriptors[i], page)
  {
    forall i | 0 <= i < |descriptors| && descriptors[i].kind == LOADER_DATA ensures !HoldsPage(descriptors[i], page) {
      assert i != k && Apart(descriptors[Min(i, k)], descriptors[if i < k then k else i]);
    }
  }

  /** A truncated copy of the map yields no claimed page, even when the descriptor
      that reports the page is among those cut off. */
  lemma UsableMissesClaimed(descriptors: seq<MemoryRegion>, n: nat, claimed: set<nat>)
    requires DisjointMap(descriptors) && Reported(descriptors, claimed) && n <= |descriptors|
    ensures DisjointUsable(descriptors[..n])
    ensures forall page: nat :: InRuns(RunsFrom(descriptors[..n], 0), page) ==> page !in claimed
  {
    forall i, j | 0 <= i < j < n ensures Apart(descriptors[..n][i], descriptors[..n][j]) {
      assert Apart(descriptors[i], descriptors[j]);
    }
    forall page: nat | InRuns(RunsFrom(descriptors[..n], 0), page) ensures page !in claimed {
      RunsAreExact(descriptors[..n], 0, page);
      var k :| 0 <= k < n && WholeFrame(descriptors[..n][k], page);
      UsableExcludesClaimed(descriptors, k, page);
    }
  }

  // --------------------------------------------------------------- frames and heap

  /** The frame allocator's first state over a copied map. */
  function Seeded(regions: seq<MemoryRegion>): Frames.State
    requires RunsFrom(regions, 0) != []
  {
    Frames.Booted(RunsFrom(regions, 0))
  }

  lemma SeededInv(regions: seq<MemoryRegion>)
    requires DisjointUsable(regions) && RunsFrom(regions, 0) != []
    ensures Frames.Inv(Seeded(regions), Frames.FramesOf(RunsFrom(regions, 0)))
  {
    RunsFromDisjoint(regions, 0);
    RunsAreExact(regions, 0, 0);
    Frames.BootedInv(RunsFrom(regions, 0));
  }

  /** None of the frames the allocator starts with is a claimed page. */
  lemma FramesMissClaimed(descriptors: seq<MemoryRegion>, n: nat, claimed: set<nat>)
    requires DisjointMap(descriptors) && Reported(descriptors, claimed) && n <= |descriptors|
    ensures DisjointUsable(descriptors[..n]) && Frames.FramesOf(RunsFrom(descriptors[..n], 0)) !! claimed
  {
    var regions := descriptors[..n];
    UsableMissesClaimed(descriptors, n, claimed);
    RunsFromDisjoint(regions, 0);
    forall page: nat | page in Frames.FramesOf(RunsFrom(regions, 0)) ensures page !in claimed {
      Frames.CountRunsIsMembership(RunsFrom(regions, 0), page);
    }
  }

  /** No frame ever live is one the bootloader claimed, whatever is allocated and
      freed and however short the copy of the map. */
  lemma LiveFramesMissClaimed(descriptors: seq<MemoryRegion>, n: nat, claimed: set<nat>, ops: seq<Frames.Op>)
    requires DisjointMap(descriptors) && Reported(descriptors, claimed) && n <= |descriptors|
    requires RunsFrom(descriptors[..n], 0) != [] && Frames.Legal(Seeded(descriptors[..n]), ops)
    ensures Frames.Run(Seeded(descriptors[..n]), ops).handed !! claimed
  {
    var regions := descriptors[..n];
    var all := Frames.FramesOf(RunsFrom(regions, 0));
    FramesMissClaimed(descriptors, n, claimed);
    SeededInv(regions);
    Frames.RunKeepsPartition(Seeded(regions), ops, all);
    Frames.StackIsDistinct(Frames.Run(Seeded(regions), ops), all);
  }

  /** The pages of a loaded kernel are claimed, so no live frame is one of them:
      the kernel's own bytes are never handed out. */
  lemma KernelIsNeverHandedOut(image: Image.Image, m: Elf.Memory, descriptors: seq<MemoryRegion>, n: nat,
                               ops: seq<Frames.Op>, s: Image.Segment, a: nat)
    requires Elf.LoadResult(image, m).0.Ok?
    requires s in Image.Segments(image, Image.ParseHeader(image).value, 0) && s.HasPage(a / PAGE_SIZE)
    requires DisjointMap(descriptors) && n <= |descriptors|
    requires Reported(descriptors, m.free - Elf.LoadResult(image, m).1.free)
    requires RunsFrom(descriptors[..n], 0) != [] && Frames.Legal(Seeded(descriptors[..n]), ops)
    ensures a / PAGE_SIZE !in Frames.Run(Seeded(descriptors[..n]), ops).handed
  {
    var claimed := m.free - Elf.LoadResult(image, m).1.free;
    LiveFramesMissClaimed(descriptors, n, claimed, ops);
    Elf.SegmentPagesAreClaimed(image, m, s, a / PAGE_SIZE);
  }

  lemma PageOnGrid(f: nat)
    ensures f * PAGE_SIZE % 16 == 0
  {
    DivModUnique(f * PAGE_SIZE, f * 256, 0, 16);
  }

  lemma PagesFormArena(f: nat, n: nat)
    requires f > 0 && n > 0 && (f + n) * PAGE_SIZE <= I64_LIMIT
    ensures Heaps.Arena(f * PAGE_SIZE, (f + n) * PAGE_SIZE)
  {
    PageOnGrid(f);
    PageOnGrid(f + n);
  }

  lemma ArenaOf(s: Frames.State, all: set<nat>, f: nat, n: nat)
    requires Frames.Inv(s, all) && Frames.Contiguous(s, n).1 == Some(f) && n > 0
    requires forall g :: g in all ==> (g + 1) * PAGE_SIZE <= I64_LIMIT
    ensures Heaps.Arena(f * PAGE_SIZE, (f + n) * PAGE_SIZE)
    ensures Interval(f, n) <= Frames.Contiguous(s, n).0.handed
  {
    Frames.ContiguousKeepsInv(s, n, all);
    var first, last := f, f + n - 1;
    assert first in all && last in all;
    PagesFormArena(first, n);
  }

  /** The arena `heap::init` takes is one the heap can run in. */
  lemma HeapArena(s: Frames.State, all: set<nat>, f: nat)
    requires Frames.Inv(s, all) && Frames.Contiguous(s, HEAP_FRAMES).1 == Some(f)
    requires forall g :: g in all ==> (g + 1) * PAGE_SIZE <= I64_LIMIT
    ensures Heaps.Arena(f * PAGE_SIZE, (f + HEAP_FRAMES) * PAGE_SIZE)
    ensures Interval(f, HEAP_FRAMES) <= Frames.Contiguous(s, HEAP_FRAMES).0.handed
  {
    ArenaOf(s, all, f, HEAP_FRAMES);
  }

  method ArmHeap(start: uint64, mem: array<uint64>, ghost f: nat) returns (heap: Heap.Heap)
    requires start == f * PAGE_SIZE && Heaps.Arena(f * PAGE_SIZE, (f + HEAP_FRAMES) * PAGE_SIZE)
    requires mem.Length * 8 == HEAP_FRAMES * PAGE_SIZE
    modifies mem
    ensures fresh(heap) && heap.mem == mem && heap.Valid()
    ensures heap.state == Heaps.Initial(f * PAGE_SIZE, (f + HEAP_FRAMES) * PAGE_SIZE)
  {
    assert start + 8 * mem.Length == (f + HEAP_FRAMES) * PAGE_SIZE;
    heap := new Heap.Heap(start, mem);
    heap.Init(start, HEAP_FRAMES * PAGE_SIZE);
  }

  /** `heap::init`: claim the backing frames and arm the heap over them, or report
      that no run of them was left. */
  method InitHeap(frames: FrameAllocator.FrameAllocator, mem: array<uint64>) returns (heap: Heap.Heap?)
    requires frames.Valid() && mem != frames.words && mem.Length * 8 == HEAP_FRAMES * PAGE_SIZE
    requires forall g :: g in frames.all ==> (g + 1) * PAGE_SIZE <= I64_LIMIT
    modifies frames, frames.words, frames.runs, mem
    ensures frames.Valid()
    ensures var (t, r) := Frames.Contiguous(old(frames.state), HEAP_FRAMES);
            && frames.state == t && Frames.ContiguousAnswer(old(frames.state), HEAP_FRAMES, t, r)
            && (heap == null <==> r == None)
            && (heap != null ==>
                 && fresh(heap) && heap.mem == mem && heap.Valid()
                 && heap.state == Heaps.Initial(r.value * PAGE_SIZE, (r.value + HEAP_FRAMES) * PAGE_SIZE)
                 && Interval(r.value, HEAP_FRAMES) <= frames.state.handed)
  {
    ghost var s := frames.state;
    Frames.ContiguousIsExact(s, HEAP_FRAMES);
    var start := frames.AllocContiguous(HEAP_FRAMES);
    if start.None? {
      return null;
    }
    ghost var f := Frames.Contiguous(s, HEAP_FRAMES).1.value;
    HeapArena(s, frames.all, f);
    heap := ArmHeap(start.value, mem, f);
  }

  /** Every byte the heap ever lends lies in a frame of its arena. */
  lemma HeapStaysInArena(h: Heaps.State, f: nat, b: FreeList.Block, a: nat)
    requires Heaps.Inv(h) && h.lo == f * PAGE_SIZE && h.hi == (f + HEAP_FRAMES) * PAGE_SIZE
    requires b in h.live && b.Has(a)
    ensures a / PAGE_SIZE in Interval(f, HEAP_FRAMES)
  {
  }

  /** All frames a run grants. */
  function Grants(s: Frames.State, ops: seq<Frames.Op>): set<nat>
    requires Frames.Legal(s, ops)
    decreases |ops|
  {
    if ops == [] then {} else
    var t := Frames.Apply(s, ops[0]);
    (t.handed - s.handed) + Grants(t, ops[1..])
  }

  /** While nobody frees the arena's frames, no later grant overlaps the arena. */
  lemma {:induction false} ArenaStaysExclusive(s: Frames.State, all: set<nat>, ops: seq<Frames.Op>, arena: set<nat>)
    requires Frames.Inv(s, all) && Frames.Legal(s, ops) && arena <= s.handed
    requires forall op :: op in ops && op.DeallocOp? ==> op.f !in arena
    ensures arena <= Frames.Run(s, ops).handed && Grants(s, ops) !! arena
    decreases |ops|
  {
    if ops != [] {
      var t := Frames.Apply(s, ops[0]);
      assert ops[0] in ops;
      match ops[0] {
        case AllocOp => Frames.AllocFrameKeepsInv(s, all);
        case ContiguousOp(n) => Frames.ContiguousKeepsInv(s, n, all);
        case DeallocOp(f) => Frames.DeallocFrameKeepsInv(s, f, all);
      }
      assert arena <= t.handed;
      ArenaStaysExclusive(t, all, ops[1..], arena);
    }
  }

  lemma LentInArena(f: nat, calls: seq<Heaps.Op>, b: FreeList.Block, a: nat)
    requires Heaps.Arena(f * PAGE_SIZE, (f + HEAP_FRAMES) * PAGE_SIZE)
    requires var h := Heaps.Initial(f * PAGE_SIZE, (f + HEAP_FRAMES) * PAGE_SIZE);
             Heaps.Legal(h, calls) && b in Heaps.Run(h, calls).live && b.Has(a)
    ensures a / PAGE_SIZE in Interval(f, HEAP_FRAMES)
  {
    var h := Heaps.Initial(f * PAGE_SIZE, (f + HEAP_FRAMES) * PAGE_SIZE);
    Heaps.InitialInv(f * PAGE_SIZE, (f + HEAP_FRAMES) * PAGE_SIZE);
    Heaps.RunKeepsInv(h, calls);
    HeapStaysInArena(Heaps.Run(h, calls), f, b, a);
  }

  /** The whole chain: over a map copied however short, after any run of frame calls,
      let the heap take its frames; then, whatever frames and heap bytes are asked for
      and given back, no byte the heap lends lies in a page the bootloader claimed, its
      frame stays live, and no other grant holds it. */
  lemma LentBytesAreExclusive(descriptors: seq<MemoryRegion>, n: nat, claimed: set<nat>,
                              before: seq<Frames.Op>, f: nat, after: seq<Frames.Op>,
                              calls: seq<Heaps.Op>, b: FreeList.Block, a: nat)
    requires DisjointMap(descriptors) && Reported(descriptors, claimed) && n <= |descriptors|
    requires var runs := RunsFrom(descriptors[..n], 0);
             runs != [] && forall g :: g in Frames.FramesOf(runs) ==> (g + 1) * PAGE_SIZE <= I64_LIMIT
    requires Frames.Legal(Seeded(descriptors[..n]), before)
    requires var s := Frames.Run(Seeded(descriptors[..n]), before);
             && Frames.Allowed(s, Frames.ContiguousOp(HEAP_FRAMES))
             && Frames.Contiguous(s, HEAP_FRAMES).1 == Some(f)
             && Frames.Legal(Frames.Contiguous(s, HEAP_FRAMES).0, after)
    requires forall op :: op in after && op.DeallocOp? ==> op.f !in Interval(f, HEAP_FRAMES)
    requires var h := Heaps.Initial(f * PAGE_SIZE, (f + HEAP_FRAMES) * PAGE_SIZE);
             Heaps.Legal(h, calls) && b in Heaps.Run(h, calls).live && b.Has(a)
    ensures a / PAGE_SIZE !in claimed
    ensures var t := Frames.Contiguous(Frames.Run(Seeded(descriptors[..n]), before), HEAP_FRAMES).0;
            a / PAGE_SIZE in Frames.Run(t, after).handed && a / PAGE_SIZE !in Grants(t, after)
  {
    var regions := descriptors[..n];
    var all := Frames.FramesOf(RunsFrom(regions, 0));
    var s := Frames.Run(Seeded(regions), before);
    var t := Frames.Contiguous(s, HEAP_FRAMES).0;
    FramesMissClaimed(descriptors, n, claimed);
    SeededInv(regions);
    Frames.RunKeepsPartition(Seeded(regions), before, all);
    HeapArena(s, all, f);
    Frames.ContiguousKeepsInv(s, HEAP_FRAMES, all);
    LentInArena(f, calls, b, a);
    ArenaStaysExclusive(t, all, after, Interval(f, HEAP_FRAMES));
  }
}
