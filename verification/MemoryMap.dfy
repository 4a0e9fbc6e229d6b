/** The memory map handed to the kernel, and the page-aligned runs usable in it. */
module MemoryMap {
  import opened Machine

  const CONVENTIONAL: uint32 := 7
  const LOADER_DATA: uint32 := 2

  datatype MemoryRegion = MemoryRegion(start: uint64, pages: uint64, kind: uint32) {
    predicate IsUsable() { kind == CONVENTIONAL }

    /** One past the last byte, as an unbounded number. */
    function End(): nat { start + pages * PAGE_SIZE }
  }

  datatype FrameRun = FrameRun(start: uint64, frames: uint64) {
    function First(): nat { start / PAGE_SIZE }

    function Last(): nat { First() + frames }

    predicate Has(f: nat) { First() <= f < Last() }
  }

  /** Frame `f` is a whole page of a usable descriptor whose span fits 64 bits;
      the null frame never counts. */
  predicate WholeFrame(r: MemoryRegion, f: nat) {
    r.IsUsable() && r.End() < U64_LIMIT && f > 0 && r.start <= f * PAGE_SIZE && (f + 1) * PAGE_SIZE <= r.End()
  }

  /** The run a descriptor contributes: exactly its whole frames, or nothing. */
  function RunOf(r: MemoryRegion): (run: Option<FrameRun>)
    ensures run.Some? ==> run.value.frames > 0 && run.value.start % PAGE_SIZE == 0
    ensures forall f: nat :: WholeFrame(r, f) <==> run.Some? && run.value.Has(f)
  {
    var span := r.pages * PAGE_SIZE;
    var start := NextMultipleOf(if r.start < PAGE_SIZE then PAGE_SIZE else r.start, PAGE_SIZE);
    var end := r.End() - r.End() % PAGE_SIZE;
    if !r.IsUsable() || r.End() >= U64_LIMIT || end <= start then None
    else Some(FrameRun(start, (end - start) / PAGE_SIZE))
  }

  /** The runs from descriptor `i` on, in map order. */
  function RunsFrom(regions: seq<MemoryRegion>, i: nat): seq<FrameRun>
    requires i <= |regions|
    decreases |regions| - i
  {
    if i == |regions| then [] else
    match RunOf(regions[i])
    case None => RunsFrom(regions, i + 1)
    case Some(run) => [run] + RunsFrom(regions, i + 1)
  }

  ghost predicate InRuns(runs: seq<FrameRun>, f: nat) {
    exists k :: 0 <= k < |runs| && runs[k].Has(f)
  }

  lemma {:induction false} RunsAreWhole(regions: seq<MemoryRegion>, i: nat)
    requires i <= |regions|
    ensures forall run :: run in RunsFrom(regions, i) ==>
              run.frames > 0 && run.start % PAGE_SIZE == 0 && run.start > 0
    decreases |regions| - i
  {
    if i < |regions| {
      RunsAreWhole(regions, i + 1);
      if RunOf(regions[i]).Some? {
        assert WholeFrame(regions[i], RunOf(regions[i]).value.First());
      }
    }
  }

  lemma InRunsCons(run: FrameRun, rest: seq<FrameRun>, f: nat)
    ensures InRuns([run] + rest, f) <==> run.Has(f) || InRuns(rest, f)
  {
    var runs := [run] + rest;
    if InRuns(rest, f) {
      var k :| 0 <= k < |rest| && rest[k].Has(f);
      assert runs[k + 1].Has(f);
    }
    assert run.Has(f) ==> runs[0].Has(f);
    if InRuns(runs, f) {
      var k :| 0 <= k < |runs| && runs[k].Has(f);
      assert k > 0 ==> rest[k - 1].Has(f);
    }
  }

  /** Frame `f` is a whole usable frame of some descriptor from `i` on. */
  ghost predicate InMap(regions: seq<MemoryRegion>, i: nat, f: nat) {
    exists k :: i <= k < |regions| && WholeFrame(regions[k], f)
  }

  lemma InMapStep(regions: seq<MemoryRegion>, i: nat, f: nat)
    requires i < |regions|
    ensures InMap(regions, i, f) <==> WholeFrame(regions[i], f) || InMap(regions, i + 1, f)
  {
  }

  /** The runs hold exactly the whole usable frames of the map, none is empty,
      and each is page aligned. */
  lemma {:induction false} RunsAreExact(regions: seq<MemoryRegion>, i: nat, f: nat)
    requires i <= |regions|
    ensures InRuns(RunsFrom(regions, i), f) <==> InMap(regions, i, f)
    ensures forall run :: run in RunsFrom(regions, i) ==>
              run.frames > 0 && run.start % PAGE_SIZE == 0 && run.start > 0
    decreases |regions| - i
  {
    RunsAreWhole(regions, i);
    if i < |regions| {
      RunsAreExact(regions, i + 1, f);
      InMapStep(regions, i, f);
      if RunOf(regions[i]).Some? {
        InRunsCons(RunOf(regions[i]).value, RunsFrom(regions, i + 1), f);
      }
    }
  }

  /** No two usable descriptors overlap. */
  ghost predicate DisjointUsable(regions: seq<MemoryRegion>) {
    forall i, j :: 0 <= i < j < |regions| && regions[i].IsUsable() && regions[j].IsUsable() ==>
      regions[i].End() <= regions[j].start || regions[j].End() <= regions[i].start
  }

  ghost predicate DisjointRuns(runs: seq<FrameRun>) {
    forall i, j :: 0 <= i < j < |runs| ==> runs[i].Last() <= runs[j].First() || runs[j].Last() <= runs[i].First()
  }

  lemma {:induction false} RunSource(regions: seq<MemoryRegion>, i: nat, k: nat) returns (j: nat)
    requires i <= |regions| && k < |RunsFrom(regions, i)|
    ensures i <= j < |regions| && RunOf(regions[j]) == Some(RunsFrom(regions, i)[k])
    decreases |regions| - i
  {
    match RunOf(regions[i])
    case None => j := RunSource(regions, i + 1, k);
    case Some(run) =>
      if k == 0 {
        j := i;
      } else {
        j := RunSource(regions, i + 1, k - 1);
      }
  }

  lemma RunInsideRegion(r: MemoryRegion)
    requires RunOf(r).Some?
    ensures r.IsUsable() && r.End() < U64_LIMIT && RunOf(r).value.First() > 0
    ensures r.start <= RunOf(r).value.First() * PAGE_SIZE && RunOf(r).value.Last() * PAGE_SIZE <= r.End()
  {
    var run := RunOf(r).value;
    assert run.Has(run.First()) && run.Has(run.Last() - 1);
  }

  /** Runs inherit disjointness from the descriptors they were cut out of. */
  lemma {:induction false} RunsFromDisjoint(regions: seq<MemoryRegion>, i: nat)
    requires DisjointUsable(regions) && i <= |regions|
    ensures DisjointRuns(RunsFrom(regions, i))
    decreases |regions| - i
  {
    if i < |regions| {
      RunsFromDisjoint(regions, i + 1);
      var rest := RunsFrom(regions, i + 1);
      if RunOf(regions[i]).Some? {
        var run := RunOf(regions[i]).value;
        forall k | 0 <= k < |rest| ensures run.Last() <= rest[k].First() || rest[k].Last() <= run.First() {
          var j := RunSource(regions, i + 1, k);
          RunInsideRegion(regions[i]);
          RunInsideRegion(regions[j]);
        }
      }
    }
  }

  /** Every descriptor with whole usable frames contributes its run. */
  lemma {:induction false} RunsAreComplete(regions: seq<MemoryRegion>, i: nat, j: nat) returns (k: nat)
    requires i <= j < |regions| && RunOf(regions[j]).Some?
    ensures k < |RunsFrom(regions, i)| && RunsFrom(regions, i)[k] == RunOf(regions[j]).value
    decreases j - i
  {
    if i == j {
      k := 0;
    } else {
      k := RunsAreComplete(regions, i + 1, j);
      if RunOf(regions[i]).Some? {
        k := k + 1;
      }
    }
  }

  /** Runs come in map order: a later run stems from a later descriptor. */
  lemma {:induction false} RunsInMapOrder(regions: seq<MemoryRegion>, i: nat, k: nat, l: nat)
      returns (a: nat, b: nat)
    requires i <= |regions| && k < l < |RunsFrom(regions, i)|
    ensures i <= a < b < |regions|
    ensures RunOf(regions[a]) == Some(RunsFrom(regions, i)[k]) && RunOf(regions[b]) == Some(RunsFrom(regions, i)[l])
    decreases |regions| - i
  {
    match RunOf(regions[i])
    case None => a, b := RunsInMapOrder(regions, i + 1, k, l);
    case Some(run) =>
      if k == 0 {
        a := i;
        b := RunSource(regions, i + 1, l - 1);
      } else {
        a, b := RunsInMapOrder(regions, i + 1, k - 1, l - 1);
      }
  }

  /** One page past a run's end fits 64 bits exactly when the descriptor ends below
      the last page. */
  lemma BumpHeadroom(r: MemoryRegion)
    requires RunOf(r).Some?
    ensures RunOf(r).value.Last() * PAGE_SIZE + PAGE_SIZE < U64_LIMIT <==> r.End() < U64_LIMIT - PAGE_SIZE
  {
    var run := RunOf(r).value;
    RunInsideRegion(r);
    assert !WholeFrame(r, run.Last());
  }

  class UsableRegions {
    const regions: seq<MemoryRegion>
    var index: nat

    ghost predicate Valid()
      reads this
    {
      index <= |regions|
    }

    constructor (regions: seq<MemoryRegion>)
      ensures this.regions == regions && index == 0 && Valid()
    {
      this.regions, index := regions, 0;
    }

    /** The next run, skipping descriptors that contribute none. */
    method Next() returns (run: Option<FrameRun>)
      requires Valid()
      modifies this
      ensures Valid() && old(index) <= index
      ensures match run
              case None => RunsFrom(regions, old(index)) == [] && RunsFrom(regions, index) == []
              case Some(r) => RunsFrom(regions, old(index)) == [r] + RunsFrom(regions, index) && old(index) < index
    {
      while index < |regions|
        invariant old(index) <= index <= |regions|
        invariant RunsFrom(regions, old(index)) == RunsFrom(regions, index)
      {
        var region := regions[index];
        index := index + 1;
        if !region.IsUsable() {
          continue;
        }
        var span := CheckedMul(region.pages, PAGE_SIZE);
        if span.None? {
          continue;
        }
        var checkedEnd := CheckedAdd(region.start, span.value);
        if checkedEnd.None? {
          continue;
        }
        var end := checkedEnd.value;
        // checked_next_multiple_of
        var raised := if region.start < PAGE_SIZE then PAGE_SIZE else region.start;
        if NextMultipleOf(raised, PAGE_SIZE) >= U64_LIMIT {
          continue;
        }
        var start: uint64 := NextMultipleOf(raised, PAGE_SIZE);
        end := end - end % PAGE_SIZE;
        if end <= start {
          continue;
        }
        return Some(FrameRun(start, (end - start) / PAGE_SIZE));
      }
      return None;
    }
  }
}
