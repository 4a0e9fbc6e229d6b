/** The frame allocator as the kernel runs it: each free frame's first word
    links it to the next, so the free stack costs no storage of its own. */
module FrameAllocator {
  import opened Machine
  import opened MemoryMap
  import opened FrameModel

  /** The address of stack element `i`, or null past the bottom. */
  function LinkTo(stack: seq<nat>, i: nat): nat {
    if i < |stack| then stack[i] * PAGE_SIZE else 0
  }

  /** Following links from `free` visits `stack` from the top; `words[f]` is the
      first word of frame `f`. */
  ghost predicate Linked(words: seq<uint64>, stack: seq<nat>, free: nat) {
    && free == LinkTo(stack, 0)
    && forall i :: 0 <= i < |stack| ==>
         0 < stack[i] < |words| && words[stack[i]] == LinkTo(stack, i + 1)
  }

  /** No frame is in two places, and the null frame is in none. */
  ghost predicate Sound(s: State) {
    forall f: nat :: Places(s, f) <= One(f > 0)
  }

  lemma InvIsSound(s: State, all: set<nat>)
    requires Inv(s, all)
    ensures Sound(s)
  {
    forall f: nat ensures Places(s, f) <= One(f > 0) {
      assert Places(s, f) == One(f in all);
    }
  }

  /** No frame ahead of the cursor is on the stack, and none is the null frame. */
  ghost predicate Ahead(s: State) {
    && (s.cursor < s.runEnd ==> 0 < s.cursor)
    && forall f: nat :: s.cursor <= f < s.runEnd ==> f !in s.stack
  }

  lemma SoundIsAhead(s: State)
    requires Sound(s)
    ensures Ahead(s)
  {
    assert Places(s, s.cursor) <= One(s.cursor > 0);
    forall f: nat | s.cursor <= f < s.runEnd ensures f !in s.stack {
      assert Places(s, f) <= One(f > 0);
      CountMember(s.stack, f);
    }
  }

  lemma LinkedAfterPush(words: seq<uint64>, stack: seq<nat>, free: uint64, f: nat)
    requires Linked(words, stack, free) && 0 < f < |words| && f !in stack
    ensures Linked(words[f := free], [f] + stack, f * PAGE_SIZE)
  {
    var up := [f] + stack;
    forall i | 0 <= i < |up| ensures 0 < up[i] < |words| && words[f := free][up[i]] == LinkTo(up, i + 1) {
      if i > 0 {
        assert up[i] == stack[i - 1] && up[i] in stack;
        assert i + 1 < |up| ==> up[i + 1] == stack[i];
      }
    }
  }

  lemma LinkedAfterPop(words: seq<uint64>, stack: seq<nat>, free: nat)
    requires Linked(words, stack, free) && stack != []
    ensures Linked(words, stack[1..], words[stack[0]])
  {
    var down := stack[1..];
    forall i | 0 <= i < |down| ensures 0 < down[i] < |words| && words[down[i]] == LinkTo(down, i + 1) {
      assert down[i] == stack[i + 1];
    }
  }

  lemma {:induction false} SubsetSize(s: set<nat>, n: nat)
    requires forall f :: f in s ==> f < n
    ensures |s| <= n
    decreases n
  {
    if n == 0 {
      assert s == {};
    } else {
      SubsetSize(s - {n - 1}, n - 1);
    }
  }

  lemma AddressOfFrame(f: nat)
    ensures f * PAGE_SIZE / PAGE_SIZE == f && f * PAGE_SIZE % PAGE_SIZE == 0
  {
  }

  lemma DisjointUnionSize(a: set<nat>, b: set<nat>)
    requires a !! b
    ensures |a + b| == |a| + |b|
  {
  }

  /** The live count grows by the frames granted, and always fits its field. */
  lemma LiveCount(s: State, n: nat, all: set<nat>, frames: nat)
    requires Inv(s, all) && forall f :: f in all ==> f < frames
    ensures var (t, r) := Contiguous(s, n);
            |t.handed| == |s.handed| + (if r.Some? then n else 0) <= frames
  {
    var (t, r) := Contiguous(s, n);
    ContiguousKeepsInv(s, n, all);
    StackIsDistinct(t, all);
    SubsetSize(t.handed, frames);
    if r.Some? {
      IntervalSize(r.value, n);
      DisjointUnionSize(s.handed, Interval(r.value, n));
    }
  }

  lemma PopCount(s: State, all: set<nat>, frames: nat)
    requires Inv(s, all) && s.stack != [] && forall f :: f in all ==> f < frames
    ensures |AllocFrame(s).0.handed| == |s.handed| + 1 <= frames
  {
    AllocFrameKeepsInv(s, all);
    StackIsDistinct(AllocFrame(s).0, all);
    SubsetSize(AllocFrame(s).0.handed, frames);
  }

  function AddressOf(frame: Option<nat>): Option<nat> {
    match frame case None => None case Some(f) => Some(f * PAGE_SIZE)
  }

  function FrameAt(addr: Option<nat>): Option<nat> {
    match addr case None => None case Some(a) => Some(a / PAGE_SIZE)
  }

  lemma FrameAtAddress(frame: Option<nat>)
    ensures FrameAt(AddressOf(frame)) == frame
  {
    if frame.Some? { AddressOfFrame(frame.value); }
  }

  class FrameAllocator {
    const runs: UsableRegions
    var cursor: uint64
    var runEnd: uint64
    var free: uint64
    var inUse: uint64
    /** `words[f]` is the first word of physical frame `f`. */
    const words: array<uint64>
    ghost const all: set<nat>
    ghost var state: State
    /** Every sum `cursor + PAGE_SIZE` compared so far, before it is stored in 64 bits. */
    ghost var tested: seq<nat>

    /** The fields and the links in memory represent `state`. */
    ghost predicate Represents()
      reads this, runs, words
    {
      && words.Length * PAGE_SIZE < U64_LIMIT && Headroom(state)
      && runs.Valid() && state.pending == RunsFrom(runs.regions, runs.index)
      && (forall i :: 0 <= i < |state.pending| ==>
            state.pending[i].Last() <= words.Length && state.pending[i].start % PAGE_SIZE == 0)
      && state.cursor <= state.runEnd <= words.Length
      && cursor == state.cursor * PAGE_SIZE && runEnd == state.runEnd * PAGE_SIZE
      && Linked(words[..], state.stack, free)
    }

    ghost predicate Valid()
      reads this, runs, words
    {
      && Represents() && Inv(state, all) && inUse == |state.handed|
      && forall f :: f in all ==> f < words.Length
    }

    constructor (runs: UsableRegions, first: FrameRun, words: array<uint64>)
      requires runs.Valid() && words.Length * PAGE_SIZE < U64_LIMIT
      requires var list := [first] + RunsFrom(runs.regions, runs.index);
               && DisjointRuns(list) && Headroom(Booted(list))
               && forall run :: run in list ==>
                    run.frames > 0 && run.First() > 0 && run.start % PAGE_SIZE == 0 && run.Last() <= words.Length
      ensures Valid() && this.runs == runs && this.words == words
      ensures all == FramesOf([first] + RunsFrom(runs.regions, runs.index))
      ensures state == Booted([first] + RunsFrom(runs.regions, runs.index)) && tested == []
    {
      ghost var list := [first] + RunsFrom(runs.regions, runs.index);
      BootedInv(list);
      forall f: nat | f in FramesOf(list) ensures f < words.Length {
        CountRunsIsMembership(list, f);
      }
      forall i | 0 <= i < |list[1..]|
        ensures list[1..][i].Last() <= words.Length && list[1..][i].start % PAGE_SIZE == 0
      {
        assert list[1..][i] in list;
      }
      assert first in list && list[1..] == RunsFrom(runs.regions, runs.index);
      this.runs, this.words, this.all := runs, words, FramesOf(list);
      cursor, runEnd := first.start, first.start + first.frames * PAGE_SIZE;
      free, inUse, state, tested := 0, 0, Booted(list), [];
    }

    method PushFree(addr: uint64)
      requires Linked(words[..], state.stack, free)
      requires addr % PAGE_SIZE == 0 && 0 < addr / PAGE_SIZE < words.Length && addr / PAGE_SIZE !in state.stack
      modifies this`free, this`state, words
      ensures state == old(state).(stack := [addr / PAGE_SIZE] + old(state.stack))
      ensures Linked(words[..], state.stack, free)
      ensures words[..] == old(words[..])[addr / PAGE_SIZE := old(free)]
    {
      LinkedAfterPush(words[..], state.stack, free, addr / PAGE_SIZE);
      words[addr / PAGE_SIZE] := free;
      free := addr;
      state := state.(stack := [addr / PAGE_SIZE] + state.stack);
    }

    /** The cursor fields and the links in memory represent `state`. */
    ghost predicate Linking()
      reads this, words
    {
      && words.Length * PAGE_SIZE < U64_LIMIT && (state.runEnd + 1) * PAGE_SIZE < U64_LIMIT
      && state.cursor <= state.runEnd <= words.Length
      && cursor == state.cursor * PAGE_SIZE && runEnd == state.runEnd * PAGE_SIZE
      && Linked(words[..], state.stack, free)
    }

    /** The sum the stranding loop compares, kept for the record as it is evaluated. */
    method PastFrame(ghost before: seq<nat>, ghost first: nat) returns (next: uint64)
      requires Linking() && first <= state.cursor && tested == before + Ends(first, state.cursor)
      modifies this`tested
      ensures next == cursor + PAGE_SIZE && tested == before + Ends(first, state.cursor + 1)
    {
      ghost var sum: nat := cursor + PAGE_SIZE;
      EndsStep(before, first, state.cursor);
      tested := tested + [sum];
      next := cursor + PAGE_SIZE;
    }

    /** Push the frame at the cursor and step over it. */
    method StrandOne()
      requires Linking() && Ahead(state) && state.cursor < state.runEnd
      modifies this`free, this`cursor, this`state, words
      ensures Linking() && Ahead(state)
      ensures state == old(state).(stack := [old(state.cursor)] + old(state.stack), cursor := old(state.cursor) + 1)
      ensures forall f :: 0 <= f < words.Length && f != old(state.cursor) ==> words[f] == old(words[f])
      ensures PushAll(state.stack, state.cursor, state.runEnd)
              == PushAll(old(state.stack), old(state.cursor), old(state.runEnd))
    {
      AddressOfFrame(state.cursor);
      var stranded := cursor;
      cursor := cursor + PAGE_SIZE;
      PushFree(stranded);
      state := state.(cursor := state.cursor + 1);
    }

    /** Push the rest of the current run, one frame at a time. */
    method Strand()
      requires Linking() && Ahead(state)
      modifies this`free, this`cursor, this`state, this`tested, words
      ensures Linking()
      ensures state == old(state).(stack := PushAll(old(state.stack), old(state.cursor), old(state.runEnd)),
                                   cursor := old(state.runEnd))
      ensures tested == old(tested) + StrandSums(old(state.cursor), old(state.runEnd))
      ensures forall f :: 0 <= f < words.Length && !(old(state.cursor) <= f < old(state.runEnd)) ==>
                words[f] == old(words[f])
    {
      ghost var pushed := PushAll(state.stack, state.cursor, state.runEnd);
      while true
        invariant Linking() && Ahead(state)
        invariant state == old(state).(stack := state.stack, cursor := state.cursor)
        invariant PushAll(state.stack, state.cursor, state.runEnd) == pushed
        invariant old(state.cursor) <= state.cursor && tested == old(tested) + Ends(old(state.cursor), state.cursor)
        invariant forall f :: 0 <= f < words.Length && !(old(state.cursor) <= f < state.cursor) ==>
                    words[f] == old(words[f])
        decreases state.runEnd - state.cursor
      {
        var next := PastFrame(old(tested), old(state.cursor));
        if next > runEnd {
          break;
        }
        StrandOne();
      }
    }

    /** Strand what is left of the current run and move to the next, if there is one. */
    method Advance() returns (moved: bool)
      requires Represents() && Sound(state)
      modifies this`free, this`cursor, this`runEnd, this`state, this`tested, words, runs
      ensures Represents()
      ensures moved <==> old(state.pending) != []
      ensures moved ==> state == NextRun(old(state)) && Sound(state)
      ensures !moved ==> state == old(state).(stack := PushAll(old(state.stack), old(state.cursor), old(state.runEnd)),
                                              cursor := old(state.runEnd))
      ensures tested == old(tested) + StrandSums(old(state.cursor), old(state.runEnd))
      ensures forall f :: f in old(state.stack) ==> f in state.stack
      ensures forall f :: 0 <= f < words.Length && words[f] != old(words[f]) ==> f in state.stack
    {
      ghost var s := state;
      SoundIsAhead(s);
      assert s.pending != [] ==> s.pending[0].Last() <= words.Length && s.pending[0].start % PAGE_SIZE == 0;
      Strand();
      PushAllMembers(s.stack, s.cursor, s.runEnd);
      var run := runs.Next();
      if run.None? {
        return false;
      }
      cursor, runEnd := run.value.start, run.value.start + run.value.frames * PAGE_SIZE;
      state := NextRun(s);
      forall f: nat ensures Places(state, f) <= One(f > 0) {
        NextRunPlaces(s, f);
      }
      return true;
    }

    method Bump(frames: uint64) returns (addr: Option<uint64>)
      requires Represents() && Sound(state)
      modifies this`free, this`cursor, this`runEnd, this`state, this`tested, words, runs
      ensures Represents()
      ensures if frames * PAGE_SIZE >= U64_LIMIT then addr == None && state == old(state)
              else var (t, r) := FrameModel.Bump(old(state), frames);
                   state == t && addr == AddressOf(r)
      ensures tested == old(tested) + ContiguousSums(old(state), frames)
      ensures forall f :: 0 <= f < words.Length && words[f] != old(words[f]) ==> f in state.stack
    {
      if frames * PAGE_SIZE >= U64_LIMIT {
        return None;
      }
      var wanted: uint64 := frames * PAGE_SIZE;
      while true
        invariant Represents() && Sound(state)
        invariant FrameModel.Bump(state, frames) == FrameModel.Bump(old(state), frames)
        invariant tested + BumpSums(state, frames) == old(tested) + BumpSums(old(state), frames)
        invariant forall f :: 0 <= f < words.Length && words[f] != old(words[f]) ==> f in state.stack
        decreases |state.pending|
      {
        if runEnd - cursor >= wanted {
          addr := Some(cursor);
          cursor := cursor + wanted;
          state := state.(cursor := state.cursor + frames);
          return;
        }
        ghost var s, before := state, tested;
        ConcatAssoc(before, StrandSums(s.cursor, s.runEnd),
                    if s.pending == [] then [] else BumpSums(NextRun(s), frames));
        var moved := Advance();
        if !moved {
          return None;
        }
      }
    }

    /** Bump, and count what was granted as live. */
    method Grant(frames: uint64) returns (addr: Option<uint64>)
      requires Represents() && Sound(state)
      requires Contiguous(state, frames).1.Some? ==> inUse + frames < U64_LIMIT
      modifies this`free, this`cursor, this`runEnd, this`inUse, this`state, this`tested, words, runs
      ensures Represents()
      ensures var (t, r) := Contiguous(old(state), frames);
              && state == t && addr == AddressOf(r)
              && inUse == old(inUse) + if r.Some? then frames else 0
      ensures tested == old(tested) + ContiguousSums(old(state), frames)
      ensures forall f :: 0 <= f < words.Length && words[f] != old(words[f]) ==> f in state.stack
    {
      ghost var t := Contiguous(state, frames).0;
      addr := Bump(frames);
      if addr.None? {
        return;
      }
      state := state.(handed := t.handed);
      inUse := inUse + frames;
    }

    /** `FrameAllocator::alloc`. */
    method Alloc() returns (addr: Option<uint64>)
      requires Valid()
      modifies this, words, runs
      ensures Valid()
      ensures var (t, r) := AllocFrame(old(state));
              state == t && addr == AddressOf(r)
      ensures AllocAnswer(old(state), state, FrameAt(addr))
      ensures tested == old(tested) + OpSums(old(state), AllocOp)
      ensures forall f :: 0 <= f < words.Length && words[f] != old(words[f]) ==> f in state.stack
    {
      AllocFrameKeepsInv(state, all);
      AllocIsExact(state);
      FrameAtAddress(AllocFrame(state).1);
      if free != 0 {
        PopCount(state, all, words.Length);
        LinkedAfterPop(words[..], state.stack, free);
        AddressOfFrame(state.stack[0]);
        addr := Some(free);
        free := words[free / PAGE_SIZE];
        state := AllocFrame(state).0;
        inUse := inUse + 1;
        return;
      }
      InvIsSound(state, all);
      LiveCount(state, 1, all, words.Length);
      addr := Grant(1);
    }

    /** `alloc_contiguous`. */
    method AllocContiguous(frames: uint64) returns (addr: Option<uint64>)
      requires Valid()
      modifies this, words, runs
      ensures Valid()
      ensures var (t, r) := Contiguous(old(state), frames);
              state == t && addr == AddressOf(r)
      ensures ContiguousAnswer(old(state), frames, state, FrameAt(addr))
      ensures tested == old(tested) + OpSums(old(state), ContiguousOp(frames))
      ensures forall f :: 0 <= f < words.Length && words[f] != old(words[f]) ==> f in state.stack
    {
      ContiguousKeepsInv(state, frames, all);
      ContiguousIsExact(state, frames);
      FrameAtAddress(Contiguous(state, frames).1);
      InvIsSound(state, all);
      LiveCount(state, frames, all, words.Length);
      addr := Grant(frames);
    }

    /** `dealloc_frame`, for a frame that is live. */
    method DeallocFrame(addr: uint64)
      requires Valid() && addr % PAGE_SIZE == 0 && addr / PAGE_SIZE in state.handed
      modifies this, words
      ensures Valid() && state == FrameModel.DeallocFrame(old(state), addr / PAGE_SIZE) && tested == old(tested)
      ensures forall f :: 0 <= f < words.Length && f != addr / PAGE_SIZE ==> words[f] == old(words[f])
    {
      ghost var f := addr / PAGE_SIZE;
      DeallocFrameKeepsInv(state, f, all);
      StackIsDistinct(state, all);
      ghost var s := state;
      PushFree(addr);
      inUse := SaturatingSub(inUse, 1);
      state := FrameModel.DeallocFrame(s, f);
    }

    /** The holder of a live frame may store anything in it. */
    method Store(f: nat, v: uint64)
      requires Valid() && f in state.handed && f < words.Length
      modifies words
      ensures Valid() && state == old(state) && words[..] == old(words[..])[f := v]
    {
      StackIsDistinct(state, all);
      words[f] := v;
    }
  }

  /** `init`: count the usable frames and seed the allocator, or report none. */
  method Init(regions: seq<MemoryRegion>, words: array<uint64>) returns (total: uint64, allocator: FrameAllocator?)
    requires DisjointUsable(regions) && EndsEarly(regions) && words.Length * PAGE_SIZE < U64_LIMIT
    requires forall run :: run in RunsFrom(regions, 0) ==> run.Last() <= words.Length
    ensures total == |FramesOf(RunsFrom(regions, 0))|
    ensures total == 0 <==> allocator == null
    ensures allocator != null ==>
              && allocator.Valid() && fresh(allocator) && fresh(allocator.runs)
              && allocator.words == words && allocator.state == Booted(RunsFrom(regions, 0))
              && allocator.all == FramesOf(RunsFrom(regions, 0)) && allocator.tested == []
  {
    ghost var list := RunsFrom(regions, 0);
    RunsFromDisjoint(regions, 0);
    TotalIsCardinality(list);
    forall f | f in FramesOf(list) ensures f < words.Length {
      CountRunsIsMembership(list, f);
    }
    SubsetSize(FramesOf(list), words.Length);
    var counter := new UsableRegions(regions);
    total := 0;
    var done := false;
    while !done
      invariant counter.Valid() && counter.regions == regions && fresh(counter)
      invariant total + TotalFrames(RunsFrom(regions, counter.index)) == TotalFrames(list)
      invariant done ==> RunsFrom(regions, counter.index) == []
      decreases !done, |regions| - counter.index
    {
      var run := counter.Next();
      match run
      case None => done := true;
      case Some(r) => total := total + r.frames;
    }
    if total == 0 {
      return 0, null;
    }
    var runs := new UsableRegions(regions);
    var first := runs.Next();
    if first.None? {
      assert false;
    }
    forall run | run in list ensures run.frames > 0 && run.First() > 0 && run.start % PAGE_SIZE == 0 {
      RunsAreExact(regions, 0, 0);
    }
    BootedHeadroom(regions);
    allocator := new FrameAllocator(runs, first.value, words);
  }
}
