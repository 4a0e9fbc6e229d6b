/** The frame allocator as a state machine over frame numbers: a LIFO stack of
    free frames, the rest of the current run, and the runs not yet reached. */
module FrameModel {
  import opened Machine
  import opened MemoryMap

  /** `stack[0]` is the top; the bump cursor owns frames `cursor..runEnd`. */
  datatype State = State(stack: seq<nat>, cursor: nat, runEnd: nat, pending: seq<FrameRun>, handed: set<nat>)

  function Count(stack: seq<nat>, f: nat): nat {
    if stack == [] then 0 else One(stack[0] == f) + Count(stack[1..], f)
  }

  function CountRuns(runs: seq<FrameRun>, f: nat): nat {
    if runs == [] then 0 else One(runs[0].Has(f)) + CountRuns(runs[1..], f)
  }

  /** In how many places frame `f` is held. */
  function Places(s: State, f: nat): nat {
    Count(s.stack, f) + One(s.cursor <= f < s.runEnd) + CountRuns(s.pending, f) + One(f in s.handed)
  }

  /** The four holders partition the frames of the map: every usable frame is in
      exactly one place, exactly once, and no other frame is anywhere. */
  ghost predicate Inv(s: State, all: set<nat>) {
    && 0 !in all
    && s.cursor <= s.runEnd
    && (forall i :: 0 <= i < |s.pending| ==> s.pending[i].frames > 0)
    && forall f: nat :: Places(s, f) == One(f in all)
  }

  // ------------------------------------------------------------------- bumping

  /** Push frames `lo`, `lo + 1`, ... `hi - 1` in that order. */
  function PushAll(stack: seq<nat>, lo: nat, hi: nat): seq<nat>
    decreases hi - lo
  {
    if lo >= hi then stack else PushAll([lo] + stack, lo + 1, hi)
  }

  /** Strand what is left of the current run and move to the next one. */
  function NextRun(s: State): State
    requires s.pending != []
  {
    var run := s.pending[0];
    s.(stack := PushAll(s.stack, s.cursor, s.runEnd), cursor := run.First(), runEnd := run.Last(),
       pending := s.pending[1..])
  }

  /** Take `n` frames off the cursor, moving to later runs as needed. */
  function Bump(s: State, n: nat): (State, Option<nat>)
    requires s.cursor <= s.runEnd
    decreases |s.pending|
  {
    if s.runEnd - s.cursor >= n then (s.(cursor := s.cursor + n), Some(s.cursor))
    else if s.pending == [] then
      (s.(stack := PushAll(s.stack, s.cursor, s.runEnd), cursor := s.runEnd), None)
    else Bump(NextRun(s), n)
  }

  function Contiguous(s: State, n: nat): (State, Option<nat>)
    requires s.cursor <= s.runEnd
  {
    if n * PAGE_SIZE >= U64_LIMIT then (s, None) else
    match Bump(s, n)
    case (t, None) => (t, None)
    case (t, Some(f)) => (t.(handed := t.handed + Interval(f, n)), Some(f))
  }

  function AllocFrame(s: State): (State, Option<nat>)
    requires s.cursor <= s.runEnd
  {
    if s.stack != [] then
      (s.(stack := s.stack[1..], handed := s.handed + {s.stack[0]}), Some(s.stack[0]))
    else Contiguous(s, 1)
  }

  function DeallocFrame(s: State, f: nat): State {
    s.(stack := [f] + s.stack, handed := s.handed - {f})
  }

  lemma {:induction false} PushAllCount(stack: seq<nat>, lo: nat, hi: nat, f: nat)
    ensures Count(PushAll(stack, lo, hi), f) == Count(stack, f) + One(lo <= f < hi)
    decreases hi - lo
  {
    if lo < hi {
      PushAllCount([lo] + stack, lo + 1, hi, f);
      assert ([lo] + stack)[1..] == stack;
    }
  }

  lemma {:induction false} PushAllMembers(stack: seq<nat>, lo: nat, hi: nat)
    ensures forall f: nat :: f in PushAll(stack, lo, hi) <==> f in stack || lo <= f < hi
    decreases hi - lo
  {
    if lo < hi {
      PushAllMembers([lo] + stack, lo + 1, hi);
      assert forall f: nat :: f in [lo] + stack <==> f == lo || f in stack;
    }
  }

  lemma NextRunPlaces(s: State, f: nat)
    requires s.pending != []
    ensures Places(NextRun(s), f) == Places(s, f)
  {
    PushAllCount(s.stack, s.cursor, s.runEnd, f);
  }

  /** Bumping moves frames between places and loses none, whether or not it succeeds. */
  lemma {:induction false} BumpPlaces(s: State, n: nat, f: nat)
    requires s.cursor <= s.runEnd
    ensures var (t, r) := Bump(s, n);
            && t.handed == s.handed && t.cursor <= t.runEnd
            && Places(t, f) + One(r.Some? && r.value <= f < r.value + n) == Places(s, f)
            && (r.None? ==> t.pending == [] && t.cursor == t.runEnd)
    decreases |s.pending|
  {
    if s.runEnd - s.cursor < n {
      if s.pending == [] {
        PushAllCount(s.stack, s.cursor, s.runEnd, f);
      } else {
        NextRunPlaces(s, f);
        BumpPlaces(NextRun(s), n, f);
      }
    }
  }

  lemma {:induction false} BumpPending(s: State, n: nat)
    requires s.cursor <= s.runEnd
    requires forall i :: 0 <= i < |s.pending| ==> s.pending[i].frames > 0
    ensures forall i :: 0 <= i < |Bump(s, n).0.pending| ==> Bump(s, n).0.pending[i].frames > 0
    decreases |s.pending|
  {
    if s.runEnd - s.cursor < n && s.pending != [] {
      BumpPending(NextRun(s), n);
    }
  }

  lemma ContiguousKeepsInv(s: State, n: nat, all: set<nat>)
    requires Inv(s, all)
    ensures var (t, r) := Contiguous(s, n);
            && Inv(t, all)
            && t.handed == s.handed + (if r.Some? then Interval(r.value, n) else {})
            && (r.Some? ==> forall f :: r.value <= f < r.value + n ==> f in all && f !in s.handed)
  {
    var (t, r) := Contiguous(s, n);
    BumpPending(s, n);
    forall f: nat
      ensures Places(t, f) == One(f in all)
      ensures r.Some? && r.value <= f < r.value + n ==> f in all && f !in s.handed
    {
      assert Places(s, f) == One(f in all);
      BumpPlaces(s, n, f);
    }
    BumpPlaces(s, n, 0);
  }

  lemma {:induction false} CountMember(stack: seq<nat>, f: nat)
    ensures Count(stack, f) > 0 <==> f in stack
  {
    if stack != [] {
      CountMember(stack[1..], f);
      assert stack == [stack[0]] + stack[1..];
    }
  }

  /** A request no run can hold still leaves every frame that is not live on the
      free stack, where single-frame requests find it. */
  lemma FailureLosesNothing(s: State, n: nat, all: set<nat>, f: nat)
    requires Inv(s, all) && n * PAGE_SIZE < U64_LIMIT && Contiguous(s, n).1.None?
    requires f in all && f !in s.handed
    ensures f in Contiguous(s, n).0.stack
  {
    var t := Contiguous(s, n).0;
    ContiguousKeepsInv(s, n, all);
    BumpPlaces(s, n, f);
    assert Places(t, f) == One(f in all);
    CountMember(t.stack, f);
  }

  /** `alloc_contiguous` succeeds exactly when some remaining run is long enough. */
  ghost predicate SomeRunHolds(s: State, n: nat) {
    s.runEnd - s.cursor >= n || exists k :: 0 <= k < |s.pending| && s.pending[k].frames >= n
  }

  /** The stack after stranding whole runs, in order. */
  function StrandRuns(stack: seq<nat>, runs: seq<FrameRun>): seq<nat>
    decreases |runs|
  {
    if runs == [] then stack else StrandRuns(PushAll(stack, runs[0].First(), runs[0].Last()), runs[1..])
  }

  /** Pending run `k` is the first with `n` frames, and supplied them from its start. */
  ghost predicate TakenFrom(s: State, t: State, f: nat, n: nat, k: nat)
    requires k < |s.pending|
  {
    && s.pending[k].frames >= n && f == s.pending[k].First()
    && (forall j :: 0 <= j < k ==> s.pending[j].frames < n)
    && t.cursor == f + n && t.runEnd == s.pending[k].Last() && t.pending == s.pending[k + 1..]
    && t.stack == StrandRuns(PushAll(s.stack, s.cursor, s.runEnd), s.pending[..k])
  }

  lemma TakenLater(s: State, t: State, f: nat, n: nat, k: nat)
    requires s.pending != [] && s.pending[0].frames < n
    requires k < |NextRun(s).pending| && TakenFrom(NextRun(s), t, f, n, k)
    ensures TakenFrom(s, t, f, n, k + 1)
  {
    var u := NextRun(s);
    forall j | 0 <= j < k + 1 ensures s.pending[j].frames < n {
      assert j > 0 ==> s.pending[j] == u.pending[j - 1];
    }
    assert s.pending[k + 2..] == u.pending[k + 1..];
    assert s.pending[..k + 1][1..] == u.pending[..k];
  }

  lemma HoldsLater(s: State, n: nat)
    requires s.pending != [] && s.runEnd - s.cursor < n
    ensures SomeRunHolds(NextRun(s), n) <==> SomeRunHolds(s, n)
  {
    var u := NextRun(s);
    if SomeRunHolds(s, n) && s.pending[0].frames < n {
      var k :| 0 <= k < |s.pending| && s.pending[k].frames >= n;
      assert u.pending[k - 1] == s.pending[k];
    }
    if SomeRunHolds(u, n) && s.pending[0].frames < n {
      var k :| 0 <= k < |u.pending| && u.pending[k].frames >= n;
      assert s.pending[k + 1] == u.pending[k];
    }
  }

  /** It takes the first run that is long enough, and puts every frame it steps over
      on the free stack: what was left of the current run, then the shorter runs. */
  lemma {:induction false} BumpIsFirstRun(s: State, n: nat)
    requires s.cursor <= s.runEnd
    ensures var (t, r) := Bump(s, n);
            && (r.Some? <==> SomeRunHolds(s, n))
            && (r.Some? && s.runEnd - s.cursor >= n ==> r.value == s.cursor && t.stack == s.stack)
            && (r.Some? && s.runEnd - s.cursor < n ==>
                  exists k :: 0 <= k < |s.pending| && TakenFrom(s, t, r.value, n, k))
    decreases |s.pending|
  {
    if s.runEnd - s.cursor < n && s.pending != [] {
      var u := NextRun(s);
      var (t, r) := Bump(u, n);
      BumpIsFirstRun(u, n);
      if r.Some? {
        if u.runEnd - u.cursor >= n {
          assert TakenFrom(s, t, r.value, n, 0);
        } else {
          var k :| 0 <= k < |u.pending| && TakenFrom(u, t, r.value, n, k);
          TakenLater(s, t, r.value, n, k);
        }
      }
      HoldsLater(s, n);
    }
  }

  /** A stack with frames `lo` to `hi` pushed: the last one pushed is on top. */
  lemma {:induction false} PushAllIs(stack: seq<nat>, lo: nat, hi: nat)
    requires lo <= hi
    ensures var r := PushAll(stack, lo, hi);
            && |r| == hi - lo + |stack| && r[hi - lo..] == stack
            && forall k :: 0 <= k < hi - lo ==> r[k] == hi - 1 - k
    decreases hi - lo
  {
    if lo < hi {
      PushAllIs([lo] + stack, lo + 1, hi);
      var r := PushAll([lo] + stack, lo + 1, hi);
      assert r[hi - lo - 1..] == [lo] + stack;
      assert r[hi - lo - 1..][1..] == r[hi - lo..];
      assert r[hi - lo - 1] == r[hi - lo - 1..][0];
    }
  }

  /** What is left when no run was long enough: every run stacked, in order. */
  lemma {:induction false} BumpFails(s: State, n: nat)
    requires s.cursor <= s.runEnd && !SomeRunHolds(s, n)
    ensures var t := Bump(s, n).0;
            && t.pending == [] && t.cursor == t.runEnd && t.handed == s.handed
            && t.runEnd == (if s.pending == [] then s.runEnd else Last(s.pending).Last())
            && t.stack == StrandRuns(PushAll(s.stack, s.cursor, s.runEnd), s.pending)
    decreases |s.pending|
  {
    if s.pending != [] {
      HoldsLater(s, n);
      BumpFails(NextRun(s), n);
      assert |s.pending| > 1 ==> Last(s.pending[1..]) == Last(s.pending);
    }
  }

  /** Where a request for `n` frames in a row is served. */
  ghost predicate ContiguousAnswer(s: State, n: nat, t: State, r: Option<nat>)
    requires s.cursor <= s.runEnd
  {
    if n * PAGE_SIZE >= U64_LIMIT then t == s && r == None
    else if s.runEnd - s.cursor >= n then
      && r == Some(s.cursor)
      && t == State(s.stack, s.cursor + n, s.runEnd, s.pending, s.handed + Interval(s.cursor, n))
    else if exists k :: 0 <= k < |s.pending| && s.pending[k].frames >= n then
      && r.Some? && t.handed == s.handed + Interval(r.value, n)
      && exists k :: 0 <= k < |s.pending| && TakenFrom(s, t, r.value, n, k)
    else
      && r == None && t.pending == [] && t.cursor == t.runEnd && t.handed == s.handed
      && t.runEnd == (if s.pending == [] then s.runEnd else Last(s.pending).Last())
      && t.stack == StrandRuns(PushAll(s.stack, s.cursor, s.runEnd), s.pending)
  }

  /** `alloc_contiguous` succeeds exactly when the current run or a later one has `n`
      frames in a row. It takes them from the cursor if the current run has them, and
      from the start of the first later run that does if not, stacking every frame it
      steps over. A request that overflows changes nothing. */
  lemma ContiguousIsExact(s: State, n: nat)
    requires s.cursor <= s.runEnd
    ensures var (t, r) := Contiguous(s, n); ContiguousAnswer(s, n, t, r)
  {
    BumpIsFirstRun(s, n);
    BumpPlaces(s, n, 0);
    if !SomeRunHolds(s, n) {
      BumpFails(s, n);
    }
    var (u, g) := Bump(s, n);
    var (t, r) := Contiguous(s, n);
    if n * PAGE_SIZE < U64_LIMIT && r.Some? && s.runEnd - s.cursor < n {
      var k :| 0 <= k < |s.pending| && TakenFrom(s, u, r.value, n, k);
      assert TakenFrom(s, t, r.value, n, k);
    }
  }

  /** A single frame comes off the top of the stack, or from a run if the stack is empty. */
  ghost predicate AllocAnswer(s: State, t: State, r: Option<nat>)
    requires s.cursor <= s.runEnd
  {
    if s.stack != [] then
      && r == Some(s.stack[0]) && [s.stack[0]] + t.stack == s.stack
      && t == State(t.stack, s.cursor, s.runEnd, s.pending, s.handed + {s.stack[0]})
    else ContiguousAnswer(s, 1, t, r)
  }

  lemma AllocIsExact(s: State)
    requires s.cursor <= s.runEnd
    ensures var (t, r) := AllocFrame(s); AllocAnswer(s, t, r)
  {
    ContiguousIsExact(s, 1);
  }

  // ---------------------------------------------------------------- single frames

  lemma NoRunsLeft(s: State, f: nat)
    requires s.cursor <= s.runEnd
    requires forall i :: 0 <= i < |s.pending| ==> s.pending[i].frames > 0
    ensures !SomeRunHolds(s, 1) ==> s.cursor == s.runEnd && CountRuns(s.pending, f) == 0
  {
    assert s.pending != [] ==> s.pending[0].frames >= 1;
  }

  /** A fresh frame is usable and was not live; `None` means every frame is. */
  lemma AllocFrameKeepsInv(s: State, all: set<nat>)
    requires Inv(s, all)
    ensures var (t, r) := AllocFrame(s);
            && Inv(t, all)
            && (r.Some? ==> r.value in all && r.value !in s.handed && t.handed == s.handed + {r.value})
            && (r.None? ==> t.handed == s.handed)
            && (r.None? <==> s.handed == all)
  {
    var (t, r) := AllocFrame(s);
    if s.stack != [] {
      forall f: nat ensures Places(t, f) == One(f in all) {
        assert Places(s, f) == One(f in all);
      }
      assert Places(s, s.stack[0]) == One(s.stack[0] in all);
    } else {
      ContiguousKeepsInv(s, 1, all);
      BumpIsFirstRun(s, 1);
      assert r.Some? ==> Interval(r.value, 1) == {r.value};
      if r.None? {
        forall f: nat ensures f in all <==> f in s.handed {
          assert Places(s, f) == One(f in all);
          NoRunsLeft(s, f);
        }
      }
    }
  }

  lemma DeallocFrameKeepsInv(s: State, f: nat, all: set<nat>)
    requires Inv(s, all) && f in s.handed
    ensures Inv(DeallocFrame(s, f), all)
  {
    var t := DeallocFrame(s, f);
    forall g: nat ensures Places(t, g) == One(g in all) {
      assert Places(s, g) == One(g in all);
      assert t.stack[1..] == s.stack;
    }
  }

  /** Freeing then allocating hands the same frame straight back. */
  lemma DeallocThenAlloc(s: State, f: nat)
    requires f in s.handed && s.cursor <= s.runEnd
    ensures AllocFrame(DeallocFrame(s, f)) == (s, Some(f))
  {
    assert ([f] + s.stack)[1..] == s.stack;
    assert s.handed - {f} + {f} == s.handed;
  }

  lemma {:induction false} CountDistinct(stack: seq<nat>)
    requires forall f: nat :: Count(stack, f) <= 1
    ensures forall i, j :: 0 <= i < j < |stack| ==> stack[i] != stack[j]
  {
    if stack != [] {
      forall f: nat ensures Count(stack[1..], f) <= 1 {
        assert Count(stack, f) <= 1;
      }
      CountDistinct(stack[1..]);
      CountMember(stack[1..], stack[0]);
      assert Count(stack, stack[0]) <= 1;
      forall i, j | 0 <= i < j < |stack| ensures stack[i] != stack[j] {
        assert stack[j] == stack[1..][j - 1];
        if i > 0 { assert stack[i] == stack[1..][i - 1]; }
      }
    }
  }

  /** The stack holds each frame once and shares none with the live set. */
  lemma StackIsDistinct(s: State, all: set<nat>)
    requires Inv(s, all)
    ensures forall i, j :: 0 <= i < j < |s.stack| ==> s.stack[i] != s.stack[j]
    ensures forall f :: f in s.stack ==> f in all && f !in s.handed && f > 0
    ensures s.handed <= all
  {
    forall f: nat ensures Count(s.stack, f) + One(f in s.handed) <= One(f in all) {
      assert Places(s, f) == One(f in all);
    }
    CountDistinct(s.stack);
    forall f | f in s.stack ensures f in all && f !in s.handed && f > 0 {
      CountMember(s.stack, f);
    }
    forall f | f in s.handed ensures f in all {
      assert Count(s.stack, f) + One(f in s.handed) <= One(f in all);
    }
  }

  // ---------------------------------------------------------------------- runs

  function Drain(s: State, k: nat): State
    decreases k
  {
    if k == 0 || s.cursor > s.runEnd then s else Drain(AllocFrame(s).0, k - 1)
  }

  /** Nothing is stranded: from any reachable state, single-frame requests go on
      succeeding until every usable frame is live. */
  lemma {:induction false} DrainReachesEverything(s: State, all: set<nat>)
    requires Inv(s, all)
    ensures Drain(s, |all - s.handed|).handed == all
    ensures Inv(Drain(s, |all - s.handed|), all)
    decreases |all - s.handed|
  {
    StackIsDistinct(s, all);
    AllocFrameKeepsInv(s, all);
    var left := all - s.handed;
    if left != {} {
      var (t, r) := AllocFrame(s);
      assert all - t.handed == left - {r.value} && r.value in left;
      assert |left - {r.value}| == |left| - 1;
      DrainReachesEverything(t, all);
    }
  }

  datatype Op = AllocOp | ContiguousOp(n: nat) | DeallocOp(f: nat)

  /** Only live frames are given back. */
  predicate Allowed(s: State, op: Op) {
    s.cursor <= s.runEnd && (op.DeallocOp? ==> op.f in s.handed)
  }

  function Apply(s: State, op: Op): State
    requires Allowed(s, op)
  {
    match op
    case AllocOp => AllocFrame(s).0
    case ContiguousOp(n) => Contiguous(s, n).0
    case DeallocOp(f) => DeallocFrame(s, f)
  }

  predicate Legal(s: State, ops: seq<Op>)
    decreases |ops|
  {
    ops == [] || (Allowed(s, ops[0]) && Legal(Apply(s, ops[0]), ops[1..]))
  }

  function Run(s: State, ops: seq<Op>): State
    requires Legal(s, ops)
    decreases |ops|
  {
    if ops == [] then s else Run(Apply(s, ops[0]), ops[1..])
  }

  /** The partition survives every run of allocations and returns. */
  lemma {:induction false} RunKeepsPartition(s: State, ops: seq<Op>, all: set<nat>)
    requires Inv(s, all) && Legal(s, ops)
    ensures Inv(Run(s, ops), all)
    decreases |ops|
  {
    if ops != [] {
      match ops[0] {
        case AllocOp => AllocFrameKeepsInv(s, all);
        case ContiguousOp(n) => ContiguousKeepsInv(s, n, all);
        case DeallocOp(f) => DeallocFrameKeepsInv(s, f, all);
      }
      RunKeepsPartition(Apply(s, ops[0]), ops[1..], all);
    }
  }

  // ------------------------------------------------------------------- boot state

  /** The frames of a list of runs. */
  function FramesOf(runs: seq<FrameRun>): set<nat> {
    if runs == [] then {} else Interval(runs[0].First(), runs[0].frames) + FramesOf(runs[1..])
  }

  function TotalFrames(runs: seq<FrameRun>): nat {
    if runs == [] then 0 else runs[0].frames + TotalFrames(runs[1..])
  }

  function Booted(runs: seq<FrameRun>): State
    requires runs != []
  {
    State([], runs[0].First(), runs[0].Last(), runs[1..], {})
  }

  lemma {:induction false} CountRunsIsMembership(runs: seq<FrameRun>, f: nat)
    requires DisjointRuns(runs)
    ensures CountRuns(runs, f) == One(f in FramesOf(runs))
    ensures f in FramesOf(runs) <==> InRuns(runs, f)
  {
    if runs != [] {
      var rest := runs[1..];
      forall i, j | 0 <= i < j < |rest|
        ensures rest[i].Last() <= rest[j].First() || rest[j].Last() <= rest[i].First()
      {
        assert rest[i] == runs[i + 1] && rest[j] == runs[j + 1];
      }
      CountRunsIsMembership(rest, f);
      if InRuns(rest, f) {
        var k :| 0 <= k < |rest| && rest[k].Has(f);
        assert runs[k + 1].Has(f);
      }
      if InRuns(runs, f) {
        var k :| 0 <= k < |runs| && runs[k].Has(f);
        assert k > 0 ==> rest[k - 1].Has(f);
      }
      assert runs[0].Has(f) ==> InRuns(runs, f);
    }
  }

  lemma BootedInv(runs: seq<FrameRun>)
    requires runs != [] && DisjointRuns(runs)
    requires forall run :: run in runs ==> run.frames > 0 && run.First() > 0
    ensures Inv(Booted(runs), FramesOf(runs))
  {
    var s := Booted(runs);
    forall f: nat ensures Places(s, f) == One(f in FramesOf(runs)) {
      CountRunsIsMembership(runs, f);
    }
    CountRunsIsMembership(runs, 0);
    forall i | 0 <= i < |s.pending| ensures s.pending[i].frames > 0 {
      assert s.pending[i] == runs[i + 1];
    }
  }

  /** The first request of the kernel's life is served from the start of the first
      run, in map order, that is long enough, and only if there is one. */
  lemma FirstRequest(runs: seq<FrameRun>, n: nat)
    requires runs != [] && n * PAGE_SIZE < U64_LIMIT
    ensures var r := Contiguous(Booted(runs), n).1;
            if exists k :: 0 <= k < |runs| && runs[k].frames >= n then
              exists k :: 0 <= k < |runs| && runs[k].frames >= n && r == Some(runs[k].First())
                          && forall j :: 0 <= j < k ==> runs[j].frames < n
            else r == None
  {
    var s := Booted(runs);
    ContiguousIsExact(s, n);
    var (t, r) := Contiguous(s, n);
    if k :| 0 <= k < |runs| && runs[k].frames >= n {
      assert k > 0 ==> s.pending[k - 1] == runs[k];
    }
    if runs[0].frames >= n {
      assert r == Some(runs[0].First());
    } else if r.Some? {
      var k :| 0 <= k < |s.pending| && TakenFrom(s, t, r.value, n, k);
      assert runs[k + 1] == s.pending[k];
      forall j | 0 <= j < k + 1 ensures runs[j].frames < n {
        assert j > 0 ==> runs[j] == s.pending[j - 1];
      }
    }
  }

  /** The total `init` reports is the number of distinct usable frames. */
  lemma {:induction false} TotalIsCardinality(runs: seq<FrameRun>)
    requires DisjointRuns(runs)
    ensures TotalFrames(runs) == |FramesOf(runs)|
  {
    if runs != [] {
      var head, rest := Interval(runs[0].First(), runs[0].frames), runs[1..];
      forall i, j | 0 <= i < j < |rest|
        ensures rest[i].Last() <= rest[j].First() || rest[j].Last() <= rest[i].First()
      {
        assert rest[i] == runs[i + 1] && rest[j] == runs[j + 1];
      }
      TotalIsCardinality(rest);
      IntervalSize(runs[0].First(), runs[0].frames);
      forall k | 0 <= k < |rest|
        ensures runs[0].Last() <= rest[k].First() || rest[k].Last() <= runs[0].First()
      {
        assert rest[k] == runs[k + 1];
      }
      forall f | f in head ensures f !in FramesOf(rest) {
        CountRunsIsMembership(rest, f);
      }
      assert head !! FramesOf(rest);
    }
  }

  // -------------------------------------------------------------- the tested sums

  /** One page past each frame from `lo` up to `hi`: a sum for each frame. */
  function Ends(lo: nat, hi: nat): seq<nat>
    requires lo <= hi
  {
    seq(hi - lo, i requires 0 <= i => (lo + i + 1) * PAGE_SIZE)
  }

  /** The sums `cursor + PAGE_SIZE` compared while the frames from `lo` to `hi` are
      stranded: one for each frame, and the one that ends the loop. */
  function StrandSums(lo: nat, hi: nat): seq<nat>
    requires lo <= hi
  {
    Ends(lo, hi + 1)
  }

  lemma EndsStep(before: seq<nat>, lo: nat, k: nat)
    requires lo <= k
    ensures before + Ends(lo, k) + [(k + 1) * PAGE_SIZE] == before + Ends(lo, k + 1)
  {
    assert Ends(lo, k) + [(k + 1) * PAGE_SIZE] == Ends(lo, k + 1);
  }

  /** The sums compared by `Bump`, in order, as unbounded numbers. */
  function BumpSums(s: State, n: nat): seq<nat>
    requires s.cursor <= s.runEnd
    decreases |s.pending|
  {
    if s.runEnd - s.cursor >= n then []
    else StrandSums(s.cursor, s.runEnd) + if s.pending == [] then [] else BumpSums(NextRun(s), n)
  }

  function ContiguousSums(s: State, n: nat): seq<nat>
    requires s.cursor <= s.runEnd
  {
    if n * PAGE_SIZE >= U64_LIMIT then [] else BumpSums(s, n)
  }

  function OpSums(s: State, op: Op): seq<nat>
    requires Allowed(s, op)
  {
    match op
    case AllocOp => if s.stack != [] then [] else ContiguousSums(s, 1)
    case ContiguousOp(n) => ContiguousSums(s, n)
    case DeallocOp(_) => []
  }

  /** The sums compared over a whole run. */
  function RunSums(s: State, ops: seq<Op>): seq<nat>
    requires Legal(s, ops)
    decreases |ops|
  {
    if ops == [] then [] else OpSums(s, ops[0]) + RunSums(Apply(s, ops[0]), ops[1..])
  }

  ghost predicate Fit(sums: seq<nat>) { forall x :: x in sums ==> x < U64_LIMIT }

  /** One page past the current run and past every later run fits 64 bits. */
  ghost predicate Headroom(s: State) {
    && (s.runEnd + 1) * PAGE_SIZE < U64_LIMIT
    && forall i :: 0 <= i < |s.pending| ==> (s.pending[i].Last() + 1) * PAGE_SIZE < U64_LIMIT
  }

  /** Stranding a run compares sums up to one page past its end, and that one last. */
  lemma StrandSumsReach(lo: nat, hi: nat)
    requires lo <= hi
    ensures Fit(StrandSums(lo, hi)) <==> (hi + 1) * PAGE_SIZE < U64_LIMIT
  {
    var sums := StrandSums(lo, hi);
    assert sums[hi - lo] == (hi + 1) * PAGE_SIZE && sums[hi - lo] in sums;
    forall x | x in sums ensures x <= (hi + 1) * PAGE_SIZE {
      var i :| 0 <= i < |sums| && sums[i] == x;
    }
  }

  lemma FitConcat(a: seq<nat>, b: seq<nat>)
    ensures Fit(a + b) <==> Fit(a) && Fit(b)
  {
    assert forall x :: x in a + b <==> x in a || x in b;
  }

  lemma {:induction false} BumpKeepsHeadroom(s: State, n: nat)
    requires s.cursor <= s.runEnd && Headroom(s)
    ensures Headroom(Bump(s, n).0) && Fit(BumpSums(s, n))
    decreases |s.pending|
  {
    if s.runEnd - s.cursor < n {
      StrandSumsReach(s.cursor, s.runEnd);
      if s.pending != [] {
        BumpKeepsHeadroom(NextRun(s), n);
        FitConcat(StrandSums(s.cursor, s.runEnd), BumpSums(NextRun(s), n));
      }
    }
  }

  /** With headroom no run of calls ever compares a sum that does not fit. */
  lemma {:induction false} RunKeepsHeadroom(s: State, ops: seq<Op>)
    requires Legal(s, ops) && Headroom(s)
    ensures Headroom(Run(s, ops)) && Fit(RunSums(s, ops))
    decreases |ops|
  {
    if ops != [] {
      match ops[0] {
        case AllocOp => BumpKeepsHeadroom(s, 1);
        case ContiguousOp(n) => BumpKeepsHeadroom(s, n);
        case DeallocOp(_) =>
      }
      RunKeepsHeadroom(Apply(s, ops[0]), ops[1..]);
      FitConcat(OpSums(s, ops[0]), RunSums(Apply(s, ops[0]), ops[1..]));
    }
  }

  /** A request longer than every run strands them all, and so compares a sum past
      the end of each. */
  lemma {:induction false} LongRequestReachesAll(s: State, n: nat)
    requires s.cursor <= s.runEnd && !SomeRunHolds(s, n) && Fit(BumpSums(s, n))
    ensures Headroom(s)
    decreases |s.pending|
  {
    StrandSumsReach(s.cursor, s.runEnd);
    FitConcat(StrandSums(s.cursor, s.runEnd), if s.pending == [] then [] else BumpSums(NextRun(s), n));
    if s.pending != [] {
      var u := NextRun(s);
      assert s.pending[0].frames < n;
      forall k | 0 <= k < |u.pending| ensures u.pending[k].frames < n {
        assert u.pending[k] == s.pending[k + 1];
      }
      LongRequestReachesAll(u, n);
      forall i | 0 <= i < |s.pending| ensures (s.pending[i].Last() + 1) * PAGE_SIZE < U64_LIMIT {
        assert i > 0 ==> s.pending[i] == u.pending[i - 1];
      }
    }
  }

  /** Every usable descriptor ends below the last page of the address space. */
  ghost predicate EndsEarly(regions: seq<MemoryRegion>) {
    forall i :: 0 <= i < |regions| && RunOf(regions[i]).Some? ==> regions[i].End() < U64_LIMIT - PAGE_SIZE
  }

  lemma {:induction false} RunsHaveHeadroom(regions: seq<MemoryRegion>, i: nat)
    requires i <= |regions|
    ensures (forall run :: run in RunsFrom(regions, i) ==> (run.Last() + 1) * PAGE_SIZE < U64_LIMIT)
            <==> forall k :: i <= k < |regions| && RunOf(regions[k]).Some? ==> regions[k].End() < U64_LIMIT - PAGE_SIZE
    decreases |regions| - i
  {
    if i < |regions| {
      RunsHaveHeadroom(regions, i + 1);
      var rest := RunsFrom(regions, i + 1);
      if RunOf(regions[i]).Some? {
        var run := RunOf(regions[i]).value;
        BumpHeadroom(regions[i]);
        assert forall r :: r in [run] + rest <==> r == run || r in rest;
      }
    }
  }

  lemma BootedHeadroom(regions: seq<MemoryRegion>)
    requires RunsFrom(regions, 0) != []
    ensures Headroom(Booted(RunsFrom(regions, 0))) <==> EndsEarly(regions)
  {
    var runs := RunsFrom(regions, 0);
    RunsHaveHeadroom(regions, 0);
    if Headroom(Booted(runs)) {
      forall run | run in runs ensures (run.Last() + 1) * PAGE_SIZE < U64_LIMIT {
        var k :| 0 <= k < |runs| && runs[k] == run;
        assert k > 0 ==> runs[1..][k - 1] == run;
      }
    }
  }

  lemma {:induction false} RunsAreShort(regions: seq<MemoryRegion>, i: nat)
    requires i <= |regions|
    ensures forall run :: run in RunsFrom(regions, i) ==> run.frames < U64_LIMIT / PAGE_SIZE - 1
    decreases |regions| - i
  {
    if i < |regions| {
      RunsAreShort(regions, i + 1);
      if RunOf(regions[i]).Some? {
        RunInsideRegion(regions[i]);
      }
    }
  }

  /** If some descriptor reaches the last page, one request for more frames than
      memory can have compares a sum that does not fit. */
  lemma AskingTooMuchOverflows(regions: seq<MemoryRegion>)
    requires RunsFrom(regions, 0) != [] && !EndsEarly(regions)
    ensures var s := Booted(RunsFrom(regions, 0));
            var ops := [ContiguousOp(U64_LIMIT / PAGE_SIZE - 1)];
            Legal(s, ops) && !Fit(RunSums(s, ops))
  {
    var runs := RunsFrom(regions, 0);
    var s, n := Booted(runs), U64_LIMIT / PAGE_SIZE - 1;
    var ops := [ContiguousOp(n)];
    BootedHeadroom(regions);
    RunsAreShort(regions, 0);
    assert runs[0] in runs;
    forall k | 0 <= k < |s.pending| ensures s.pending[k].frames < n {
      assert s.pending[k] in runs;
    }
    if Fit(BumpSums(s, n)) {
      LongRequestReachesAll(s, n);
    }
    assert ops[1..] == [];
    assert RunSums(s, ops) == BumpSums(s, n) + [];
    assert BumpSums(s, n) + [] == BumpSums(s, n);
  }

  /** No sum overflows in any run of calls from boot if and only if every usable
      descriptor ends below the last page. */
  lemma SumsFitExactly(regions: seq<MemoryRegion>)
    requires RunsFrom(regions, 0) != []
    ensures var s := Booted(RunsFrom(regions, 0));
            (forall ops :: Legal(s, ops) ==> Fit(RunSums(s, ops))) <==> EndsEarly(regions)
  {
    var s := Booted(RunsFrom(regions, 0));
    BootedHeadroom(regions);
    if EndsEarly(regions) {
      forall ops | Legal(s, ops) ensures Fit(RunSums(s, ops)) {
        RunKeepsHeadroom(s, ops);
      }
    } else {
      AskingTooMuchOverflows(regions);
    }
  }

  /** One usable page below the last: the second single-frame request of the kernel's
      life compares a sum of exactly 2^64. */
  lemma TopOfMemoryOverflows()
    ensures var regions := [MemoryRegion(U64_LIMIT - 2 * PAGE_SIZE, 1, CONVENTIONAL)];
            && RunsFrom(regions, 0) != []
            && var s, ops := Booted(RunsFrom(regions, 0)), [AllocOp, AllocOp];
               Legal(s, ops) && RunSums(s, ops) == [U64_LIMIT]
  {
    var r := MemoryRegion(U64_LIMIT - 2 * PAGE_SIZE, 1, CONVENTIONAL);
    var run := FrameRun(U64_LIMIT - 2 * PAGE_SIZE, 1);
    assert RunOf(r) == Some(run);
    assert RunsFrom([r], 1) == [];
    assert RunsFrom([r], 0) == [run] + [];
    var f := U64_LIMIT / PAGE_SIZE - 2;
    var s := Booted([run]);
    assert s == State([], f, f + 1, [], {});
    var t := Apply(s, AllocOp);
    assert t == State([], f + 1, f + 1, [], {} + Interval(f, 1));
    assert OpSums(s, AllocOp) == [] && OpSums(t, AllocOp) == [U64_LIMIT];
    var ops := [AllocOp, AllocOp];
    assert ops[1..] == [AllocOp] && [AllocOp][1..] == [];
    assert RunSums(t, [AllocOp]) == [U64_LIMIT] + [];
  }
}
