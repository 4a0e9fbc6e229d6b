/** The heap as a state machine over values: a canonical free list beside the
    set of live allocations, and what every contract-respecting run keeps. */
module HeapModel {
  import opened Machine
  import opened FreeList

  const GRAIN: nat := 16

  /** `core::alloc::Layout`: the size, rounded up to the alignment, fits `isize`. */
  datatype Layout = Layout(size: nat, align: nat) {
    predicate Valid() { IsPowerOfTwo(align) && size + align <= I64_LIMIT }
  }

  function NormalSize(layout: Layout): nat {
    NextMultipleOf(Max(layout.size, GRAIN), GRAIN)
  }

  function NormalAlign(layout: Layout): nat { Max(layout.align, GRAIN) }

  function Payload(b: Block, align: nat): nat
    requires align > 0
  {
    NextMultipleOf(b.start, align)
  }

  predicate Fits(b: Block, size: nat, align: nat)
    requires align > 0
  {
    b.size >= Payload(b, align) - b.start + size
  }

  lemma FrontOnGrid(x: nat, y: nat)
    requires x % 16 == 0 && y % 16 == 0 && x <= y
    ensures y - x == 0 || y - x >= GRAIN
  {
  }

  lemma TailOnGrid(b: Block, p: nat, size: nat)
    requires b.OnGrid() && b.start <= p && p + size <= b.End() && p % 16 == 0 && size % 16 == 0
    ensures (p + size) % 16 == 0 && (p + size < b.End() ==> p + size + 16 <= b.End())
    ensures p > b.start ==> b.start + 16 <= p
  {
  }

  lemma NormalSizeBound(layout: Layout)
    requires layout.Valid()
    ensures layout.size <= NormalSize(layout) <= I64_LIMIT && NormalSize(layout) % GRAIN == 0
    ensures NormalAlign(layout) <= I64_LIMIT
  {
    NextMultipleIsLeast(Max(layout.size, GRAIN), GRAIN, I64_LIMIT);
  }

  lemma PayloadOnGrid(b: Block, align: nat)
    requires align > 0 && align % GRAIN == 0 && b.OnGrid()
    ensures Payload(b, align) % GRAIN == 0
  {
    MultipleOfMultiple(Payload(b, align), align, GRAIN);
  }

  lemma SmallPowersDivideGrain(n: nat)
    requires IsPowerOfTwo(n) && n < 16
    ensures 16 % n == 0
  {
    var h := n / 2;
    assert n > 1 ==> n == 2 * h && IsPowerOfTwo(h);
    var q := h / 2;
    assert h > 1 && n > 1 ==> h == 2 * q && IsPowerOfTwo(q);
    assert n == 1 || n == 2 || n == 4 || n == 8;
  }

  lemma NormalOnGrid(layout: Layout)
    requires layout.Valid()
    ensures NormalSize(layout) % GRAIN == 0 && NormalAlign(layout) % GRAIN == 0
    ensures NormalAlign(layout) % layout.align == 0
  {
    if layout.align >= GRAIN {
      PowerOfTwoOnGrid(layout.align);
    } else {
      SmallPowersDivideGrain(layout.align);
    }
  }

  /** Requests are raised onto the grid and no further; every quantity `alloc`
      computes fits 64 bits; and the two pieces left by a carve are zero or at least
      one whole header. */
  lemma GridArithmetic(b: Block, layout: Layout)
    requires layout.Valid() && b.OnGrid() && b.End() <= I64_LIMIT
    ensures var size, align := NormalSize(layout), NormalAlign(layout);
            var payload := Payload(b, align);
            && size % GRAIN == 0 && layout.size <= size < Max(layout.size, GRAIN) + GRAIN && size <= I64_LIMIT
            && align % GRAIN == 0 && align % layout.align == 0 && align <= Max(layout.align, GRAIN)
            && payload % GRAIN == 0
            && payload < U64_LIMIT && payload - b.start + size < U64_LIMIT
            && (payload - b.start == 0 || payload - b.start >= GRAIN)
            && (Fits(b, size, align) ==>
                  b.End() - (payload + size) == 0 || b.End() - (payload + size) >= GRAIN)
  {
    NormalOnGrid(layout);
    NormalSizeBound(layout);
    PayloadOnGrid(b, NormalAlign(layout));
    if Fits(b, NormalSize(layout), NormalAlign(layout)) {
      TailOnGrid(b, Payload(b, NormalAlign(layout)), NormalSize(layout));
    }
    FrontOnGrid(b.start, Payload(b, NormalAlign(layout)));
  }

  /** The search computes nothing that overflows, whether or not the block fits. */
  lemma RequestFits(start: nat, layout: Layout)
    requires layout.Valid() && start < I64_LIMIT
    ensures NextMultipleOf(start, NormalAlign(layout)) < U64_LIMIT
    ensures NextMultipleOf(start, NormalAlign(layout)) - start + NormalSize(layout) < U64_LIMIT
  {
    NormalSizeBound(layout);
  }

  // ---------------------------------------------------------------- carving

  /** The first block that can hold the request, or `|fl|`. */
  function FirstFit(fl: seq<Block>, size: nat, align: nat): (i: nat)
    requires align > 0
    ensures i <= |fl|
    ensures forall k :: 0 <= k < i ==> !Fits(fl[k], size, align)
    ensures i < |fl| ==> Fits(fl[i], size, align)
  {
    if fl == [] || Fits(fl[0], size, align) then 0 else 1 + FirstFit(fl[1..], size, align)
  }

  /** The block of bytes `x..y`, if there are any. */
  function Piece(x: nat, y: nat): seq<Block> {
    if x < y then [Block(x, y - x)] else []
  }

  /** What is left of `b` when `[p, p + size)` is taken out of it. */
  function Leftovers(b: Block, p: nat, size: nat): seq<Block>
    requires b.start <= p && p + size <= b.End()
  {
    Piece(b.start, p) + Piece(p + size, b.End())
  }

  function Carve(fl: seq<Block>, i: nat, p: nat, size: nat): seq<Block>
    requires i < |fl| && fl[i].start <= p && p + size <= fl[i].End()
  {
    Splice(fl, i, i + 1, Leftovers(fl[i], p, size))
  }

  lemma PieceCanonical(x: nat, y: nat, lo: nat, hi: nat)
    requires x % 16 == 0 && y % 16 == 0 && lo <= x && y <= hi
    ensures Canonical(Piece(x, y), lo, hi)
  {
    DivModUnique(y - x, y / 16 - x / 16, 0, 16);
  }

  lemma LeftoversCanonical(b: Block, p: nat, size: nat, lo: nat, hi: nat)
    requires b.OnGrid() && lo <= b.start && b.End() <= hi && b.start <= p && p + size <= b.End()
    requires size > 0 && size % 16 == 0 && p % 16 == 0
    ensures Canonical(Leftovers(b, p, size), lo, hi)
  {
    TailOnGrid(b, p, size);
    DivModUnique(b.End(), b.start / 16 + b.size / 16, 0, 16);
    PieceCanonical(b.start, p, lo, hi);
    PieceCanonical(p + size, b.End(), lo, hi);
    CanonicalConcat(Piece(b.start, p), Piece(p + size, b.End()), lo, hi);
  }

  lemma LeftoversInside(b: Block, p: nat, size: nat)
    requires b.start <= p && p + size <= b.End()
    ensures var mid := Leftovers(b, p, size);
            mid != [] ==> b.start <= mid[0].start && mid[|mid| - 1].End() <= b.End()
  {
  }

  lemma CarveCanonical(fl: seq<Block>, i: nat, p: nat, size: nat, lo: nat, hi: nat)
    requires Canonical(fl, lo, hi) && i < |fl| && fl[i].start <= p && p + size <= fl[i].End()
    requires size > 0 && size % 16 == 0 && p % 16 == 0
    ensures Canonical(Carve(fl, i, p, size), lo, hi)
  {
    LeftoversInside(fl[i], p, size);
    LeftoversCanonical(fl[i], p, size, lo, hi);
    SpliceCanonical(fl, i, i + 1, Leftovers(fl[i], p, size), lo, hi);
  }

  lemma SingleCovers(b: Block, a: int)
    ensures Covers([b], a) <==> b.Has(a)
  {
    assert [b][0] == b;
  }

  lemma PieceCovers(x: nat, y: nat, a: int)
    ensures Covers(Piece(x, y), a) <==> x <= a < y
  {
    if x < y { SingleCovers(Block(x, y - x), a); }
  }

  lemma CarveCovers(fl: seq<Block>, i: nat, p: nat, size: nat, lo: nat, hi: nat, a: int)
    requires Canonical(fl, lo, hi) && i < |fl| && fl[i].start <= p && p + size <= fl[i].End()
    requires size > 0
    ensures Covers(Carve(fl, i, p, size), a) <==> Covers(fl, a) && !(p <= a < p + size)
  {
    var b := fl[i];
    var mid := Leftovers(b, p, size);
    SpliceCovers(fl, i, i + 1, mid, a);
    assert fl[i..i + 1] == [b];
    SingleCovers(b, a);
    CoversConcat(Piece(b.start, p), Piece(p + size, b.End()), a);
    PieceCovers(b.start, p, a);
    PieceCovers(p + size, b.End(), a);
    assert Covers(mid, a) <==> b.Has(a) && !(p <= a < p + size);
    assert b.Has(a) ==> !Covers(fl[..i], a) && !Covers(fl[i + 1..], a);
  }

  // -------------------------------------------------------------- coalescing

  /** How many blocks lie before address `start`. */
  function InsertionPoint(fl: seq<Block>, start: nat): (i: nat)
    ensures i <= |fl|
    ensures forall k :: 0 <= k < i ==> fl[k].start < start
    ensures i < |fl| ==> fl[i].start >= start
  {
    if fl == [] || fl[0].start >= start then 0 else 1 + InsertionPoint(fl[1..], start)
  }

  predicate MergesForward(fl: seq<Block>, i: nat, b: Block) {
    i < |fl| && b.End() == fl[i].start
  }

  predicate MergesBackward(fl: seq<Block>, i: nat, b: Block) {
    0 < i <= |fl| && fl[i - 1].End() == b.start
  }

  /** `b` joined with whichever neighbours it touches. */
  function Joined(fl: seq<Block>, i: nat, b: Block): Block
    requires i <= |fl|
  {
    var size := b.size + if MergesForward(fl, i, b) then fl[i].size else 0;
    if MergesBackward(fl, i, b) then Block(fl[i - 1].start, fl[i - 1].size + size) else Block(b.start, size)
  }

  // The blocks `b` merges with are `fl[From(..)..To(..)]`.
  function From(fl: seq<Block>, i: nat, b: Block): (x: nat)
    requires i <= |fl|
    ensures x <= i
  {
    if MergesBackward(fl, i, b) then i - 1 else i
  }

  function To(fl: seq<Block>, i: nat, b: Block): (y: nat)
    requires i <= |fl|
    ensures i <= y <= |fl|
  {
    if MergesForward(fl, i, b) then i + 1 else i
  }

  function Coalesce(fl: seq<Block>, i: nat, b: Block): seq<Block>
    requires i <= |fl|
  {
    Splice(fl, From(fl, i, b), To(fl, i, b), [Joined(fl, i, b)])
  }

  /** `b` lies strictly between its neighbours at position `i`. */
  ghost predicate InGap(fl: seq<Block>, i: nat, b: Block, lo: nat, hi: nat) {
    && Canonical(fl, lo, hi) && i <= |fl| && b.OnGrid() && lo <= b.start && b.End() <= hi
    && (i > 0 ==> fl[i - 1].End() <= b.start)
    && (i < |fl| ==> b.End() <= fl[i].start)
  }

  lemma UncoveredIsInGap(fl: seq<Block>, b: Block, lo: nat, hi: nat)
    requires Canonical(fl, lo, hi) && b.OnGrid() && lo <= b.start && b.End() <= hi
    requires forall a :: b.Has(a) ==> !Covers(fl, a)
    ensures InGap(fl, InsertionPoint(fl, b.start), b, lo, hi)
  {
    var i := InsertionPoint(fl, b.start);
    assert b.Has(b.start);
    if i > 0 {
      assert fl[i - 1].Has(b.start) ==> Covers(fl, b.start);
    }
    if i < |fl| {
      assert fl[i].Has(fl[i].start);
      assert Covers(fl, fl[i].start);
      assert !b.Has(fl[i].start);
    }
  }

  lemma JoinedOnGrid(fl: seq<Block>, i: nat, b: Block, lo: nat, hi: nat)
    requires InGap(fl, i, b, lo, hi)
    ensures var j := Joined(fl, i, b);
            && j.OnGrid() && lo <= j.start && j.End() <= hi
            && (From(fl, i, b) > 0 ==> fl[From(fl, i, b) - 1].End() < j.start)
            && (To(fl, i, b) < |fl| ==> j.End() < fl[To(fl, i, b)].start)
  {
  }

  lemma CoalesceCanonical(fl: seq<Block>, i: nat, b: Block, lo: nat, hi: nat)
    requires InGap(fl, i, b, lo, hi)
    ensures Canonical(Coalesce(fl, i, b), lo, hi)
  {
    JoinedOnGrid(fl, i, b, lo, hi);
    SpliceCanonical(fl, From(fl, i, b), To(fl, i, b), [Joined(fl, i, b)], lo, hi);
  }

  lemma TotalOfOne(b: Block)
    ensures Total([b]) == b.size
  {
    assert [b][1..] == [];
  }

  lemma SplitTotal(fl: seq<Block>, x: nat, i: nat, y: nat)
    requires x <= i <= y <= |fl|
    ensures Total(fl[x..y]) == Total(fl[x..i]) + Total(fl[i..y])
  {
    TotalConcat(fl[x..i], fl[i..y]);
    assert fl[x..i] + fl[i..y] == fl[x..y];
  }

  lemma ShortTotal(fl: seq<Block>, i: nat, j: nat)
    requires i <= j <= |fl| && j <= i + 1
    ensures Total(fl[i..j]) == if i < j then fl[i].size else 0
  {
    if i < j {
      assert fl[i..j] == [fl[i]];
      TotalOfOne(fl[i]);
    }
  }

  lemma CoalesceTotal(fl: seq<Block>, i: nat, b: Block)
    requires i <= |fl|
    ensures Total(Coalesce(fl, i, b)) == Total(fl) + b.size
  {
    var x, y := From(fl, i, b), To(fl, i, b);
    SpliceTotal(fl, x, y, [Joined(fl, i, b)]);
    TotalOfOne(Joined(fl, i, b));
    SplitTotal(fl, x, i, y);
    ShortTotal(fl, x, i);
    ShortTotal(fl, i, y);
  }

  lemma AtMostOneCovers(fl: seq<Block>, x: nat, y: nat, a: int)
    requires x <= y <= |fl| && y <= x + 1
    ensures Covers(fl[x..y], a) <==> x < y && fl[x].Has(a)
  {
    if x < y {
      assert fl[x..y] == [fl[x]];
      SingleCovers(fl[x], a);
    }
  }

  /** The joined block holds the freed bytes and those of the neighbours it absorbs. */
  lemma JoinedCovers(fl: seq<Block>, i: nat, b: Block, a: int)
    requires i <= |fl|
    ensures Joined(fl, i, b).Has(a) <==> Covers(fl[From(fl, i, b)..To(fl, i, b)], a) || b.Has(a)
  {
    var x, y := From(fl, i, b), To(fl, i, b);
    CoversConcat(fl[x..i], fl[i..y], a);
    assert fl[x..i] + fl[i..y] == fl[x..y];
    AtMostOneCovers(fl, x, i, a);
    AtMostOneCovers(fl, i, y, a);
  }

  lemma CoalesceCovers(fl: seq<Block>, i: nat, b: Block, lo: nat, hi: nat, a: int)
    requires InGap(fl, i, b, lo, hi)
    ensures Covers(Coalesce(fl, i, b), a) <==> Covers(fl, a) || b.Has(a)
  {
    var x, y, j := From(fl, i, b), To(fl, i, b), Joined(fl, i, b);
    SpliceCovers(fl, x, y, [j], a);
    SingleCovers(j, a);
    JoinedCovers(fl, i, b, a);
  }

  // ------------------------------------------------------------------ states

  datatype State = State(lo: nat, hi: nat, free: seq<Block>, live: set<Block>)

  ghost predicate LiveAt(live: set<Block>, a: int) {
    exists b :: b in live && b.Has(a)
  }

  ghost predicate Arena(lo: nat, hi: nat) {
    0 < lo < hi <= I64_LIMIT && lo % GRAIN == 0 && hi % GRAIN == 0
  }

  ghost predicate LiveValid(live: set<Block>, lo: nat, hi: nat) {
    && (forall b :: b in live ==> b.OnGrid() && lo <= b.start && b.End() <= hi)
    && (forall b, c :: b in live && c in live && b != c ==> b.End() <= c.start || c.End() <= b.start)
  }

  /** The free list is canonical and covers exactly the bytes no allocation holds. */
  ghost predicate Inv(s: State) {
    && Arena(s.lo, s.hi)
    && Canonical(s.free, s.lo, s.hi)
    && LiveValid(s.live, s.lo, s.hi)
    && forall a :: s.lo <= a < s.hi ==> (Covers(s.free, a) <==> !LiveAt(s.live, a))
  }

  /** An arena byte nobody holds. */
  ghost predicate VacantAt(s: State, a: int) {
    s.lo <= a < s.hi && !LiveAt(s.live, a)
  }

  /** Said of the live set alone: `n` consecutive vacant bytes from `p`. */
  ghost predicate Vacant(s: State, p: nat, n: nat) {
    forall a :: p <= a < p + n ==> VacantAt(s, a)
  }

  function Initial(lo: nat, hi: nat): State
    requires lo < hi
  {
    State(lo, hi, [Block(lo, hi - lo)], {})
  }

  function AllocAddr(s: State, layout: Layout): nat {
    var i := FirstFit(s.free, NormalSize(layout), NormalAlign(layout));
    if i < |s.free| then Payload(s.free[i], NormalAlign(layout)) else 0
  }

  function Alloc(s: State, layout: Layout): State {
    var size := NormalSize(layout);
    var i := FirstFit(s.free, size, NormalAlign(layout));
    if i == |s.free| then s else
    var p := Payload(s.free[i], NormalAlign(layout));
    s.(free := Carve(s.free, i, p, size), live := s.live + {Block(p, size)})
  }

  function Dealloc(s: State, b: Block): State {
    s.(free := Coalesce(s.free, InsertionPoint(s.free, b.start), b), live := s.live - {b})
  }

  lemma CoveredIsVacant(s: State, a: int)
    requires Inv(s)
    ensures Covers(s.free, a) <==> VacantAt(s, a)
  {
  }

  lemma FitEnds(b: Block, n: nat, m: nat)
    requires m > 0 && Fits(b, n, m)
    ensures b.start <= Payload(b, m) && Payload(b, m) + n <= b.End()
  {
  }

  lemma FirstFitNoLater(fl: seq<Block>, lo: nat, hi: nat, n: nat, m: nat, j: nat)
    requires Canonical(fl, lo, hi) && m > 0 && j < |fl| && Fits(fl[j], n, m)
    ensures FirstFit(fl, n, m) <= j && Payload(fl[FirstFit(fl, n, m)], m) <= Payload(fl[j], m)
  {
    var i := FirstFit(fl, n, m);
    FitEnds(fl[i], n, m);
  }

  lemma FitsAt(b: Block, q: nat, n: nat, m: nat)
    requires m > 0 && q % m == 0 && b.start <= q && q + n <= b.End()
    ensures Fits(b, n, m) && Payload(b, m) <= q
  {
    NextMultipleIsLeast(b.start, m, q);
  }

  lemma VacantFits(s: State, q: nat, n: nat, m: nat)
    requires Inv(s) && n > 0 && m > 0 && q % m == 0 && Vacant(s, q, n)
    ensures var i := FirstFit(s.free, n, m);
            i < |s.free| && Payload(s.free[i], m) <= q
  {
    forall a | q <= a < q + n ensures Covers(s.free, a) {
      CoveredIsVacant(s, a);
    }
    var j := RangeInOneBlock(s.free, s.lo, s.hi, q, n);
    FitsAt(s.free[j], q, n, m);
    FirstFitNoLater(s.free, s.lo, s.hi, n, m, j);
  }

  /** A successful `alloc` returns the lowest aligned vacant address; it fails
      only when there is none. Both are facts about the live set alone. */
  lemma FirstFitIsLowest(s: State, layout: Layout)
    requires Inv(s) && layout.Valid()
    ensures var p, n, m := AllocAddr(s, layout), NormalSize(layout), NormalAlign(layout);
            && (p != 0 ==> p % m == 0 && Vacant(s, p, n))
            && (p != 0 ==> forall q: nat :: q % m == 0 && Vacant(s, q, n) ==> p <= q)
            && (p == 0 ==> !exists q: nat :: q % m == 0 && Vacant(s, q, n))
  {
    var p, n, m := AllocAddr(s, layout), NormalSize(layout), NormalAlign(layout);
    var i := FirstFit(s.free, n, m);
    if i < |s.free| {
      forall a | p <= a < p + n ensures VacantAt(s, a) {
        assert s.free[i].Has(a);
        CoveredIsVacant(s, a);
      }
    }
    forall q: nat | q % m == 0 && Vacant(s, q, n) ensures i < |s.free| && p <= q {
      VacantFits(s, q, n, m);
    }
  }

  lemma VacantMissesLive(s: State, p: nat, n: nat, c: Block)
    requires Vacant(s, p, n) && c in s.live && c.size > 0 && n > 0
    ensures p + n <= c.start || c.End() <= p
  {
    var a := Max(p, c.start);
    assert c.Has(a) ==> LiveAt(s.live, a);
    assert p <= a < p + n ==> VacantAt(s, a);
  }

  lemma LiveAfterAdd(live: set<Block>, b: Block, a: int)
    ensures LiveAt(live + {b}, a) <==> LiveAt(live, a) || b.Has(a)
  {
    assert b in live + {b};
    if LiveAt(live, a) {
      var c :| c in live && c.Has(a);
      assert c in live + {b};
    }
  }

  /** Moving a vacant stretch of free block `i` to the live set. */
  lemma AddAllocation(s: State, i: nat, b: Block)
    requires Inv(s) && i < |s.free| && b.OnGrid() && s.free[i].start <= b.start && b.End() <= s.free[i].End()
    requires Vacant(s, b.start, b.size)
    ensures b !in s.live && forall c :: c in s.live ==> b.End() <= c.start || c.End() <= b.start
    ensures Inv(s.(free := Carve(s.free, i, b.start, b.size), live := s.live + {b}))
  {
    CarveCanonical(s.free, i, b.start, b.size, s.lo, s.hi);
    assert b.Has(b.start);
    forall c | c in s.live ensures b.End() <= c.start || c.End() <= b.start {
      VacantMissesLive(s, b.start, b.size, c);
    }
    forall a | s.lo <= a < s.hi
      ensures Covers(Carve(s.free, i, b.start, b.size), a) <==> !LiveAt(s.live + {b}, a)
    {
      CarveCovers(s.free, i, b.start, b.size, s.lo, s.hi, a);
      LiveAfterAdd(s.live, b, a);
    }
  }

  lemma AllocKeepsInv(s: State, layout: Layout)
    requires Inv(s) && layout.Valid()
    ensures Inv(Alloc(s, layout))
    ensures var p := AllocAddr(s, layout);
            var b := Block(p, NormalSize(layout));
            if p == 0 then Alloc(s, layout) == s
            else b !in s.live && Alloc(s, layout).live == s.live + {b}
                 && p % layout.align == 0 && b.size >= layout.size
                 && forall c :: c in s.live ==> b.End() <= c.start || c.End() <= b.start
  {
    var size, align := NormalSize(layout), NormalAlign(layout);
    var i := FirstFit(s.free, size, align);
    if i < |s.free| {
      var p := Payload(s.free[i], align);
      FirstFitIsLowest(s, layout);
      NormalOnGrid(layout);
      NormalSizeBound(layout);
      PayloadOnGrid(s.free[i], align);
      MultipleOfMultiple(p, align, layout.align);
      AddAllocation(s, i, Block(p, size));
    }
  }

  lemma LiveAfterRemove(s: State, b: Block, a: int)
    requires LiveValid(s.live, s.lo, s.hi) && b in s.live
    ensures LiveAt(s.live - {b}, a) <==> LiveAt(s.live, a) && !b.Has(a)
  {
    if LiveAt(s.live, a) && !b.Has(a) {
      var c :| c in s.live && c.Has(a);
      assert c in s.live - {b};
    }
  }

  lemma DeallocKeepsInv(s: State, b: Block)
    requires Inv(s) && b in s.live
    ensures InGap(s.free, InsertionPoint(s.free, b.start), b, s.lo, s.hi)
    ensures Inv(Dealloc(s, b))
    ensures Total(Dealloc(s, b).free) == Total(s.free) + b.size
  {
    forall a | b.Has(a) ensures !Covers(s.free, a) {
      assert LiveAt(s.live, a);
    }
    UncoveredIsInGap(s.free, b, s.lo, s.hi);
    var i := InsertionPoint(s.free, b.start);
    CoalesceCanonical(s.free, i, b, s.lo, s.hi);
    CoalesceTotal(s.free, i, b);
    forall a | s.lo <= a < s.hi ensures Covers(Dealloc(s, b).free, a) <==> !LiveAt(s.live - {b}, a) {
      CoalesceCovers(s.free, i, b, s.lo, s.hi, a);
      LiveAfterRemove(s, b, a);
    }
  }

  // --------------------------------------------------------- what it all means

  /** The free list is a function of the live set: two heaps over one arena with
      the same allocations have the same list, whatever led to them. */
  lemma HistoryIndependent(s: State, t: State)
    requires Inv(s) && Inv(t) && s.lo == t.lo && s.hi == t.hi && s.live == t.live
    ensures s == t
  {
    forall a ensures Covers(s.free, a) <==> Covers(t.free, a) {
      CoveredIsVacant(s, a);
      CoveredIsVacant(t, a);
    }
    CanonicalUnique(s.free, t.free, s.lo, s.hi);
  }

  /** A maximal vacant stretch: vacant, and blocked or at the arena edge on both sides. */
  ghost predicate MaximalGap(s: State, b: Block) {
    && b.size > 0 && Vacant(s, b.start, b.size)
    && (b.start == s.lo || LiveAt(s.live, b.start - 1))
    && (b.End() == s.hi || LiveAt(s.live, b.End()))
  }

  lemma BlockIsMaximalGap(s: State, i: nat)
    requires Inv(s) && i < |s.free|
    ensures MaximalGap(s, s.free[i])
  {
    var b := s.free[i];
    forall a | b.start <= a < b.End() ensures VacantAt(s, a) {
      assert b.Has(a);
      CoveredIsVacant(s, a);
    }
    NotCoveredAtEnd(s.free, i, s.lo, s.hi);
    forall j | 0 <= j < |s.free| ensures !s.free[j].Has(b.start - 1) {}
  }

  lemma BlockEdges(s: State, i: nat, b: Block)
    requires Inv(s) && i < |s.free| && MaximalGap(s, b)
    requires s.free[i].start <= b.start && b.End() <= s.free[i].End()
    ensures s.free[i] == b
  {
    var f := s.free[i];
    assert f.Has(b.start - 1) ==> Covers(s.free, b.start - 1);
    assert f.Has(b.End()) ==> Covers(s.free, b.End());
    CoveredIsVacant(s, b.start - 1);
    CoveredIsVacant(s, b.End());
  }

  /** The free list is exactly the set of maximal gaps between live allocations. */
  lemma FreeListIsMaximalGaps(s: State, b: Block)
    requires Inv(s)
    ensures b in s.free <==> MaximalGap(s, b)
  {
    if b in s.free {
      var i :| 0 <= i < |s.free| && s.free[i] == b;
      BlockIsMaximalGap(s, i);
    }
    if MaximalGap(s, b) {
      forall a | b.start <= a < b.End() ensures Covers(s.free, a) {
        CoveredIsVacant(s, a);
      }
      var i := RangeInOneBlock(s.free, s.lo, s.hi, b.start, b.size);
      BlockEdges(s, i, b);
    }
  }

  /** There are exactly `n` maximal gaps. */
  ghost predicate GapCount(s: State, n: nat) {
    exists gaps: set<Block> :: |gaps| == n && forall b :: b in gaps <==> MaximalGap(s, b)
  }

  lemma {:induction false} DistinctSize(fl: seq<Block>)
    requires forall i, j :: 0 <= i < j < |fl| ==> fl[i] != fl[j]
    ensures |set b | b in fl| == |fl|
  {
    if fl != [] {
      var rest := fl[1..];
      forall i, j | 0 <= i < j < |rest| ensures rest[i] != rest[j] {
        assert rest[i] == fl[i + 1] && rest[j] == fl[j + 1];
      }
      DistinctSize(rest);
      assert fl[0] !in rest;
      assert (set b | b in fl) == {fl[0]} + (set b | b in rest);
    }
  }

  lemma FreeListCountsGaps(s: State)
    requires Inv(s)
    ensures GapCount(s, |s.free|)
  {
    var gaps := set b | b in s.free;
    forall b ensures b in gaps <==> MaximalGap(s, b) {
      FreeListIsMaximalGaps(s, b);
    }
    DistinctSize(s.free);
  }

  /** Freeing a fresh allocation restores the identical heap. */
  lemma AllocThenDealloc(s: State, layout: Layout)
    requires Inv(s) && layout.Valid() && AllocAddr(s, layout) != 0
    ensures Dealloc(Alloc(s, layout), Block(AllocAddr(s, layout), NormalSize(layout))) == s
  {
    var b := Block(AllocAddr(s, layout), NormalSize(layout));
    AllocKeepsInv(s, layout);
    DeallocKeepsInv(Alloc(s, layout), b);
    AddRemove(s.live, b);
    HistoryIndependent(Dealloc(Alloc(s, layout), b), s);
  }

  /** Conversely, freeing and asking again for the same layout can only move an
      allocation down. */
  lemma DeallocThenAlloc(s: State, b: Block, layout: Layout)
    requires Inv(s) && layout.Valid() && b in s.live
    requires b.size == NormalSize(layout) && b.start % NormalAlign(layout) == 0
    ensures 0 < AllocAddr(Dealloc(s, b), layout) <= b.start
  {
    var t := Dealloc(s, b);
    DeallocKeepsInv(s, b);
    FirstFitIsLowest(t, layout);
    forall a | b.start <= a < b.start + b.size ensures VacantAt(t, a) {
      LiveAfterRemove(s, b, a);
    }
    assert Vacant(t, b.start, NormalSize(layout));
  }

  lemma InitialInv(lo: nat, hi: nat)
    requires Arena(lo, hi)
    ensures Inv(Initial(lo, hi))
  {
    var s := Initial(lo, hi);
    forall a | lo <= a < hi ensures Covers(s.free, a) && !LiveAt(s.live, a) {
      assert s.free[0].Has(a);
    }
  }

  /** With nothing live, the list is the single block `init` wrote. */
  lemma FullRecovery(s: State)
    requires Inv(s) && s.live == {}
    ensures s == Initial(s.lo, s.hi)
  {
    InitialInv(s.lo, s.hi);
    HistoryIndependent(s, Initial(s.lo, s.hi));
  }

  // ---------------------------------------------------------------- accounting

  ghost function LiveTotal(live: set<Block>): nat {
    if live == {} then 0 else
    var b :| b in live;
    b.size + LiveTotal(live - {b})
  }

  lemma {:induction false} LiveTotalRemove(live: set<Block>, b: Block)
    requires b in live
    ensures LiveTotal(live) == b.size + LiveTotal(live - {b})
    decreases |live|
  {
    var c :| c in live && LiveTotal(live) == c.size + LiveTotal(live - {c});
    if c != b {
      LiveTotalRemove(live - {c}, b);
      LiveTotalRemove(live - {b}, c);
      assert live - {c} - {b} == live - {b} - {c};
    }
  }

  /** No byte leaks: free bytes and live bytes add up to the arena. */
  lemma {:induction false} Conservation(s: State)
    requires Inv(s)
    ensures Total(s.free) + LiveTotal(s.live) == s.hi - s.lo
    decreases |s.live|
  {
    if s.live == {} {
      FullRecovery(s);
      assert Total([Block(s.lo, s.hi - s.lo)]) == s.hi - s.lo;
    } else {
      var b :| b in s.live;
      DeallocKeepsInv(s, b);
      LiveTotalRemove(s.live, b);
      Conservation(Dealloc(s, b));
    }
  }

  ghost predicate StartsAt(live: set<Block>, a: int) {
    exists b :: b in live && b.start == a
  }

  lemma AllocationAfterBlock(s: State, i: nat)
    requires Inv(s) && i + 1 < |s.free|
    ensures StartsAt(s.live, s.free[i].End())
  {
    var e := s.free[i].End();
    BlockIsMaximalGap(s, i);
    assert e < s.free[i + 1].start;
    var b :| b in s.live && b.Has(e);
    assert VacantAt(s, e - 1);
    assert !b.Has(e - 1);
  }

  lemma {:induction false} BoundByStarts(live: set<Block>, fl: seq<Block>, n: nat, lo: nat, hi: nat)
    requires Canonical(fl, lo, hi) && n <= |fl|
    requires forall i :: 0 <= i < n ==> StartsAt(live, fl[i].End())
    ensures n <= |live|
    decreases n
  {
    if n > 0 {
      var b :| b in live && b.start == fl[n - 1].End();
      forall i | 0 <= i < n - 1 ensures StartsAt(live - {b}, fl[i].End()) {
        var c :| c in live && c.start == fl[i].End();
        assert c in live - {b};
      }
      BoundByStarts(live - {b}, fl, n - 1, lo, hi);
    }
  }

  /** Fragmentation is bounded by what is live. */
  lemma FragmentationBound(s: State)
    requires Inv(s)
    ensures |s.free| <= |s.live| + 1
  {
    if |s.free| > 0 {
      var n := |s.free| - 1;
      forall i | 0 <= i < n ensures StartsAt(s.live, s.free[i].End()) {
        AllocationAfterBlock(s, i);
      }
      BoundByStarts(s.live, s.free, n, s.lo, s.hi);
    }
  }

  // --------------------------------------------------------------------- runs

  datatype Op = AllocOp(layout: Layout) | DeallocOp(ptr: nat, layout: Layout)

  /** The `GlobalAlloc` contract: valid layouts, and only live pointers freed. */
  predicate Allowed(s: State, op: Op) {
    op.layout.Valid() && (op.DeallocOp? ==> Block(op.ptr, NormalSize(op.layout)) in s.live)
  }

  function Apply(s: State, op: Op): State {
    match op
    case AllocOp(layout) => Alloc(s, layout)
    case DeallocOp(ptr, layout) => Dealloc(s, Block(ptr, NormalSize(layout)))
  }

  function Run(s: State, ops: seq<Op>): State
    decreases |ops|
  {
    if ops == [] then s else Run(Apply(s, ops[0]), ops[1..])
  }

  predicate Legal(s: State, ops: seq<Op>)
    decreases |ops|
  {
    ops == [] || (Allowed(s, ops[0]) && Legal(Apply(s, ops[0]), ops[1..]))
  }

  lemma ApplyKeepsInv(s: State, op: Op)
    requires Inv(s) && Allowed(s, op)
    ensures Inv(Apply(s, op)) && Apply(s, op).lo == s.lo && Apply(s, op).hi == s.hi
  {
    match op
    case AllocOp(layout) => AllocKeepsInv(s, layout);
    case DeallocOp(ptr, layout) => DeallocKeepsInv(s, Block(ptr, NormalSize(layout)));
  }

  lemma {:induction false} RunKeepsInv(s: State, ops: seq<Op>)
    requires Inv(s) && Legal(s, ops)
    ensures Inv(Run(s, ops)) && Run(s, ops).lo == s.lo && Run(s, ops).hi == s.hi
    decreases |ops|
  {
    if ops != [] {
      ApplyKeepsInv(s, ops[0]);
      RunKeepsInv(Apply(s, ops[0]), ops[1..]);
    }
  }

  /** Over whole runs from boot: the heap depends only on what is live, nothing
      leaks, and a run that ends with nothing live ends where it began. */
  lemma RunsAreCanonical(lo: nat, hi: nat, ops: seq<Op>, ops': seq<Op>)
    requires Arena(lo, hi)
    requires Legal(Initial(lo, hi), ops) && Legal(Initial(lo, hi), ops')
    ensures var s, t := Run(Initial(lo, hi), ops), Run(Initial(lo, hi), ops');
            && Inv(s)
            && (s.live == t.live ==> s.free == t.free)
            && (s.live == {} ==> s.free == [Block(lo, hi - lo)])
            && Total(s.free) + LiveTotal(s.live) == hi - lo
            && |s.free| <= |s.live| + 1
  {
    InitialInv(lo, hi);
    RunKeepsInv(Initial(lo, hi), ops);
    RunKeepsInv(Initial(lo, hi), ops');
    var s, t := Run(Initial(lo, hi), ops), Run(Initial(lo, hi), ops');
    if s.live == t.live { HistoryIndependent(s, t); }
    if s.live == {} { FullRecovery(s); }
    Conservation(s);
    FragmentationBound(s);
  }
}
