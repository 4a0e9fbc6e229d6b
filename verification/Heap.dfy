/** The heap as the kernel runs it: headers live in the free memory they
    describe, beside the payload words of their live neighbours. */
module Heap {
  import opened Machine
  import opened FreeList
  import opened HeapModel

  /** A free block's header, in the block's first two words. */
  datatype FreeBlock = FreeBlock(size: uint64, next: uint64)

  /** The header at byte address `a` of an arena whose word 0 is at `base`. */
  function HeaderAt(m: seq<uint64>, base: nat, a: int): FreeBlock {
    if base <= a && (a - base) / 8 + 1 < |m| then FreeBlock(m[(a - base) / 8], m[(a - base) / 8 + 1])
    else FreeBlock(0, 0)
  }

  /** An address on the arena's grid with room for a header. */
  ghost predicate Slot(a: int, base: nat, words: nat) {
    base <= a && (a - base) % 16 == 0 && (a - base) / 8 + 1 < words
  }

  /** A header to be stored at an address. */
  datatype Edit = Edit(addr: int, header: FreeBlock)

  function Put(m: seq<uint64>, base: nat, e: Option<Edit>): (m': seq<uint64>)
    ensures |m'| == |m|
  {
    if e.Some? && base <= e.value.addr && (e.value.addr - base) / 8 + 1 < |m| then
      m[(e.value.addr - base) / 8 := e.value.header.size][(e.value.addr - base) / 8 + 1 := e.value.header.next]
    else m
  }

  lemma HeaderAfterPut(m: seq<uint64>, base: nat, e: Option<Edit>, b: int)
    requires (e.Some? ==> Slot(e.value.addr, base, |m|)) && (b - base) % 16 == 0
    ensures HeaderAt(Put(m, base, e), base, b) ==
            if e.Some? && e.value.addr == b then e.value.header else HeaderAt(m, base, b)
  {
  }

  /** Every word that differs lies in one of the blocks of `region`. */
  ghost predicate WritesWithin(m: seq<uint64>, m': seq<uint64>, base: nat, region: seq<Block>) {
    |m'| == |m| && forall k :: 0 <= k < |m| && m'[k] != m[k] ==> Covers(region, base + 8 * k)
  }

  /** The address of block `i`, or null past the end of the list. */
  function StartOf(fl: seq<Block>, i: nat): nat {
    if i < |fl| then fl[i].start else 0
  }

  /** Block `i`'s header holds its size and the address after it, `end` at the tail. */
  ghost predicate LinkedAt(m: seq<uint64>, base: nat, fl: seq<Block>, i: nat, end: nat)
    requires i < |fl|
  {
    var h := HeaderAt(m, base, fl[i].start);
    h.size == fl[i].size && h.next == if i + 1 < |fl| then fl[i + 1].start else end
  }

  /** The list memory holds: following `next` from `head` visits `fl` in order. */
  ghost predicate Linked(m: seq<uint64>, base: nat, fl: seq<Block>, head: nat) {
    head == StartOf(fl, 0) && forall i :: 0 <= i < |fl| ==> LinkedAt(m, base, fl, i, 0)
  }

  /** All of `fl` lies in an arena of `words` words at `base`. */
  ghost predicate Within(fl: seq<Block>, base: nat, words: nat) {
    base > 0 && base % 16 == 0 && words % 2 == 0 && base + 8 * words <= I64_LIMIT
    && Canonical(fl, base, base + 8 * words)
  }

  lemma GridDifference(a: int, base: int)
    requires a % 16 == 0 && base % 16 == 0
    ensures (a - base) % 16 == 0
  {
    DivModUnique(a - base, a / 16 - base / 16, 0, 16);
  }

  lemma SlotInside(a: int, base: nat, words: nat)
    requires base % 16 == 0 && a % 16 == 0 && base <= a && a + 16 <= base + 8 * words
    ensures Slot(a, base, words)
  {
    GridDifference(a, base);
  }

  lemma HeaderBounds(fl: seq<Block>, base: nat, words: nat, i: nat)
    requires Within(fl, base, words) && i < |fl|
    ensures Slot(fl[i].start, base, words)
  {
    assert fl[i].OnGrid();
    SlotInside(fl[i].start, base, words);
  }

  /** In an arena a block's first word is its size and its second the next block's
      address, or null. */
  lemma LinkedWords(m: seq<uint64>, base: nat, fl: seq<Block>, head: nat, i: nat)
    requires Within(fl, base, |m|) && Linked(m, base, fl, head) && i < |fl|
    ensures var k := (fl[i].start - base) / 8;
            && 0 <= k && k + 1 < |m| && m[k] == fl[i].size
            && m[k + 1] == if i + 1 < |fl| then fl[i + 1].start else 0
    ensures head == fl[0].start
  {
    HeaderBounds(fl, base, |m|, i);
    assert LinkedAt(m, base, fl, i, 0);
  }

  ghost predicate WalkableAt(m: seq<uint64>, base: nat, fl: seq<Block>, i: nat)
    requires i < |fl|
  {
    0 < fl[i].start < I64_LIMIT && Slot(fl[i].start, base, |m|) && LinkedAt(m, base, fl, i, 0)
  }

  /** What a walk along the list needs at every step. */
  ghost predicate Walkable(m: seq<uint64>, base: nat, fl: seq<Block>, head: nat) {
    head == StartOf(fl, 0) && forall i :: 0 <= i < |fl| ==> WalkableAt(m, base, fl, i)
  }

  lemma LinkedIsWalkable(m: seq<uint64>, base: nat, fl: seq<Block>, head: nat)
    requires Within(fl, base, |m|) && Linked(m, base, fl, head)
    ensures Walkable(m, base, fl, head)
  {
    forall i | 0 <= i < |fl| ensures WalkableAt(m, base, fl, i) {
      HeaderBounds(fl, base, |m|, i);
    }
  }

  lemma SpliceAt(fl: seq<Block>, i: nat, j: nat, mid: seq<Block>, k: nat)
    requires i <= j <= |fl|
    ensures StartOf(Splice(fl, i, j, mid), k) ==
            if k < i then fl[k].start else if k < i + |mid| then mid[k - i].start else StartOf(fl, k - i - |mid| + j)
    ensures k < |Splice(fl, i, j, mid)| ==>
              Splice(fl, i, j, mid)[k] ==
              if k < i then fl[k] else if k < i + |mid| then mid[k - i] else fl[k - i - |mid| + j]
  {
  }

  /** Relinking around a splice: what the in-place writes must establish. */
  lemma Relink(m: seq<uint64>, m': seq<uint64>, base: nat, fl: seq<Block>, head: nat,
               i: nat, j: nat, mid: seq<Block>, head': nat)
    requires Linked(m, base, fl, head) && i <= j <= |fl|
    requires forall k :: 0 <= k < i - 1 || j <= k < |fl| ==>
               HeaderAt(m', base, fl[k].start) == HeaderAt(m, base, fl[k].start)
    requires forall k :: 0 <= k < |mid| ==> LinkedAt(m', base, mid, k, StartOf(fl, j))
    requires i > 0 ==> LinkedAt(m', base, fl[..i], i - 1, StartOf(mid + fl[j..], 0))
    requires head' == if i > 0 then head else StartOf(mid + fl[j..], 0)
    ensures Linked(m', base, Splice(fl, i, j, mid), head')
  {
    var r := Splice(fl, i, j, mid);
    forall k | 0 <= k < |r| ensures LinkedAt(m', base, r, k, 0) {
      SpliceAt(fl, i, j, mid, k);
      SpliceAt(fl, i, j, mid, k + 1);
      if k < i - 1 {
        assert LinkedAt(m, base, fl, k, 0);
      } else if i <= k < i + |mid| {
        assert LinkedAt(m', base, mid, k - i, StartOf(fl, j));
      } else if i + |mid| <= k {
        assert LinkedAt(m, base, fl, k - i - |mid| + j, 0);
      }
    }
    SpliceAt(fl, i, j, mid, 0);
  }

  // `alloc` writes at most two headers: one for the tail it splits off, and one
  // that links the remainder in, either the shrunk front or the block before.
  function TailEdit(fl: seq<Block>, i: nat, p: nat, size: nat): Option<Edit>
    requires i < |fl| && fl[i].start <= p && p + size <= fl[i].End() <= I64_LIMIT
    requires StartOf(fl, i + 1) < U64_LIMIT
  {
    var tail := fl[i].End() - (p + size);
    if tail > 0 then Some(Edit(p + size, FreeBlock(tail, StartOf(fl, i + 1)))) else None
  }

  function Remainder(fl: seq<Block>, i: nat, p: nat, size: nat): nat
    requires i < |fl|
  {
    if p + size < fl[i].End() then p + size else StartOf(fl, i + 1)
  }

  function LinkEdit(fl: seq<Block>, i: nat, p: nat, size: nat): Option<Edit>
    requires i < |fl| && fl[i].start <= p && p + size <= fl[i].End() <= I64_LIMIT
    requires StartOf(fl, i + 1) < U64_LIMIT && (i > 0 ==> fl[i - 1].size < U64_LIMIT)
  {
    if p > fl[i].start then Some(Edit(fl[i].start, FreeBlock(p - fl[i].start, Remainder(fl, i, p, size))))
    else if i > 0 then Some(Edit(fl[i - 1].start, FreeBlock(fl[i - 1].size, Remainder(fl, i, p, size))))
    else None
  }

  lemma CarveEdits(fl: seq<Block>, base: nat, words: nat, i: nat, p: nat, size: nat)
    requires Within(fl, base, words) && i < |fl|
    requires fl[i].start <= p && p + size <= fl[i].End() && p % 16 == 0 && size % 16 == 0 && size > 0
    ensures fl[i].End() <= I64_LIMIT && StartOf(fl, i + 1) < U64_LIMIT && (i > 0 ==> fl[i - 1].size < U64_LIMIT)
    ensures var t, l := TailEdit(fl, i, p, size), LinkEdit(fl, i, p, size);
            && (t.Some? ==> Slot(t.value.addr, base, words))
            && (l.Some? ==> Slot(l.value.addr, base, words))
  {
    var b := fl[i];
    TailOnGrid(b, p, size);
    SlotInside(b.start, base, words);
    if p + size < b.End() { SlotInside(p + size, base, words); }
    if i > 0 { SlotInside(fl[i - 1].start, base, words); }
  }

  function CarvedMemory(m: seq<uint64>, base: nat, fl: seq<Block>, i: nat, p: nat, size: nat): (m': seq<uint64>)
    requires i < |fl| && fl[i].start <= p && p + size <= fl[i].End() <= I64_LIMIT
    requires StartOf(fl, i + 1) < U64_LIMIT && (i > 0 ==> fl[i - 1].size < U64_LIMIT)
    ensures |m'| == |m|
  {
    Put(Put(m, base, TailEdit(fl, i, p, size)), base, LinkEdit(fl, i, p, size))
  }

  lemma CarvedHeader(m: seq<uint64>, base: nat, fl: seq<Block>, i: nat, p: nat, size: nat, a: nat)
    requires Within(fl, base, |m|) && i < |fl| && a % 16 == 0
    requires fl[i].start <= p && p + size <= fl[i].End() && p % 16 == 0 && size % 16 == 0 && size > 0
    requires fl[i].End() <= I64_LIMIT && StartOf(fl, i + 1) < U64_LIMIT && (i > 0 ==> fl[i - 1].size < U64_LIMIT)
    ensures var t, l := TailEdit(fl, i, p, size), LinkEdit(fl, i, p, size);
            HeaderAt(CarvedMemory(m, base, fl, i, p, size), base, a) ==
            if l.Some? && l.value.addr == a then l.value.header
            else if t.Some? && t.value.addr == a then t.value.header
            else HeaderAt(m, base, a)
  {
    CarveEdits(fl, base, |m|, i, p, size);
    GridDifference(a, base);
    HeaderAfterPut(m, base, TailEdit(fl, i, p, size), a);
    HeaderAfterPut(Put(m, base, TailEdit(fl, i, p, size)), base, LinkEdit(fl, i, p, size), a);
  }

  lemma CarvedPiece(m: seq<uint64>, base: nat, fl: seq<Block>, i: nat, p: nat, size: nat, k: nat)
    requires Within(fl, base, |m|) && i < |fl|
    requires fl[i].start <= p && p + size <= fl[i].End() && p % 16 == 0 && size % 16 == 0 && size > 0
    requires fl[i].End() <= I64_LIMIT && StartOf(fl, i + 1) < U64_LIMIT && (i > 0 ==> fl[i - 1].size < U64_LIMIT)
    requires k < |Leftovers(fl[i], p, size)|
    ensures LinkedAt(CarvedMemory(m, base, fl, i, p, size), base, Leftovers(fl[i], p, size), k, StartOf(fl, i + 1))
  {
    TailOnGrid(fl[i], p, size);
    CarvedHeader(m, base, fl, i, p, size, fl[i].start);
    CarvedHeader(m, base, fl, i, p, size, p + size);
  }

  lemma CarvedPrevious(m: seq<uint64>, base: nat, fl: seq<Block>, head: nat, i: nat, p: nat, size: nat)
    requires Within(fl, base, |m|) && Linked(m, base, fl, head) && 0 < i < |fl|
    requires fl[i].start <= p && p + size <= fl[i].End() && p % 16 == 0 && size % 16 == 0 && size > 0
    requires fl[i].End() <= I64_LIMIT && StartOf(fl, i + 1) < U64_LIMIT && fl[i - 1].size < U64_LIMIT
    ensures LinkedAt(CarvedMemory(m, base, fl, i, p, size), base, fl[..i], i - 1,
                     if p > fl[i].start then fl[i].start else Remainder(fl, i, p, size))
  {
    CarvedHeader(m, base, fl, i, p, size, fl[i - 1].start);
    assert LinkedAt(m, base, fl, i - 1, 0);
  }

  /** Storing those headers leaves memory holding the carved list. */
  lemma CarveLinked(m: seq<uint64>, base: nat, fl: seq<Block>, head: nat, i: nat, p: nat, size: nat)
    requires Within(fl, base, |m|) && Linked(m, base, fl, head) && i < |fl|
    requires fl[i].start <= p && p + size <= fl[i].End() && p % 16 == 0 && size % 16 == 0 && size > 0
    requires fl[i].End() <= I64_LIMIT && StartOf(fl, i + 1) < U64_LIMIT && (i > 0 ==> fl[i - 1].size < U64_LIMIT)
    ensures Linked(CarvedMemory(m, base, fl, i, p, size), base, Carve(fl, i, p, size),
                   if i > 0 || p > fl[i].start then head else Remainder(fl, i, p, size))
  {
    var m' := CarvedMemory(m, base, fl, i, p, size);
    forall k | 0 <= k < i - 1 || i + 1 <= k < |fl|
      ensures HeaderAt(m', base, fl[k].start) == HeaderAt(m, base, fl[k].start)
    {
      CarvedHeader(m, base, fl, i, p, size, fl[k].start);
    }
    var mid := Leftovers(fl[i], p, size);
    var after := StartOf(fl, i + 1);
    forall k | 0 <= k < |mid| ensures LinkedAt(m', base, mid, k, after) {
      CarvedPiece(m, base, fl, i, p, size, k);
    }
    if i > 0 { CarvedPrevious(m, base, fl, head, i, p, size); }
    Relink(m, m', base, fl, head, i, i + 1, mid,
           if i > 0 || p > fl[i].start then head else Remainder(fl, i, p, size));
  }

  // `dealloc` writes the merged block's header, then links it in unless it was
  // merged backward into a block that already is.
  function MergeEdit(fl: seq<Block>, i: nat, b: Block): Option<Edit>
    requires i <= |fl| && Joined(fl, i, b).size < U64_LIMIT
    requires StartOf(fl, i) < U64_LIMIT && StartOf(fl, i + 1) < U64_LIMIT
  {
    Some(Edit(Joined(fl, i, b).start,
              FreeBlock(Joined(fl, i, b).size, StartOf(fl, if MergesForward(fl, i, b) then i + 1 else i))))
  }

  function PrevEdit(fl: seq<Block>, i: nat, b: Block): Option<Edit>
    requires i <= |fl| && b.start < U64_LIMIT && (i > 0 ==> fl[i - 1].size < U64_LIMIT)
  {
    if i > 0 && !MergesBackward(fl, i, b) then Some(Edit(fl[i - 1].start, FreeBlock(fl[i - 1].size, b.start)))
    else None
  }

  ghost predicate CoalesceFits(fl: seq<Block>, i: nat, b: Block) {
    && i <= |fl| && Joined(fl, i, b).size < U64_LIMIT && b.start < U64_LIMIT
    && StartOf(fl, i) < U64_LIMIT && StartOf(fl, i + 1) < U64_LIMIT && (i > 0 ==> fl[i - 1].size < U64_LIMIT)
  }

  lemma CoalesceEdits(fl: seq<Block>, base: nat, words: nat, i: nat, b: Block)
    requires Within(fl, base, words) && InGap(fl, i, b, base, base + 8 * words)
    ensures CoalesceFits(fl, i, b)
    ensures Slot(Joined(fl, i, b).start, base, words) && (i > 0 ==> Slot(fl[i - 1].start, base, words))
  {
    SlotInside(b.start, base, words);
    if i > 0 { SlotInside(fl[i - 1].start, base, words); }
  }

  function CoalescedMemory(m: seq<uint64>, base: nat, fl: seq<Block>, i: nat, b: Block): (m': seq<uint64>)
    requires CoalesceFits(fl, i, b)
    ensures |m'| == |m|
  {
    Put(Put(m, base, MergeEdit(fl, i, b)), base, PrevEdit(fl, i, b))
  }

  lemma CoalescedHeader(m: seq<uint64>, base: nat, fl: seq<Block>, i: nat, b: Block, a: nat)
    requires Within(fl, base, |m|) && InGap(fl, i, b, base, base + 8 * |m|) && a % 16 == 0
    requires CoalesceFits(fl, i, b)
    ensures var t, l := MergeEdit(fl, i, b), PrevEdit(fl, i, b);
            HeaderAt(CoalescedMemory(m, base, fl, i, b), base, a) ==
            if l.Some? && l.value.addr == a then l.value.header
            else if t.value.addr == a then t.value.header
            else HeaderAt(m, base, a)
  {
    CoalesceEdits(fl, base, |m|, i, b);
    GridDifference(a, base);
    HeaderAfterPut(m, base, MergeEdit(fl, i, b), a);
    HeaderAfterPut(Put(m, base, MergeEdit(fl, i, b)), base, PrevEdit(fl, i, b), a);
  }

  lemma CoalescedLinks(m: seq<uint64>, base: nat, fl: seq<Block>, head: nat, i: nat, b: Block)
    requires Within(fl, base, |m|) && Linked(m, base, fl, head)
    requires InGap(fl, i, b, base, base + 8 * |m|) && CoalesceFits(fl, i, b)
    ensures var x, m' := From(fl, i, b), CoalescedMemory(m, base, fl, i, b);
            && LinkedAt(m', base, [Joined(fl, i, b)], 0, StartOf(fl, To(fl, i, b)))
            && (x > 0 ==> LinkedAt(m', base, fl[..x], x - 1, Joined(fl, i, b).start))
  {
    var x, j := From(fl, i, b), Joined(fl, i, b);
    CoalescedHeader(m, base, fl, i, b, j.start);
    if x > 0 {
      CoalescedHeader(m, base, fl, i, b, fl[x - 1].start);
      assert LinkedAt(m, base, fl, x - 1, 0);
    }
  }

  lemma CoalescedFrame(m: seq<uint64>, base: nat, fl: seq<Block>, i: nat, b: Block, k: nat)
    requires Within(fl, base, |m|)
    requires InGap(fl, i, b, base, base + 8 * |m|) && CoalesceFits(fl, i, b)
    requires k < From(fl, i, b) - 1 || To(fl, i, b) <= k < |fl|
    ensures HeaderAt(CoalescedMemory(m, base, fl, i, b), base, fl[k].start) == HeaderAt(m, base, fl[k].start)
  {
    CoalescedHeader(m, base, fl, i, b, fl[k].start);
  }

  /** Storing those headers leaves memory holding the coalesced list. */
  lemma CoalesceLinked(m: seq<uint64>, base: nat, fl: seq<Block>, head: nat, i: nat, b: Block)
    requires Within(fl, base, |m|) && Linked(m, base, fl, head)
    requires InGap(fl, i, b, base, base + 8 * |m|) && CoalesceFits(fl, i, b)
    ensures Linked(CoalescedMemory(m, base, fl, i, b), base, Coalesce(fl, i, b), if i > 0 then head else b.start)
  {
    var m' := CoalescedMemory(m, base, fl, i, b);
    var x, y, j := From(fl, i, b), To(fl, i, b), Joined(fl, i, b);
    forall k | 0 <= k < x - 1 || y <= k < |fl|
      ensures HeaderAt(m', base, fl[k].start) == HeaderAt(m, base, fl[k].start)
    {
      CoalescedFrame(m, base, fl, i, b, k);
    }
    CoalescedLinks(m, base, fl, head, i, b);
    Relink(m, m', base, fl, head, x, y, [j], if i > 0 then head else b.start);
  }

  /** A header write touches its own sixteen bytes only. */
  lemma PutFrame(m: seq<uint64>, base: nat, e: Option<Edit>, k: nat)
    requires k < |m| && (e.Some? ==> Slot(e.value.addr, base, |m|))
    requires e.Some? ==> !(e.value.addr <= base + 8 * k < e.value.addr + 16)
    ensures Put(m, base, e)[k] == m[k]
  {
  }

  lemma FirstFitUnique(fl: seq<Block>, size: nat, align: nat, i: nat)
    requires align > 0 && i <= |fl| && forall k :: 0 <= k < i ==> !Fits(fl[k], size, align)
    requires i < |fl| ==> Fits(fl[i], size, align)
    ensures i == FirstFit(fl, size, align)
  {
  }

  lemma InsertionPointUnique(fl: seq<Block>, start: nat, i: nat)
    requires i <= |fl| && forall k :: 0 <= k < i ==> fl[k].start < start
    requires i < |fl| ==> fl[i].start >= start
    ensures i == InsertionPoint(fl, start)
  {
  }

  /** The headers a carve at `i` reads are in place and the ones it writes fit. */
  ghost predicate Carvable(m: seq<uint64>, base: nat, fl: seq<Block>, i: nat, p: nat, size: nat) {
    && i < |fl| && Slot(fl[i].start, base, |m|) && LinkedAt(m, base, fl, i, 0)
    && StartOf(fl, i + 1) < U64_LIMIT
    && (i > 0 ==> 0 < fl[i - 1].start < fl[i].start && Slot(fl[i - 1].start, base, |m|) && fl[i - 1].size < U64_LIMIT
                  && LinkedAt(m, base, fl, i - 1, 0))
    && fl[i].start <= p && p + size <= fl[i].End() <= I64_LIMIT && size > 0
    && (p == fl[i].start || p >= fl[i].start + GRAIN)
    && (p + size == fl[i].End() || (p + size + GRAIN <= fl[i].End() && Slot(p + size, base, |m|)))
  }

  /** Every word a carve writes is in free memory. */
  lemma CarveFrame(m: seq<uint64>, base: nat, fl: seq<Block>, i: nat, p: nat, size: nat, k: nat)
    requires Within(fl, base, |m|) && i < |fl|
    requires fl[i].start <= p && p + size <= fl[i].End() && p % 16 == 0 && size % 16 == 0 && size > 0
    requires fl[i].End() <= I64_LIMIT && StartOf(fl, i + 1) < U64_LIMIT && (i > 0 ==> fl[i - 1].size < U64_LIMIT)
    requires k < |m| && !Covers(fl, base + 8 * k)
    ensures CarvedMemory(m, base, fl, i, p, size)[k] == m[k]
  {
    CarveEdits(fl, base, |m|, i, p, size);
    TailOnGrid(fl[i], p, size);
    assert !fl[i].Has(base + 8 * k) && (i > 0 ==> !fl[i - 1].Has(base + 8 * k));
    PutFrame(m, base, TailEdit(fl, i, p, size), k);
    PutFrame(Put(m, base, TailEdit(fl, i, p, size)), base, LinkEdit(fl, i, p, size), k);
  }

  /** What the search for a block hands over to the carve, and what comes of it. */
  lemma CarveReady(m: seq<uint64>, base: nat, fl: seq<Block>, head: nat, i: nat, p: nat, size: nat)
    requires Within(fl, base, |m|) && Linked(m, base, fl, head) && i < |fl|
    requires fl[i].start <= p && p + size <= fl[i].End() && p % 16 == 0 && size % 16 == 0 && size > 0
    ensures Carvable(m, base, fl, i, p, size)
    ensures var m' := CarvedMemory(m, base, fl, i, p, size);
            && Linked(m', base, Carve(fl, i, p, size),
                      if i > 0 || p > fl[i].start then head else Remainder(fl, i, p, size))
            && WritesWithin(m, m', base, fl)
  {
    CarveEdits(fl, base, |m|, i, p, size);
    assert Carvable(m, base, fl, i, p, size) by {
      TailOnGrid(fl[i], p, size);
      assert LinkedAt(m, base, fl, i, 0);
      HeaderBounds(fl, base, |m|, i);
      if i > 0 {
        HeaderBounds(fl, base, |m|, i - 1);
        assert LinkedAt(m, base, fl, i - 1, 0);
      }
    }
    CarveLinked(m, base, fl, head, i, p, size);
    forall k | 0 <= k < |m| && !Covers(fl, base + 8 * k)
      ensures CarvedMemory(m, base, fl, i, p, size)[k] == m[k]
    {
      CarveFrame(m, base, fl, i, p, size, k);
    }
  }

  lemma InitialLinked(m: seq<uint64>, base: uint64, size: uint64)
    requires base % 16 == 0 && size == 8 * |m| && |m| >= 2
    ensures Slot(base, base, |m|)
    ensures Linked(Put(m, base, Some(Edit(base, FreeBlock(size, 0)))), base, [Block(base, size)], base)
  {
    HeaderAfterPut(m, base, Some(Edit(base, FreeBlock(size, 0))), base);
  }

  lemma StoreMissesHeader(m: seq<uint64>, base: nat, a: int, v: uint64, h: int)
    requires Slot(h, base, |m|) && base % 16 == 0 && base <= a && a % 8 == 0 && (a - base) / 8 < |m|
    requires !(h <= a < h + 16)
    ensures HeaderAt(m[(a - base) / 8 := v], base, h) == HeaderAt(m, base, h)
  {
  }

  lemma TotalPrefix(fl: seq<Block>, i: nat)
    requires i < |fl|
    ensures Total(fl[..i + 1]) == Total(fl[..i]) + fl[i].size
    ensures Total(fl[i..]) == fl[i].size + Total(fl[i + 1..])
  {
    TotalConcat(fl[..i], [fl[i]]);
    assert fl[..i + 1] == fl[..i] + [fl[i]];
    assert fl[i..][1..] == fl[i + 1..];
  }

  lemma MergeWordKept(m: seq<uint64>, base: nat, fl: seq<Block>, i: nat, b: Block, k: nat)
    requires Within(fl, base, |m|) && InGap(fl, i, b, base, base + 8 * |m|) && CoalesceFits(fl, i, b)
    requires k < |m|
    ensures Covers(fl, base + 8 * k) || b.Has(base + 8 * k) || CoalescedMemory(m, base, fl, i, b)[k] == m[k]
  {
    if !Covers(fl, base + 8 * k) && !b.Has(base + 8 * k) {
      CoalesceEdits(fl, base, |m|, i, b);
      assert i > 0 ==> !fl[i - 1].Has(base + 8 * k);
      PutFrame(m, base, MergeEdit(fl, i, b), k);
      PutFrame(Put(m, base, MergeEdit(fl, i, b)), base, PrevEdit(fl, i, b), k);
    }
  }

  /** Every word a merge writes is in a free block or the one being freed. */
  lemma MergeFrame(m: seq<uint64>, base: nat, fl: seq<Block>, i: nat, b: Block)
    requires Within(fl, base, |m|) && InGap(fl, i, b, base, base + 8 * |m|) && CoalesceFits(fl, i, b)
    ensures WritesWithin(m, CoalescedMemory(m, base, fl, i, b), base, fl + [b])
  {
    forall k | 0 <= k < |m| && CoalescedMemory(m, base, fl, i, b)[k] != m[k]
      ensures Covers(fl + [b], base + 8 * k)
    {
      MergeWordKept(m, base, fl, i, b, k);
      CoversConcat(fl, [b], base + 8 * k);
      SingleCovers(b, base + 8 * k);
    }
  }

  /** The headers a merge at `i` reads are in place and the ones it writes fit. */
  ghost predicate Mergeable(m: seq<uint64>, base: nat, fl: seq<Block>, i: nat, b: Block) {
    && CoalesceFits(fl, i, b) && Slot(b.start, base, |m|) && b.End() < U64_LIMIT && b.size > 0
    && (i < |fl| ==> b.End() <= fl[i].start && Slot(fl[i].start, base, |m|) && LinkedAt(m, base, fl, i, 0))
    && (i > 0 ==> 0 < fl[i - 1].start && fl[i - 1].size > 0 && fl[i - 1].End() <= b.start
                  && Slot(fl[i - 1].start, base, |m|) && LinkedAt(m, base, fl, i - 1, 0))
  }

  /** What the search for a position hands over to the merge, and what comes of it. */
  lemma MergeReady(m: seq<uint64>, base: nat, fl: seq<Block>, head: nat, i: nat, b: Block)
    requires Within(fl, base, |m|) && Linked(m, base, fl, head)
    requires InGap(fl, i, b, base, base + 8 * |m|)
    ensures Mergeable(m, base, fl, i, b)
    ensures var m' := CoalescedMemory(m, base, fl, i, b);
            && Linked(m', base, Coalesce(fl, i, b), if i > 0 then head else b.start)
            && WritesWithin(m, m', base, fl + [b])
  {
    CoalesceEdits(fl, base, |m|, i, b);
    assert Mergeable(m, base, fl, i, b) by {
      SlotInside(b.start, base, |m|);
      if i < |fl| {
        HeaderBounds(fl, base, |m|, i);
        assert LinkedAt(m, base, fl, i, 0);
      }
      if i > 0 {
        HeaderBounds(fl, base, |m|, i - 1);
        assert LinkedAt(m, base, fl, i - 1, 0);
      }
    }
    CoalesceLinked(m, base, fl, head, i, b);
    MergeFrame(m, base, fl, i, b);
  }

  /** What freeing a live block needs of memory, and what comes of it. */
  lemma FreeReady(m: seq<uint64>, base: nat, head: nat, s: State, b: Block)
    requires Inv(s) && s.lo == base && s.hi == base + 8 * |m| && b in s.live && |m| % 2 == 0
    requires Linked(m, base, s.free, head)
    ensures Walkable(m, base, s.free, head) && Inv(HeapModel.Dealloc(s, b))
    ensures var i := InsertionPoint(s.free, b.start);
            && Mergeable(m, base, s.free, i, b)
            && var m' := CoalescedMemory(m, base, s.free, i, b);
               && Linked(m', base, HeapModel.Dealloc(s, b).free, if i > 0 then head else b.start)
               && WritesWithin(m, m', base, s.free + [b])
  {
    DeallocKeepsInv(s, b);
    LinkedIsWalkable(m, base, s.free, head);
    MergeReady(m, base, s.free, head, InsertionPoint(s.free, b.start), b);
  }

  class Heap {
    /** Physical address of `mem[0]`; the arena is backed by whole frames. */
    const base: uint64
    const mem: array<uint64>
    var head: uint64
    ghost var state: State

    ghost predicate Placed()
    {
      base > 0 && base % PAGE_SIZE == 0 && mem.Length > 0 && mem.Length % 2 == 0
      && base + 8 * mem.Length <= I64_LIMIT
    }

    ghost predicate Valid()
      reads this, mem
    {
      && Placed() && state.lo == base && state.hi == base + 8 * mem.Length
      && Inv(state) && Linked(mem[..], base, state.free, head)
    }

    /** The `static mut HEAP`: no blocks until `Init`. */
    constructor (base: uint64, mem: array<uint64>)
      ensures this.base == base && this.mem == mem && head == 0
    {
      this.base, this.mem, head := base, mem, 0;
    }

    /** `(*block).size` and `(*block).next`. */
    method Read(block: uint64) returns (h: FreeBlock)
      requires Slot(block, base, mem.Length)
      ensures h == HeaderAt(mem[..], base, block)
    {
      h := FreeBlock(mem[(block - base) / 8], mem[(block - base) / 8 + 1]);
    }

    /** `block.write(FreeBlock { .. })`. */
    method Write(block: uint64, h: FreeBlock)
      requires Slot(block, base, mem.Length)
      modifies mem
      ensures mem[..] == Put(old(mem[..]), base, Some(Edit(block, h)))
    {
      mem[(block - base) / 8], mem[(block - base) / 8 + 1] := h.size, h.next;
    }

    /** `(*block).next = next`. */
    method WriteNext(block: uint64, next: uint64)
      requires Slot(block, base, mem.Length)
      modifies mem
      ensures mem[..] == Put(old(mem[..]), base, Some(Edit(block, HeaderAt(old(mem[..]), base, block).(next := next))))
    {
      mem[(block - base) / 8 + 1] := next;
    }

    method Init(start: uint64, size: uint64)
      requires Placed() && start == base && size == 8 * mem.Length
      modifies this, mem
      ensures Valid() && state == Initial(start, start + size)
      ensures head == start && mem[0] == size && mem[1] == 0
      ensures forall k :: 2 <= k < mem.Length ==> mem[k] == old(mem[k])
    {
      InitialInv(start, start + size);
      InitialLinked(mem[..], base, size);
      Write(start, FreeBlock(size, 0));
      head := start;
      state := Initial(start, start + size);
    }

    /** The in-place half of `alloc`: cut `[payload, payload + size)` out of `cur`. */
    method CarveOut(prev: uint64, cur: uint64, payload: uint64, size: uint64, ghost i: nat, ghost fl: seq<Block>)
      requires Carvable(mem[..], base, fl, i, payload, size)
      requires cur == fl[i].start && prev == if i == 0 then 0 else fl[i - 1].start
      modifies this`head, mem
      ensures mem[..] == CarvedMemory(old(mem[..]), base, fl, i, payload, size)
      ensures head == if i > 0 || payload > cur then old(head) else Remainder(fl, i, payload, size)
    {
      var block := Read(cur);
      var front: uint64 := payload - cur;
      var tail: uint64 := block.size - front - size;
      var remainder: uint64 := block.next;
      if tail >= GRAIN {
        remainder := payload + size;
        Write(remainder, FreeBlock(tail, block.next));
      }
      assert mem[..] == Put(old(mem[..]), base, TailEdit(fl, i, payload, size));
      if front >= GRAIN {
        Write(cur, FreeBlock(front, remainder));
      } else if prev == 0 {
        head := remainder;
      } else {
        HeaderAfterPut(old(mem[..]), base, TailEdit(fl, i, payload, size), prev);
        assert LinkEdit(fl, i, payload, size) == Some(Edit(prev, HeaderAt(mem[..], base, prev).(next := remainder)));
        WriteNext(prev, remainder);
      }
    }

    /** The search loop of `alloc`: the first block the request fits in, and the one before it. */
    method FindFit(size: uint64, align: uint64, layout: Layout, ghost fl: seq<Block>)
        returns (prev: uint64, cur: uint64, payload: uint64, ghost i: nat)
      requires Walkable(mem[..], base, fl, head)
      requires layout.Valid() && size == NormalSize(layout) && align == NormalAlign(layout)
      ensures align > 0 && i == FirstFit(fl, size, align)
      ensures cur == StartOf(fl, i) && prev == if i == 0 then 0 else fl[i - 1].start
      ensures i < |fl| ==> payload == Payload(fl[i], align)
      ensures cur == 0 <==> i == |fl|
    {
      prev, cur, payload, i := 0, head, 0, 0;
      while cur != 0
        invariant i <= |fl| && cur == StartOf(fl, i)
        invariant prev == if i == 0 then 0 else fl[i - 1].start
        invariant forall k :: 0 <= k < i ==> !Fits(fl[k], size, align)
        decreases |fl| - i
      {
        assert WalkableAt(mem[..], base, fl, i);
        var block := Read(cur);
        RequestFits(cur, layout);
        payload := NextMultipleOf(cur, align);
        var front: uint64 := payload - cur;
        var needed: uint64 := front + size;
        if block.size >= needed {
          break;
        }
        prev, cur, i := cur, block.next, i + 1;
      }
      assert i < |fl| ==> WalkableAt(mem[..], base, fl, i);
      FirstFitUnique(fl, size, align, i);
    }

    method NormalSizeOf(layout: Layout) returns (size: uint64, align: uint64)
      requires layout.Valid()
      ensures size == NormalSize(layout) && align == NormalAlign(layout)
    {
      NormalSizeBound(layout);
      size, align := NextMultipleOf(Max(layout.size, GRAIN), GRAIN), Max(layout.align, GRAIN);
    }

    method Alloc(layout: Layout) returns (p: uint64)
      requires Valid() && layout.Valid()
      modifies this, mem
      ensures Valid()
      ensures p == AllocAddr(old(state), layout) && state == HeapModel.Alloc(old(state), layout)
      ensures WritesWithin(old(mem[..]), mem[..], base, old(state.free))
    {
      var size: uint64, align: uint64 := NormalSizeOf(layout);
      LinkedIsWalkable(mem[..], base, state.free, head);
      var prev, cur, payload, i := FindFit(size, align, layout, state.free);
      if cur == 0 {
        return 0;
      }
      AllocKeepsInv(state, layout);
      GridArithmetic(state.free[i], layout);
      CarveReady(mem[..], base, state.free, head, i, payload, size);
      CarveOut(prev, cur, payload, size, i, state.free);
      state := HeapModel.Alloc(state, layout);
      return payload;
    }

    /** The search loop of `dealloc`: the last block before `start`, and the one after it. */
    method FindPosition(start: uint64, ghost fl: seq<Block>) returns (prev: uint64, cur: uint64, ghost i: nat)
      requires Walkable(mem[..], base, fl, head)
      ensures i == InsertionPoint(fl, start)
      ensures cur == StartOf(fl, i) && prev == if i == 0 then 0 else fl[i - 1].start
    {
      prev, cur, i := 0, head, 0;
      while cur != 0 && cur < start
        invariant i <= |fl| && cur == StartOf(fl, i)
        invariant prev == if i == 0 then 0 else fl[i - 1].start
        invariant forall k :: 0 <= k < i ==> fl[k].start < start
        decreases |fl| - i
      {
        assert WalkableAt(mem[..], base, fl, i);
        var block := Read(cur);
        prev, cur, i := cur, block.next, i + 1;
      }
      assert i < |fl| ==> WalkableAt(mem[..], base, fl, i);
      InsertionPointUnique(fl, start, i);
    }

    /** The in-place half of `dealloc`: merge with whichever neighbours touch, and link in. */
    method MergeIn(prev: uint64, cur: uint64, start: uint64, length: uint64, ghost i: nat, ghost fl: seq<Block>)
      requires Mergeable(mem[..], base, fl, i, Block(start, length))
      requires cur == StartOf(fl, i) && prev == if i == 0 then 0 else fl[i - 1].start
      modifies this`head, mem
      ensures mem[..] == CoalescedMemory(old(mem[..]), base, fl, i, Block(start, length))
      ensures head == if i > 0 then old(head) else start
    {
      ghost var m, b := mem[..], Block(start, length);
      var size: uint64, next: uint64 := length, cur;
      var end: uint64 := start + length;
      if cur != 0 && end == cur {
        var block := Read(cur);
        size, next := size + block.size, block.next;
      }
      assert size == b.size + (if MergesForward(fl, i, b) then fl[i].size else 0);
      assert next == StartOf(fl, To(fl, i, b));
      if prev != 0 {
        var before := Read(prev);
        var prevEnd: uint64 := prev + before.size;
        if prevEnd == start {
          Write(prev, FreeBlock(before.size + size, next));
          return;
        }
      }
      assert MergeEdit(fl, i, b) == Some(Edit(start, FreeBlock(size, next)));
      Write(start, FreeBlock(size, next));
      if prev == 0 {
        head := start;
      } else {
        HeaderAfterPut(m, base, MergeEdit(fl, i, b), prev);
        assert PrevEdit(fl, i, b) == Some(Edit(prev, HeaderAt(mem[..], base, prev).(next := start)));
        WriteNext(prev, start);
      }
    }

    method Dealloc(ptr: uint64, layout: Layout)
      requires Valid() && layout.Valid() && Block(ptr, NormalSize(layout)) in state.live
      modifies this, mem
      ensures Valid() && state == HeapModel.Dealloc(old(state), Block(ptr, NormalSize(layout)))
      ensures WritesWithin(old(mem[..]), mem[..], base, old(state.free) + [Block(ptr, NormalSize(layout))])
    {
      var size: uint64, _ := NormalSizeOf(layout);
      ghost var b := Block(ptr, size);
      FreeReady(mem[..], base, head, state, b);
      var prev, cur, i := FindPosition(ptr, state.free);
      MergeIn(prev, cur, ptr, size, i, state.free);
      state := HeapModel.Dealloc(state, b);
    }

    method FreeBytes() returns (total: uint64)
      requires Valid()
      ensures total == Total(state.free) && total + LiveTotal(state.live) == 8 * mem.Length
    {
      Conservation(state);
      ghost var fl := state.free;
      LinkedIsWalkable(mem[..], base, fl, head);
      var cur := head;
      ghost var i: nat := 0;
      total := 0;
      assert fl[..0] == [] && fl[..|fl|] == fl;
      while cur != 0
        invariant i <= |fl| && cur == StartOf(fl, i)
        invariant total == Total(fl[..i]) && Total(fl[..i]) + Total(fl[i..]) == Total(fl)
        decreases |fl| - i
      {
        assert WalkableAt(mem[..], base, fl, i);
        TotalPrefix(fl, i);
        var block := Read(cur);
        total, cur, i := total + block.size, block.next, i + 1;
      }
    }

    method FreeBlocks() returns (count: nat)
      requires Valid()
      ensures count == |state.free| && GapCount(state, count) && count <= |state.live| + 1
    {
      FragmentationBound(state);
      FreeListCountsGaps(state);
      ghost var fl := state.free;
      LinkedIsWalkable(mem[..], base, fl, head);
      var cur := head;
      count := 0;
      while cur != 0
        invariant count <= |fl| && cur == StartOf(fl, count)
        decreases |fl| - count
      {
        assert WalkableAt(mem[..], base, fl, count);
        var block := Read(cur);
        count, cur := count + 1, block.next;
      }
    }

    /** A client storing through a pointer `Alloc` gave it: whatever it writes in
        its own payload leaves the heap valid and every other word alone. */
    method Store(a: uint64, v: uint64, ghost owner: Block)
      requires Valid() && owner in state.live && owner.start <= a && a + 8 <= owner.End() && a % 8 == 0
      modifies mem
      ensures Valid() && state == old(state)
      ensures mem[..] == old(mem[..])[(a - base) / 8 := v]
    {
      ghost var m, fl := mem[..], state.free;
      forall i | 0 <= i < |fl| ensures !(fl[i].start <= a < fl[i].start + 16) && Slot(fl[i].start, base, mem.Length) {
        HeaderBounds(fl, base, mem.Length, i);
        assert owner.Has(a) && fl[i].size >= 16;
        assert fl[i].Has(a) ==> Covers(fl, a);
      }
      mem[(a - base) / 8] := v;
      forall i | 0 <= i < |fl| ensures LinkedAt(mem[..], base, fl, i, 0) {
        assert LinkedAt(m, base, fl, i, 0);
        StoreMissesHeader(m, base, a, v, fl[i].start);
      }
    }
  }

  // ------------------------------------------------------------------- over runs

  datatype Snapshot = Snapshot(state: State, mem: seq<uint64>)

  /** One thing that can happen to the arena: a heap call, or a client storing in
      the payload it owns. */
  datatype Action = Call(op: Op) | ClientStore(owner: Block)

  /** What the methods above guarantee of memory, as one step. */
  ghost predicate Happens(a: Snapshot, act: Action, b: Snapshot) {
    match act
    case Call(op) =>
      && Allowed(a.state, op) && b.state == Apply(a.state, op)
      && WritesWithin(a.mem, b.mem, a.state.lo,
                      a.state.free + (if op.DeallocOp? then [Block(op.ptr, NormalSize(op.layout))] else []))
    case ClientStore(owner) =>
      owner in a.state.live && b.state == a.state && WritesWithin(a.mem, b.mem, a.state.lo, [owner])
  }

  predicate Spares(act: Action, c: Block) {
    match act
    case Call(AllocOp(_)) => true
    case Call(DeallocOp(ptr, layout)) => Block(ptr, NormalSize(layout)) != c
    case ClientStore(owner) => owner != c
  }

  /** A call that spares `c` keeps it live and has no business in its payload. */
  lemma CallSpares(s: State, op: Op, c: Block, x: int)
    requires Inv(s) && Allowed(s, op) && Spares(Call(op), c) && c in s.live && c.Has(x)
    ensures c in Apply(s, op).live
    ensures !Covers(s.free + (if op.DeallocOp? then [Block(op.ptr, NormalSize(op.layout))] else []), x)
  {
    assert LiveAt(s.live, x) && !Covers(s.free, x);
    match op
    case AllocOp(layout) =>
      assert s.free + [] == s.free;
      AllocKeepsInv(s, layout);
    case DeallocOp(ptr, layout) =>
      CoversConcat(s.free, [Block(ptr, NormalSize(layout))], x);
      SingleCovers(Block(ptr, NormalSize(layout)), x);
  }

  /** A live payload keeps every word through anything but its own freeing and its
      owner's stores. */
  lemma PayloadKept(a: Snapshot, act: Action, b: Snapshot, c: Block, k: nat)
    requires Inv(a.state) && Happens(a, act, b) && Spares(act, c)
    requires c in a.state.live && k < |a.mem| && c.Has(a.state.lo + 8 * k)
    ensures Inv(b.state) && b.state.lo == a.state.lo && c in b.state.live && |b.mem| == |a.mem| && b.mem[k] == a.mem[k]
  {
    var x := a.state.lo + 8 * k;
    match act
    case Call(op) =>
      ApplyKeepsInv(a.state, op);
      CallSpares(a.state, op, c, x);
    case ClientStore(owner) =>
      SingleCovers(owner, x);
  }

  /** The same over any run: nothing that others do disturbs live memory. */
  lemma {:induction false} PayloadSurvives(trace: seq<Snapshot>, acts: seq<Action>, c: Block, k: nat)
    requires |trace| == |acts| + 1 && Inv(trace[0].state) && c in trace[0].state.live
    requires forall i :: 0 <= i < |acts| ==> Happens(trace[i], acts[i], trace[i + 1]) && Spares(acts[i], c)
    requires k < |trace[0].mem| && c.Has(trace[0].state.lo + 8 * k)
    ensures var last := trace[|acts|];
            && Inv(last.state) && last.state.lo == trace[0].state.lo && c in last.state.live
            && |last.mem| == |trace[0].mem| && last.mem[k] == trace[0].mem[k]
    decreases |acts|
  {
    if acts != [] {
      PayloadKept(trace[0], acts[0], trace[1], c, k);
      PayloadSurvives(trace[1..], acts[1..], c, k);
    }
  }
}
