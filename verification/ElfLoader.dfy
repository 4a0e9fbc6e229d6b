/** Loading the segments of a kernel image into exactly the pages they name. */
module ElfLoader {
  import opened Machine
  import opened ElfImage

  /** Physical memory, and the pages firmware will still grant. */
  datatype Memory = Memory(ram: seq<uint8>, free: set<nat>)

  ghost predicate MemoryValid(m: Memory) {
    forall p :: p in m.free ==> (p + 1) * PAGE_SIZE <= |m.ram|
  }

  /** The byte a segment puts at address `a` of its pages: file bytes where it has
      any, zero before, after and between. */
  function SegmentByte(image: Image, s: Segment, a: nat): uint8
    requires WellFormed(image, s)
  {
    if s.vaddr <= a < s.vaddr + s.filesz then image[s.offset + (a - s.vaddr)] else 0
  }

  predicate Granted(m: Memory, s: Segment) {
    Interval(s.FirstPage(), s.PageCount()) <= m.free
  }

  /** Memory once `s` has claimed its pages and been copied in. */
  function Place(image: Image, m: Memory, s: Segment): Memory
    requires WellFormed(image, s)
  {
    Memory(seq(|m.ram|, a requires 0 <= a < |m.ram| =>
                 if s.HasPage(a / PAGE_SIZE) then SegmentByte(image, s, a) else m.ram[a]),
           m.free - Interval(s.FirstPage(), s.PageCount()))
  }

  datatype LoadedKernel = LoadedKernel(entry: nat, base: nat, size: nat)

  datatype Progress = Progress(lowest: nat, highest: nat, any: bool, memory: Memory)

  function AlignUp(v: nat): nat { (v + PAGE_SIZE - 1) - (v + PAGE_SIZE - 1) % PAGE_SIZE }

  function Advance(image: Image, p: Progress, s: Segment): Progress
    requires WellFormed(image, s)
  {
    Progress(Min(p.lowest, s.PageStart()), Max(p.highest, s.End()), true, Place(image, p.memory, s))
  }

  /** The checks after the last program header. */
  function Finish(h: Header, p: Progress): Result<LoadedKernel> {
    if !p.any then Err(NoLoadableSegments)
    else if h.entry < p.lowest || h.entry >= p.highest then Err(EntryOutOfRange)
    else Ok(LoadedKernel(h.entry, p.lowest, AlignUp(p.highest) - p.lowest))
  }

  /** The loader from program header `i` on: its result, and the memory it leaves. */
  function LoadFrom(image: Image, h: Header, i: nat, p: Progress): (Result<LoadedKernel>, Memory)
    decreases h.phnum - i
  {
    if i >= h.phnum then (Finish(h, p), p.memory) else
    match ItemAt(image, h, i)
    case Bad(error) => (Err(error), p.memory)
    case Skip => LoadFrom(image, h, i + 1, p)
    case Load(s) =>
      if Granted(p.memory, s) then LoadFrom(image, h, i + 1, Advance(image, p, s))
      else (Err(AllocationFailed), p.memory)
  }

  function Start(m: Memory): Progress { Progress(U64_LIMIT - 1, 0, false, m) }

  function LoadResult(image: Image, m: Memory): (Result<LoadedKernel>, Memory) {
    match ParseHeader(image)
    case Err(error) => (Err(error), m)
    case Ok(h) => LoadFrom(image, h, 0, Start(m))
  }

  // ------------------------------------------------------------- whole segments

  /** How many segments claim page `page`. */
  function Claims(segs: seq<Segment>, page: nat): nat {
    if segs == [] then 0 else One(segs[0].HasPage(page)) + Claims(segs[1..], page)
  }

  /** Every page claimed is free, and claimed once. */
  ghost predicate Grantable(segs: seq<Segment>, free: set<nat>) {
    forall page: nat :: Claims(segs, page) <= One(page in free)
  }

  function Lowest(segs: seq<Segment>, from: nat): nat {
    if segs == [] then from else Lowest(segs[1..], Min(from, segs[0].PageStart()))
  }

  function Highest(segs: seq<Segment>, from: nat): nat {
    if segs == [] then from else Highest(segs[1..], Max(from, segs[0].End()))
  }

  function PlaceAll(image: Image, m: Memory, segs: seq<Segment>): Memory
    requires forall s :: s in segs ==> WellFormed(image, s)
    decreases |segs|
  {
    if segs == [] then m else PlaceAll(image, Place(image, m, segs[0]), segs[1..])
  }

  lemma GrantedHead(m: Memory, segs: seq<Segment>)
    requires segs != []
    ensures Grantable(segs, m.free) <==>
            Granted(m, segs[0]) && Grantable(segs[1..], m.free - Interval(segs[0].FirstPage(), segs[0].PageCount()))
  {
    var pages := Interval(segs[0].FirstPage(), segs[0].PageCount());
    if Grantable(segs, m.free) {
      forall page: nat ensures Claims(segs[1..], page) <= One(page in m.free - pages)
                       ensures page in pages ==> page in m.free {
        assert Claims(segs, page) <= One(page in m.free);
      }
    }
    if Granted(m, segs[0]) && Grantable(segs[1..], m.free - pages) {
      forall page: nat ensures Claims(segs, page) <= One(page in m.free) {
        assert Claims(segs[1..], page) <= One(page in m.free - pages);
      }
    }
  }

  /** The loader succeeds from header `i` on exactly when all that is left is in order. */
  lemma {:induction false} LoadFromAccepts(image: Image, h: Header, i: nat, p: Progress)
    ensures var segs := Segments(image, h, i);
            LoadFrom(image, h, i, p).0.Ok? <==>
            && AllGood(image, h, i) && Grantable(segs, p.memory.free) && (p.any || segs != [])
            && Lowest(segs, p.lowest) <= h.entry < Highest(segs, p.highest)
    decreases h.phnum - i
  {
    var segs := Segments(image, h, i);
    if i < h.phnum {
      match ItemAt(image, h, i)
      case Bad(_) =>
      case Skip => LoadFromAccepts(image, h, i + 1, p);
      case Load(s) =>
        assert segs[1..] == Segments(image, h, i + 1);
        GrantedHead(p.memory, segs);
        if Granted(p.memory, s) {
          LoadFromAccepts(image, h, i + 1, Advance(image, p, s));
        }
    }
  }

  /** The progress made by a list of segments, all granted. */
  function Advanced(image: Image, p: Progress, segs: seq<Segment>): Progress
    requires forall s :: s in segs ==> WellFormed(image, s)
    decreases |segs|
  {
    if segs == [] then p else Advanced(image, Advance(image, p, segs[0]), segs[1..])
  }

  lemma {:induction false} AdvancedFields(image: Image, p: Progress, segs: seq<Segment>)
    requires forall s :: s in segs ==> WellFormed(image, s)
    ensures var q := Advanced(image, p, segs);
            q.lowest == Lowest(segs, p.lowest) && q.highest == Highest(segs, p.highest)
            && q.memory == PlaceAll(image, p.memory, segs) && (q.any <==> p.any || segs != [])
    decreases |segs|
  {
    if segs != [] {
      AdvancedFields(image, Advance(image, p, segs[0]), segs[1..]);
    }
  }

  /** What it then reports and leaves in memory. */
  lemma {:induction false} LoadFromResult(image: Image, h: Header, i: nat, p: Progress)
    requires LoadFrom(image, h, i, p).0.Ok?
    ensures var q := Advanced(image, p, Segments(image, h, i));
            LoadFrom(image, h, i, p) == (Finish(h, q), q.memory)
    decreases h.phnum - i
  {
    if i < h.phnum {
      match ItemAt(image, h, i)
      case Skip => LoadFromResult(image, h, i + 1, p);
      case Load(s) =>
        assert Segments(image, h, i)[1..] == Segments(image, h, i + 1);
        LoadFromResult(image, h, i + 1, Advance(image, p, s));
    }
  }

  /** The loader's entry check, over the segments loaded. */
  predicate EntryAccepted(entry: nat, segs: seq<Segment>) {
    Lowest(segs, U64_LIMIT - 1) <= entry < Highest(segs, 0)
  }

  /** What the segments listed in a valid image must satisfy: each well formed, every
      page free and claimed once, at least one, and the entry in the overall span. */
  ghost predicate Acceptable(image: Image, segs: seq<Segment>, free: set<nat>, entry: nat) {
    && segs != [] && (forall s :: s in segs ==> WellFormed(image, s))
    && (forall k, page: nat :: 0 <= k < |segs| && segs[k].HasPage(page) ==> page in free)
    && (forall j, k, page: nat :: 0 <= j < k < |segs| && segs[j].HasPage(page) ==> !segs[k].HasPage(page))
    && (exists s :: s in segs && s.PageStart() <= entry)
    && exists s :: s in segs && entry < s.End()
  }

  lemma {:induction false} ClaimsCount(segs: seq<Segment>, page: nat)
    ensures Claims(segs, page) == 0 <==> forall k :: 0 <= k < |segs| ==> !segs[k].HasPage(page)
    ensures Claims(segs, page) <= 1 <==>
            forall j, k :: 0 <= j < k < |segs| && segs[j].HasPage(page) ==> !segs[k].HasPage(page)
  {
    if segs != [] {
      var rest := segs[1..];
      ClaimsCount(rest, page);
      assert forall k :: 0 < k < |segs| ==> segs[k] == rest[k - 1];
      if Claims(segs, page) <= 1 {
        forall j, k | 0 <= j < k < |segs| && segs[j].HasPage(page) ensures !segs[k].HasPage(page) {
          assert segs[k] == rest[k - 1];
          assert j > 0 ==> segs[j] == rest[j - 1];
        }
      } else if Claims(rest, page) > 1 {
        var j, k :| 0 <= j < k < |rest| && rest[j].HasPage(page) && rest[k].HasPage(page);
        assert segs[j + 1].HasPage(page) && segs[k + 1].HasPage(page);
      } else {
        var k :| 0 <= k < |rest| && rest[k].HasPage(page);
        assert segs[0].HasPage(page) && segs[k + 1].HasPage(page);
      }
    }
  }

  /** Pages can be granted segment by segment exactly when every one is free and no
      two segments share one. */
  lemma GrantableIsDisjoint(segs: seq<Segment>, free: set<nat>)
    ensures Grantable(segs, free) <==>
            && (forall k, page: nat :: 0 <= k < |segs| && segs[k].HasPage(page) ==> page in free)
            && (forall j, k, page: nat :: 0 <= j < k < |segs| && segs[j].HasPage(page) ==> !segs[k].HasPage(page))
  {
    if Grantable(segs, free) {
      forall k, page: nat | 0 <= k < |segs| && segs[k].HasPage(page) ensures page in free {
        ClaimsCount(segs, page);
        assert Claims(segs, page) <= One(page in free);
      }
      forall j, k, page: nat | 0 <= j < k < |segs| && segs[j].HasPage(page) ensures !segs[k].HasPage(page) {
        ClaimsCount(segs, page);
        assert Claims(segs, page) <= One(page in free);
      }
    } else {
      var page: nat :| Claims(segs, page) > One(page in free);
      ClaimsCount(segs, page);
    }
  }

  lemma {:induction false} LowestIsLeast(segs: seq<Segment>, from: nat)
    ensures Lowest(segs, from) <= from
    ensures forall s :: s in segs ==> Lowest(segs, from) <= s.PageStart()
    ensures Lowest(segs, from) == from || exists s :: s in segs && Lowest(segs, from) == s.PageStart()
  {
    if segs != [] {
      LowestIsLeast(segs[1..], Min(from, segs[0].PageStart()));
      assert forall s :: s in segs <==> s == segs[0] || s in segs[1..];
    }
  }

  lemma {:induction false} HighestIsGreatest(segs: seq<Segment>, from: nat)
    ensures Highest(segs, from) >= from
    ensures forall s :: s in segs ==> Highest(segs, from) >= s.End()
    ensures Highest(segs, from) == from || exists s :: s in segs && Highest(segs, from) == s.End()
  {
    if segs != [] {
      HighestIsGreatest(segs[1..], Max(from, segs[0].End()));
      assert forall s :: s in segs <==> s == segs[0] || s in segs[1..];
    }
  }

  lemma PageStartAligned(s: Segment)
    requires s.vaddr < U64_LIMIT
    ensures s.PageStart() % PAGE_SIZE == 0 && s.PageStart() <= U64_LIMIT - PAGE_SIZE
  {
  }

  /** The span check, in terms of the segments. */
  lemma SpanCheck(segs: seq<Segment>, entry: nat)
    requires segs != [] && forall s :: s in segs ==> s.vaddr < U64_LIMIT
    ensures EntryAccepted(entry, segs) <==>
            (exists s :: s in segs && s.PageStart() <= entry) && exists s :: s in segs && entry < s.End()
  {
    LowestIsLeast(segs, U64_LIMIT - 1);
    HighestIsGreatest(segs, 0);
    PageStartAligned(segs[0]);
    assert segs[0] in segs;
  }

  /** The image has a valid header, and its table lies in the file and lists
      acceptable segments. */
  ghost predicate Accepted(image: Image, free: set<nat>) {
    && HeaderValid(image)
    && var h := ParseHeader(image).value;
       exists segs :: Lists(image, h.phoff, h.phnum, 0, segs) && Acceptable(image, segs, free, h.entry)
  }

  /** Acceptance is exact, in terms of the file's bytes: `Ok` if and only if the header
      is valid, every program header is in the file, and the `PT_LOAD` ones list
      segments that are well formed, disjoint on free pages, and span the entry. */
  lemma AcceptanceIsExact(image: Image, m: Memory)
    ensures LoadResult(image, m).0.Ok? <==> Accepted(image, m.free)
  {
    if HeaderValid(image) {
      var h := ParseHeader(image).value;
      var loaded := Segments(image, h, 0);
      LoadFromAccepts(image, h, 0, Start(m));
      SegmentsAreListed(image, h, 0, loaded);
      GrantableIsDisjoint(loaded, m.free);
      if loaded != [] { SpanCheck(loaded, h.entry); }
      if segs :| Lists(image, h.phoff, h.phnum, 0, segs) && Acceptable(image, segs, m.free, h.entry) {
        SegmentsAreListed(image, h, 0, segs);
      }
    }
  }

  lemma {:induction false} NoClaims(segs: seq<Segment>, page: nat)
    requires Claims(segs, page) == 0
    ensures forall s :: s in segs ==> !s.HasPage(page)
  {
    if segs != [] {
      NoClaims(segs[1..], page);
      assert forall s :: s in segs <==> s == segs[0] || s in segs[1..];
    }
  }

  /** What memory holds after a successful load: every segment's bytes at its own
      address, zeros over the rest of its pages, and nothing else touched. */
  lemma {:induction false} PlaceAllMeaning(image: Image, m: Memory, segs: seq<Segment>, a: nat)
    requires forall s :: s in segs ==> WellFormed(image, s)
    requires Grantable(segs, m.free) && a < |m.ram|
    ensures |PlaceAll(image, m, segs).ram| == |m.ram|
    ensures forall s :: s in segs && s.HasPage(a / PAGE_SIZE) ==>
              PlaceAll(image, m, segs).ram[a] == SegmentByte(image, s, a)
    ensures (forall s :: s in segs ==> !s.HasPage(a / PAGE_SIZE)) ==> PlaceAll(image, m, segs).ram[a] == m.ram[a]
    decreases |segs|
  {
    if segs != [] {
      var m' := Place(image, m, segs[0]);
      GrantedHead(m, segs);
      PlaceAllMeaning(image, m', segs[1..], a);
      assert forall s :: s in segs <==> s == segs[0] || s in segs[1..];
      var page := a / PAGE_SIZE;
      if segs[0].HasPage(page) {
        assert Claims(segs[1..], page) <= One(page in m'.free);
        NoClaims(segs[1..], page);
      }
    }
  }

  /** A successful load, in terms of the segments alone. */
  function Summary(image: Image, m: Memory, segs: seq<Segment>, entry: nat): (Result<LoadedKernel>, Memory)
    requires forall s :: s in segs ==> WellFormed(image, s)
    requires EntryAccepted(entry, segs)
  {
    var lowest, end := Lowest(segs, U64_LIMIT - 1), AlignUp(Highest(segs, 0));
    (Ok(LoadedKernel(entry, lowest, end - lowest)), PlaceAll(image, m, segs))
  }

  lemma ResultIsSummary(image: Image, m: Memory)
    requires LoadResult(image, m).0.Ok?
    ensures var h := ParseHeader(image).value;
            var segs := Segments(image, h, 0);
            && segs != [] && Grantable(segs, m.free) && EntryAccepted(h.entry, segs)
            && LoadResult(image, m) == Summary(image, m, segs, h.entry)
  {
    var h := ParseHeader(image).value;
    LoadFromAccepts(image, h, 0, Start(m));
    LoadFromResult(image, h, 0, Start(m));
    AdvancedFields(image, Start(m), Segments(image, h, 0));
  }

  /** Memory holds segment `s`: the file's bytes from `vaddr` on, and zeros over the
      rest of its pages. */
  ghost predicate SegmentInMemory(image: Image, ram: seq<uint8>, s: Segment) {
    && (s.filesz > 0 ==>
          && s.vaddr + s.filesz <= |ram| && s.offset + s.filesz <= |image|
          && ram[s.vaddr..s.vaddr + s.filesz] == image[s.offset..s.offset + s.filesz])
    && forall a: nat :: a < |ram| && s.HasPage(a / PAGE_SIZE) && !(s.vaddr <= a < s.vaddr + s.filesz) ==> ram[a] == 0
  }

  lemma PageInMemory(m: Memory, s: Segment, a: nat)
    requires MemoryValid(m) && s.Has(a) && forall page: nat :: s.HasPage(page) ==> page in m.free
    ensures a < |m.ram| && s.HasPage(a / PAGE_SIZE)
  {
    PagesOfSegment(s, a / PAGE_SIZE);
    assert a / PAGE_SIZE in m.free;
  }

  /** A segment whose bytes are all in place is in memory. */
  lemma BytesInPlace(image: Image, m: Memory, ram: seq<uint8>, s: Segment)
    requires MemoryValid(m) && |ram| == |m.ram| && WellFormed(image, s)
    requires forall page: nat :: s.HasPage(page) ==> page in m.free
    requires forall a: nat :: a < |ram| && s.HasPage(a / PAGE_SIZE) ==> ram[a] == SegmentByte(image, s, a)
    ensures SegmentInMemory(image, ram, s)
  {
    if s.filesz > 0 {
      PageInMemory(m, s, s.End() - 1);
      var placed, bytes := ram[s.vaddr..s.vaddr + s.filesz], image[s.offset..s.offset + s.filesz];
      forall k | 0 <= k < |bytes| ensures placed[k] == bytes[k] {
        PageInMemory(m, s, s.vaddr + k);
        assert placed[k] == SegmentByte(image, s, s.vaddr + k);
      }
    }
  }

  lemma {:induction false} SomeClaim(segs: seq<Segment>, s: Segment, page: nat)
    requires s in segs && s.HasPage(page)
    ensures Claims(segs, page) > 0
  {
    if segs[0] != s {
      SomeClaim(segs[1..], s, page);
    }
  }

  /** The pages left are the free ones no segment claimed. */
  lemma {:induction false} PlaceAllExtent(image: Image, m: Memory, segs: seq<Segment>)
    requires forall s :: s in segs ==> WellFormed(image, s)
    ensures |PlaceAll(image, m, segs).ram| == |m.ram|
    ensures forall page :: page in PlaceAll(image, m, segs).free <==> page in m.free && Claims(segs, page) == 0
    decreases |segs|
  {
    if segs != [] {
      PlaceAllExtent(image, Place(image, m, segs[0]), segs[1..]);
    }
  }

  /** Memory holds every segment, bytes outside the segments' pages are as they were,
      and those pages and no others are taken. */
  ghost predicate Loaded(image: Image, segs: seq<Segment>, m: Memory, m': Memory) {
    && |m'.ram| == |m.ram|
    && (forall s :: s in segs ==> SegmentInMemory(image, m'.ram, s))
    && (forall a: nat :: a < |m.ram| && (forall s :: s in segs ==> !s.HasPage(a / PAGE_SIZE)) ==>
          m'.ram[a] == m.ram[a])
    && forall page: nat :: page in m'.free <==> page in m.free && forall s :: s in segs ==> !s.HasPage(page)
  }

  /** After a successful load, memory is as the segments the file lists say. */
  lemma LoadMeaning(image: Image, m: Memory)
    requires MemoryValid(m) && LoadResult(image, m).0.Ok?
    ensures Loaded(image, Segments(image, ParseHeader(image).value, 0), m, LoadResult(image, m).1)
    ensures var h := ParseHeader(image).value;
            Lists(image, h.phoff, h.phnum, 0, Segments(image, h, 0))
  {
    var h := ParseHeader(image).value;
    var segs, m' := Segments(image, h, 0), LoadResult(image, m).1;
    ResultIsSummary(image, m);
    LoadFromAccepts(image, h, 0, Start(m));
    SegmentsAreListed(image, h, 0, segs);
    PlaceAllExtent(image, m, segs);
    GrantableIsDisjoint(segs, m.free);
    forall s | s in segs ensures SegmentInMemory(image, m'.ram, s) {
      var k :| 0 <= k < |segs| && segs[k] == s;
      forall a: nat | a < |m.ram| && s.HasPage(a / PAGE_SIZE) ensures m'.ram[a] == SegmentByte(image, s, a) {
        PlaceAllMeaning(image, m, segs, a);
      }
      BytesInPlace(image, m, m'.ram, s);
    }
    forall a: nat | a < |m.ram| && (forall s :: s in segs ==> !s.HasPage(a / PAGE_SIZE))
      ensures m'.ram[a] == m.ram[a]
    {
      PlaceAllMeaning(image, m, segs, a);
    }
    forall page: nat ensures Claims(segs, page) == 0 <==> forall s :: s in segs ==> !s.HasPage(page) {
      ClaimsCount(segs, page);
      if s :| s in segs && s.HasPage(page) { SomeClaim(segs, s, page); }
      if Claims(segs, page) == 0 { NoClaims(segs, page); }
    }
  }

  /** A successful load takes every page of every segment out of the free ones. */
  lemma SegmentPagesAreClaimed(image: Image, m: Memory, s: Segment, page: nat)
    requires LoadResult(image, m).0.Ok? && s in Segments(image, ParseHeader(image).value, 0) && s.HasPage(page)
    ensures page in m.free && page !in LoadResult(image, m).1.free
  {
    var segs := Segments(image, ParseHeader(image).value, 0);
    ResultIsSummary(image, m);
    PlaceAllExtent(image, m, segs);
    assert Claims(segs, page) <= One(page in m.free);
    SomeClaim(segs, s, page);
  }

  lemma PlaceTouchesOnlyClaimed(image: Image, m: Memory, s: Segment, a: nat)
    requires WellFormed(image, s) && Granted(m, s) && a < |m.ram|
    ensures var m' := Place(image, m, s);
            && |m'.ram| == |m.ram| && m'.free <= m.free
            && (m'.ram[a] != m.ram[a] ==> a / PAGE_SIZE in m.free && a / PAGE_SIZE !in m'.free)
  {
  }

  /** Whether or not the load succeeds, a byte changes only in a page it claimed. */
  lemma {:induction false} LoadTouchesOnlyClaimed(image: Image, h: Header, i: nat, p: Progress, a: nat)
    requires a < |p.memory.ram|
    ensures var m := LoadFrom(image, h, i, p).1;
            && |m.ram| == |p.memory.ram| && m.free <= p.memory.free
            && (m.ram[a] != p.memory.ram[a] ==> a / PAGE_SIZE in p.memory.free && a / PAGE_SIZE !in m.free)
    decreases h.phnum - i
  {
    if i < h.phnum {
      match ItemAt(image, h, i)
      case Bad(_) =>
      case Skip => LoadTouchesOnlyClaimed(image, h, i + 1, p, a);
      case Load(s) =>
        if Granted(p.memory, s) {
          PlaceTouchesOnlyClaimed(image, p.memory, s, a);
          LoadTouchesOnlyClaimed(image, h, i + 1, Advance(image, p, s), a);
        }
    }
  }

  // ---------------------------------------------------------------------- errors

  lemma LoadFromStep(image: Image, h: Header, i: nat, p: Progress)
    requires i < h.phnum
    ensures ItemAt(image, h, i).Skip? ==> LoadFrom(image, h, i, p) == LoadFrom(image, h, i + 1, p)
    ensures ItemAt(image, h, i).Load? && Granted(p.memory, ItemAt(image, h, i).segment) ==>
              LoadFrom(image, h, i, p) == LoadFrom(image, h, i + 1, Advance(image, p, ItemAt(image, h, i).segment))
  {
  }

  lemma ListedItem(image: Image, h: Header, i: nat, k: nat, segs: seq<Segment>)
    requires i < k && Lists(image, h.phoff, k, i, segs) && forall s :: s in segs ==> WellFormed(image, s)
    ensures !ItemAt(image, h, i).Bad?
    ensures ItemAt(image, h, i).Skip? ==> Lists(image, h.phoff, k, i + 1, segs)
    ensures ItemAt(image, h, i).Load? ==>
              && segs != [] && ItemAt(image, h, i) == Load(segs[0])
              && Lists(image, h.phoff, k, i + 1, segs[1..])
  {
    ItemFromBytes(image, h, i, if segs == [] then Segment(0, 0, 0, 0) else segs[0]);
    assert segs != [] ==> segs[0] in segs;
  }

  lemma AdvancedStep(image: Image, p: Progress, segs: seq<Segment>)
    requires segs != [] && forall s :: s in segs ==> WellFormed(image, s)
    ensures Advanced(image, p, segs) == Advanced(image, Advance(image, p, segs[0]), segs[1..])
  {
  }

  /** The loop ends at header `k`, with progress `q`: in trouble there, or past the table. */
  ghost predicate StopsAt(image: Image, h: Header, k: nat, q: Progress, outcome: (Result<LoadedKernel>, Memory)) {
    if k >= h.phnum then outcome == (Finish(h, q), q.memory) else
    match ItemAt(image, h, k)
    case Bad(error) => outcome == (Err(error), q.memory)
    case Skip => false
    case Load(s) => !Granted(q.memory, s) && outcome == (Err(AllocationFailed), q.memory)
  }

  lemma StopResult(image: Image, h: Header, k: nat, q: Progress, outcome: (Result<LoadedKernel>, Memory))
    requires StopsAt(image, h, k, q, outcome)
    ensures LoadFrom(image, h, k, q) == outcome
  {
  }

  /** From header `i` on the table lists `segs` up to header `k`; they can be granted,
      and `q` is the progress once they are. */
  ghost predicate OnTrack(image: Image, h: Header, i: nat, k: nat, p: Progress, segs: seq<Segment>, q: Progress) {
    && i <= k <= h.phnum && Lists(image, h.phoff, k, i, segs)
    && (forall s :: s in segs ==> WellFormed(image, s)) && Grantable(segs, p.memory.free)
    && q == Advanced(image, p, segs)
  }

  lemma OnTrackSkip(image: Image, h: Header, i: nat, k: nat, p: Progress, segs: seq<Segment>, q: Progress)
    requires i < k && OnTrack(image, h, i, k, p, segs, q) && ItemAt(image, h, i).Skip?
    ensures OnTrack(image, h, i + 1, k, p, segs, q) && LoadFrom(image, h, i, p) == LoadFrom(image, h, i + 1, p)
  {
    ListedItem(image, h, i, k, segs);
    LoadFromStep(image, h, i, p);
  }

  lemma OnTrackLoad(image: Image, h: Header, i: nat, k: nat, p: Progress, segs: seq<Segment>, q: Progress)
    requires i < k && OnTrack(image, h, i, k, p, segs, q) && !ItemAt(image, h, i).Skip?
    ensures segs != [] && OnTrack(image, h, i + 1, k, Advance(image, p, segs[0]), segs[1..], q)
    ensures LoadFrom(image, h, i, p) == LoadFrom(image, h, i + 1, Advance(image, p, segs[0]))
  {
    ListedItem(image, h, i, k, segs);
    LoadFromStep(image, h, i, p);
    GrantedHead(p.memory, segs);
    AdvancedStep(image, p, segs);
  }

  lemma OnTrackEnd(image: Image, h: Header, k: nat, p: Progress, segs: seq<Segment>, q: Progress,
                   outcome: (Result<LoadedKernel>, Memory))
    requires OnTrack(image, h, k, k, p, segs, q) && StopsAt(image, h, k, q, outcome)
    ensures LoadFrom(image, h, k, p) == outcome
  {
    assert segs == [] && q == p;
    StopResult(image, h, k, q, outcome);
  }

  lemma OnTrackNext(image: Image, h: Header, i: nat, k: nat, p: Progress, segs: seq<Segment>, q: Progress)
      returns (p': Progress, segs': seq<Segment>)
    requires i < k && OnTrack(image, h, i, k, p, segs, q)
    ensures OnTrack(image, h, i + 1, k, p', segs', q) && LoadFrom(image, h, i, p) == LoadFrom(image, h, i + 1, p')
  {
    if ItemAt(image, h, i).Skip? {
      OnTrackSkip(image, h, i, k, p, segs, q);
      p', segs' := p, segs;
    } else {
      OnTrackLoad(image, h, i, k, p, segs, q);
      p', segs' := Advance(image, p, segs[0]), segs[1..];
    }
  }

  /** While headers are good and pages are granted, the loader just goes on. */
  lemma {:induction false} GoodHeadersSkip(image: Image, h: Header, i: nat, k: nat, p: Progress, segs: seq<Segment>,
                                           q: Progress, outcome: (Result<LoadedKernel>, Memory))
    requires OnTrack(image, h, i, k, p, segs, q) && StopsAt(image, h, k, q, outcome)
    ensures LoadFrom(image, h, i, p) == outcome
    decreases k - i
  {
    if i == k {
      OnTrackEnd(image, h, k, p, segs, q, outcome);
    } else {
      var p', segs' := OnTrackNext(image, h, i, k, p, segs, q);
      GoodHeadersSkip(image, h, i + 1, k, p', segs', q, outcome);
    }
  }
 lemma {:induction false} ClaimsSnoc(segs: seq<Segment>, s: Segment, page: nat)
    ensures Claims(segs + [s], page) == Claims(segs, page) + One(s.HasPage(page))
  {
    if segs == [] {
      assert segs + [s] == [s] && [s][1..] == [];
    } else {
      assert (segs + [s])[1..] == segs[1..] + [s];
      ClaimsSnoc(segs[1..], s, page);
    }
  }

  lemma GrantedLast(image: Image, m: Memory, segs: seq<Segment>, s: Segment)
    requires (forall x :: x in segs ==> WellFormed(image, x)) && Grantable(segs, m.free)
    ensures Granted(PlaceAll(image, m, segs), s) <==> Grantable(segs + [s], m.free)
  {
    var left := PlaceAll(image, m, segs);
    PlaceAllExtent(image, m, segs);
    forall page: nat
      ensures Claims(segs + [s], page) <= One(page in m.free) <==> (s.HasPage(page) ==> page in left.free)
    {
      ClaimsSnoc(segs, s, page);
      assert Claims(segs, page) <= One(page in m.free);
    }
    if Granted(left, s) {
      forall page: nat ensures Claims(segs + [s], page) <= One(page in m.free) {
        assert s.HasPage(page) ==> page in Interval(s.FirstPage(), s.PageCount());
      }
    } else {
      var page: nat :| page in Interval(s.FirstPage(), s.PageCount()) && page !in left.free;
      assert s.HasPage(page);
    }
  }

  /** The error reported is that of the first program header in trouble, or else of
      the checks at the end; the segments before it are in place by then. */
  lemma LoadErrors(image: Image, m: Memory, h: Header, k: nat, segs: seq<Segment>)
    requires ParseHeader(image) == Ok(h) && k <= h.phnum && Lists(image, h.phoff, k, 0, segs)
    requires (forall s :: s in segs ==> WellFormed(image, s)) && Grantable(segs, m.free)
    ensures var m' := PlaceAll(image, m, segs);
            && (k < h.phnum && ItemAt(image, h, k).Bad? ==>
                  LoadResult(image, m) == (Err(ItemAt(image, h, k).error), m'))
            && (k < h.phnum && ItemAt(image, h, k).Load? && !Grantable(segs + [ItemAt(image, h, k).segment], m.free) ==>
                  LoadResult(image, m) == (Err(AllocationFailed), m'))
            && (k == h.phnum && segs == [] ==> LoadResult(image, m) == (Err(NoLoadableSegments), m'))
            && (k == h.phnum && segs != [] && !EntryAccepted(h.entry, segs) ==>
                  LoadResult(image, m) == (Err(EntryOutOfRange), m'))
  {
    var q := Advanced(image, Start(m), segs);
    AdvancedFields(image, Start(m), segs);
    if k == h.phnum {
      GoodHeadersSkip(image, h, 0, k, Start(m), segs, q, (Finish(h, q), q.memory));
    } else if ItemAt(image, h, k).Bad? {
      GoodHeadersSkip(image, h, 0, k, Start(m), segs, q, (Err(ItemAt(image, h, k).error), q.memory));
    } else if ItemAt(image, h, k).Load? {
      GrantedLast(image, m, segs, ItemAt(image, h, k).segment);
      if !Granted(q.memory, ItemAt(image, h, k).segment) {
        GoodHeadersSkip(image, h, 0, k, Start(m), segs, q, (Err(AllocationFailed), q.memory));
      }
    }
  }
 // ----------------------------------------------------------------- permutation

  lemma {:induction false} ClaimsRemove(segs: seq<Segment>, k: nat, page: nat)
    requires k < |segs|
    ensures Claims(segs, page) == One(segs[k].HasPage(page)) + Claims(segs[..k] + segs[k + 1..], page)
  {
    var rest := segs[..k] + segs[k + 1..];
    if k == 0 {
      assert rest == segs[1..];
    } else {
      ClaimsRemove(segs[1..], k - 1, page);
      assert rest[1..] == segs[1..][..k - 1] + segs[1..][k..];
    }
  }

  lemma RemoveBoth(a: seq<Segment>, b: seq<Segment>, k: nat)
    requires a != [] && k < |b| && a[0] == b[k] && multiset(a) == multiset(b)
    ensures multiset(a[1..]) == multiset(b[..k] + b[k + 1..])
  {
    assert a == [a[0]] + a[1..] && b == b[..k] + [b[k]] + b[k + 1..];
    assert multiset(a) == multiset{a[0]} + multiset(a[1..]);
    assert multiset(b) == multiset(b[..k]) + multiset{b[k]} + multiset(b[k + 1..]);
    assert multiset(b[..k] + b[k + 1..]) == multiset(b[..k]) + multiset(b[k + 1..]);
    assert multiset(a[1..]) == multiset(a) - multiset{a[0]};
  }

  lemma {:induction false} ClaimsPermuted(a: seq<Segment>, b: seq<Segment>, page: nat)
    requires multiset(a) == multiset(b)
    ensures Claims(a, page) == Claims(b, page)
    decreases |a|
  {
    if a == [] {
      assert |multiset(b)| == 0;
    } else {
      assert a[0] in multiset(b);
      var k :| 0 <= k < |b| && b[k] == a[0];
      RemoveBoth(a, b, k);
      ClaimsRemove(b, k, page);
      ClaimsPermuted(a[1..], b[..k] + b[k + 1..], page);
    }
  }

  /** Both images put the same byte at the same place of every segment. */
  ghost predicate SameContents(image: Image, image': Image, segs: seq<Segment>) {
    forall s :: s in segs ==>
      s.offset + s.filesz <= |image| && s.offset + s.filesz <= |image'|
      && image[s.offset..s.offset + s.filesz] == image'[s.offset..s.offset + s.filesz]
  }

  /** The two images list the same segments, in any order, and agree on their bytes. */
  ghost predicate Reordered(image: Image, image': Image) {
    && HeaderValid(image) && HeaderValid(image')
    && var h, h' := ParseHeader(image).value, ParseHeader(image').value;
       && h.entry == h'.entry && AllGood(image, h, 0) && AllGood(image', h', 0)
       && multiset(Segments(image, h, 0)) == multiset(Segments(image', h', 0))
       && SameContents(image, image', Segments(image, h, 0))
  }

  lemma SameGrants(a: seq<Segment>, b: seq<Segment>, free: set<nat>)
    requires multiset(a) == multiset(b)
    ensures Grantable(a, free) <==> Grantable(b, free)
  {
    forall page: nat ensures Claims(a, page) == Claims(b, page) {
      ClaimsPermuted(a, b, page);
    }
  }

  lemma SameMembers(a: seq<Segment>, b: seq<Segment>)
    requires multiset(a) == multiset(b)
    ensures forall s :: s in a <==> s in b
  {
    assert forall s :: s in a <==> s in multiset(a);
    assert forall s :: s in b <==> s in multiset(b);
  }

  lemma SameExtent(a: seq<Segment>, b: seq<Segment>)
    requires multiset(a) == multiset(b)
    ensures Lowest(a, U64_LIMIT - 1) == Lowest(b, U64_LIMIT - 1) && Highest(a, 0) == Highest(b, 0)
    ensures a == [] <==> b == []
  {
    SameMembers(a, b);
    LowestIsLeast(a, U64_LIMIT - 1);
    LowestIsLeast(b, U64_LIMIT - 1);
    HighestIsGreatest(a, 0);
    HighestIsGreatest(b, 0);
    assert |multiset(a)| == |multiset(b)|;
  }

  lemma OrderKeepsAcceptance(image: Image, image': Image, m: Memory)
    requires Reordered(image, image')
    ensures LoadResult(image, m).0.Ok? <==> LoadResult(image', m).0.Ok?
  {
    var h, h' := ParseHeader(image).value, ParseHeader(image').value;
    LoadFromAccepts(image, h, 0, Start(m));
    LoadFromAccepts(image', h', 0, Start(m));
    SameExtent(Segments(image, h, 0), Segments(image', h', 0));
    SameGrants(Segments(image, h, 0), Segments(image', h', 0), m.free);
  }

  lemma SameByte(image: Image, image': Image, s: Segment, x: nat)
    requires WellFormed(image, s) && WellFormed(image', s)
    requires image[s.offset..s.offset + s.filesz] == image'[s.offset..s.offset + s.filesz]
    ensures SegmentByte(image, s, x) == SegmentByte(image', s, x)
  {
    if s.vaddr <= x < s.vaddr + s.filesz {
      assert image[s.offset..s.offset + s.filesz][x - s.vaddr] == image'[s.offset..s.offset + s.filesz][x - s.vaddr];
    }
  }

  lemma SamePlacement(image: Image, image': Image, m: Memory, a: seq<Segment>, b: seq<Segment>)
    requires forall s :: s in a ==> WellFormed(image, s)
    requires forall s :: s in b ==> WellFormed(image', s)
    requires multiset(a) == multiset(b) && SameContents(image, image', a)
    requires Grantable(a, m.free) && Grantable(b, m.free)
    ensures PlaceAll(image, m, a) == PlaceAll(image', m, b)
  {
    var p, p' := PlaceAll(image, m, a), PlaceAll(image', m, b);
    SameMembers(a, b);
    PlaceAllExtent(image, m, a);
    PlaceAllExtent(image', m, b);
    forall x | 0 <= x < |m.ram| ensures p.ram[x] == p'.ram[x] {
      PlaceAllMeaning(image, m, a, x);
      PlaceAllMeaning(image', m, b, x);
      if s :| s in a && s.HasPage(x / PAGE_SIZE) {
        SameByte(image, image', s, x);
      }
    }
    forall page: nat ensures Claims(a, page) == Claims(b, page) {
      ClaimsPermuted(a, b, page);
    }
  }

  lemma SameSummary(image: Image, image': Image, m: Memory, a: seq<Segment>, b: seq<Segment>, entry: nat)
    requires forall s :: s in a ==> WellFormed(image, s)
    requires forall s :: s in b ==> WellFormed(image', s)
    requires multiset(a) == multiset(b) && SameContents(image, image', a)
    requires Grantable(a, m.free) && Grantable(b, m.free)
    requires EntryAccepted(entry, a) && EntryAccepted(entry, b)
    ensures Summary(image, m, a, entry) == Summary(image', m, b, entry)
  {
    SameExtent(a, b);
    SamePlacement(image, image', m, a, b);
  }

  lemma OrderKeepsResult(image: Image, image': Image, m: Memory)
    requires Reordered(image, image') && LoadResult(image, m).0.Ok? && LoadResult(image', m).0.Ok?
    ensures LoadResult(image, m) == LoadResult(image', m)
  {
    ResultIsSummary(image, m);
    ResultIsSummary(image', m);
    var h, h' := ParseHeader(image).value, ParseHeader(image').value;
    SameSummary(image, image', m, Segments(image, h, 0), Segments(image', h', 0), h.entry);
  }

  /** Reordering the program headers changes neither acceptance, nor the kernel
      reported, nor one byte of memory. */
  lemma OrderIrrelevant(image: Image, image': Image, m: Memory)
    requires Reordered(image, image')
    ensures LoadResult(image, m).0.Ok? <==> LoadResult(image', m).0.Ok?
    ensures LoadResult(image, m).0.Ok? ==> LoadResult(image, m) == LoadResult(image', m)
  {
    OrderKeepsAcceptance(image, image', m);
    if LoadResult(image, m).0.Ok? {
      OrderKeepsResult(image, image', m);
    }
  }

  // ------------------------------------------------------------ extent and entry

  /** Rounding up cannot overflow: a granted segment ends inside memory, and an
      empty one that claims nothing is page aligned. */
  lemma SegmentEndFits(image: Image, m: Memory, s: Segment)
    requires MemoryValid(m) && |m.ram| <= U64_LIMIT - PAGE_SIZE
    requires WellFormed(image, s) && Granted(m, s)
    ensures s.End() <= U64_LIMIT - PAGE_SIZE && AlignUp(s.End()) < U64_LIMIT
  {
    if s.Span() > 0 {
      var last := s.FirstPage() + s.PageCount() - 1;
      assert last in Interval(s.FirstPage(), s.PageCount());
      assert s.End() <= (last + 1) * PAGE_SIZE;
    }
  }

  lemma {:induction false} HighestFits(image: Image, m: Memory, segs: seq<Segment>, from: nat)
    requires MemoryValid(m) && |m.ram| <= U64_LIMIT - PAGE_SIZE && Grantable(segs, m.free)
    requires forall s :: s in segs ==> WellFormed(image, s)
    requires from <= U64_LIMIT - PAGE_SIZE
    ensures Highest(segs, from) <= U64_LIMIT - PAGE_SIZE
    decreases |segs|
  {
    if segs != [] {
      GrantedHead(m, segs);
      SegmentEndFits(image, m, segs[0]);
      HighestFits(image, Place(image, m, segs[0]), segs[1..], Max(from, segs[0].End()));
    }
  }

  lemma AlignedDifference(end: nat, base: nat)
    requires end % PAGE_SIZE == 0 && base % PAGE_SIZE == 0 && base <= end
    ensures (end - base) % PAGE_SIZE == 0
  {
  }

  lemma LowestAligned(segs: seq<Segment>)
    requires segs != [] && forall s :: s in segs ==> s.vaddr < U64_LIMIT
    ensures Lowest(segs, U64_LIMIT - 1) % PAGE_SIZE == 0
    ensures forall s :: s in segs ==> Lowest(segs, U64_LIMIT - 1) <= s.PageStart()
  {
    LowestIsLeast(segs, U64_LIMIT - 1);
    forall s | s in segs ensures s.PageStart() % PAGE_SIZE == 0 && s.PageStart() < U64_LIMIT - 1 {
      PageStartAligned(s);
    }
    assert segs[0] in segs;
  }

  lemma AlignUpBounds(v: nat)
    ensures v <= AlignUp(v) < v + PAGE_SIZE && AlignUp(v) % PAGE_SIZE == 0
  {
  }

  /** Aligned, inside the address space, holding the entry and every segment, and no
      larger than whole pages make it. */
  ghost predicate Spans(k: LoadedKernel, segs: seq<Segment>) {
    && k.base % PAGE_SIZE == 0 && k.size % PAGE_SIZE == 0 && k.base + k.size < U64_LIMIT
    && k.base <= k.entry < k.base + k.size
    && (forall s :: s in segs ==> k.base <= s.PageStart() && s.End() <= k.base + k.size)
    && (exists s :: s in segs && s.PageStart() == k.base)
    && exists s :: s in segs && k.base + k.size < s.End() + PAGE_SIZE
  }

  lemma SpanOf(image: Image, m: Memory, segs: seq<Segment>, entry: nat)
    requires MemoryValid(m) && |m.ram| <= U64_LIMIT - PAGE_SIZE && Grantable(segs, m.free) && segs != []
    requires (forall s :: s in segs ==> WellFormed(image, s)) && EntryAccepted(entry, segs)
    ensures Summary(image, m, segs, entry).0.Ok? && Summary(image, m, segs, entry).0.value.entry == entry
    ensures Spans(Summary(image, m, segs, entry).0.value, segs)
  {
    HighestFits(image, m, segs, 0);
    LowestAligned(segs);
    LowestIsLeast(segs, U64_LIMIT - 1);
    HighestIsGreatest(segs, 0);
    AlignUpBounds(Highest(segs, 0));
    AlignedDifference(AlignUp(Highest(segs, 0)), Lowest(segs, U64_LIMIT - 1));
  }

  /** The span reported is page aligned, fits 64 bits and holds every segment. */
  lemma KernelSpan(image: Image, m: Memory)
    requires MemoryValid(m) && |m.ram| <= U64_LIMIT - PAGE_SIZE && LoadResult(image, m).0.Ok?
    ensures var k, h := LoadResult(image, m).0.value, ParseHeader(image).value;
            k.entry == h.entry && Spans(k, Segments(image, h, 0))
  {
    ResultIsSummary(image, m);
    var h := ParseHeader(image).value;
    SpanOf(image, m, Segments(image, h, 0), h.entry);
  }

  ghost predicate EntryInside(entry: nat, segs: seq<Segment>) {
    exists s :: s in segs && s.Has(entry)
  }

  /** No hole: some segment begins exactly at the span's start, and every segment
      end short of the span's end lies inside another segment. */
  ghost predicate NoHole(segs: seq<Segment>) {
    && EntryInside(Lowest(segs, U64_LIMIT - 1), segs)
    && forall s :: s in segs && Lowest(segs, U64_LIMIT - 1) <= s.End() < Highest(segs, 0) ==> EntryInside(s.End(), segs)
  }

  /** Walking from covered address to covered address reaches the entry. */
  lemma {:induction false} ReachEntry(segs: seq<Segment>, x: nat, entry: nat)
    requires NoHole(segs) && EntryInside(x, segs) && EntryAccepted(entry, segs)
    requires Lowest(segs, U64_LIMIT - 1) <= x <= entry
    ensures EntryInside(entry, segs)
    decreases entry - x
  {
    var s :| s in segs && s.Has(x);
    if !s.Has(entry) {
      ReachEntry(segs, s.End(), entry);
    }
  }

  /** The span check means "inside a loaded segment" for every entry if and only if
      the segments leave no hole. */
  lemma EntryCheckExact(segs: seq<Segment>)
    requires Lowest(segs, U64_LIMIT - 1) < Highest(segs, 0)
    ensures (forall entry: nat :: EntryAccepted(entry, segs) ==> EntryInside(entry, segs)) <==> NoHole(segs)
  {
    if forall entry: nat :: EntryAccepted(entry, segs) ==> EntryInside(entry, segs) {
      assert EntryAccepted(Lowest(segs, U64_LIMIT - 1), segs);
      forall s | s in segs && Lowest(segs, U64_LIMIT - 1) <= s.End() < Highest(segs, 0)
        ensures EntryInside(s.End(), segs)
      {
        assert EntryAccepted(s.End(), segs);
      }
    }
    if NoHole(segs) {
      forall entry: nat | EntryAccepted(entry, segs) ensures EntryInside(entry, segs) {
        ReachEntry(segs, Lowest(segs, U64_LIMIT - 1), entry);
      }
    }
  }

  /** An assembled image is accepted exactly when its pages can be granted and its
      entry lies in the overall span. */
  lemma AssembledAccepted(entry: nat, segs: seq<Segment>, length: nat, m: Memory)
    requires Encodable(segs, length) && entry < U64_LIMIT && segs != []
    ensures LoadResult(Assemble(entry, segs, length), m).0.Ok? <==>
            Grantable(segs, m.free) && EntryAccepted(entry, segs)
  {
    AssembledReadsBack(entry, segs, length);
    LoadFromAccepts(Assemble(entry, segs, length), Header(entry, EHDR_SIZE, |segs|), 0, Start(m));
  }

  /** The image loads, has these segments, and starts outside all of them. */
  ghost predicate LoadsOutside(image: Image, m: Memory, segs: seq<Segment>) {
    && LoadResult(image, m).0.Ok? && ParseHeader(image).Ok?
    && Segments(image, ParseHeader(image).value, 0) == segs
    && !EntryInside(ParseHeader(image).value.entry, segs)
  }

  /** For any segments a file can hold and firmware can grant: some image with these
      segments is accepted although its entry is inside none of them, if and only if
      the segments leave a hole. */
  lemma SomeImageStartsOutside(segs: seq<Segment>, length: nat, m: Memory)
    requires Encodable(segs, length) && Grantable(segs, m.free)
    requires Lowest(segs, U64_LIMIT - 1) < Highest(segs, 0)
    ensures (exists image: Image :: LoadsOutside(image, m, segs)) <==> !NoHole(segs)
  {
    EntryCheckExact(segs);
    if !NoHole(segs) {
      var entry: nat :| EntryAccepted(entry, segs) && !EntryInside(entry, segs);
      HighestIsGreatest(segs, 0);
      AssembledReadsBack(entry, segs, length);
      AssembledAccepted(entry, segs, length, m);
      assert LoadsOutside(Assemble(entry, segs, length), m, segs);
    }
    if image: Image :| LoadsOutside(image, m, segs) {
      ResultIsSummary(image, m);
    }
  }

  const GAP_SEGMENTS: seq<Segment> := [Segment(0, 0x1000, 0, 0x1000), Segment(0, 0x5000, 0, 0x1000)]

  lemma GapSegments(free: set<nat>)
    requires 1 in free && 5 in free
    ensures Encodable(GAP_SEGMENTS, 176) && Grantable(GAP_SEGMENTS, free)
    ensures EntryAccepted(0x3000, GAP_SEGMENTS) && !EntryInside(0x3000, GAP_SEGMENTS)
  {
    var segs := GAP_SEGMENTS;
    var a, b := segs[0], segs[1];
    assert segs == [a, b] && segs[1..] == [b] && [b][1..] == [];
    forall page: nat ensures Claims(segs, page) <= One(page in free) {
      assert Claims([b], page) == One(b.HasPage(page)) + Claims([], page);
      assert Claims(segs, page) == One(page == 1) + One(page == 5);
    }
    assert Lowest(segs, U64_LIMIT - 1) == Lowest([b], 0x1000) == 0x1000;
    assert Highest(segs, 0) == Highest([b], 0x2000) == 0x6000;
  }

  /** The check is against the overall span: wherever firmware can grant pages 1 and
      5, an image of two one-page segments and an entry between them is loaded. */
  lemma GapEntryAccepted(m: Memory)
    requires 1 in m.free && 5 in m.free
    ensures Encodable(GAP_SEGMENTS, 176)
    ensures ParseHeader(Assemble(0x3000, GAP_SEGMENTS, 176)) == Ok(Header(0x3000, EHDR_SIZE, 2))
    ensures LoadsOutside(Assemble(0x3000, GAP_SEGMENTS, 176), m, GAP_SEGMENTS)
  {
    GapSegments(m.free);
    AssembledReadsBack(0x3000, GAP_SEGMENTS, 176);
    AssembledAccepted(0x3000, GAP_SEGMENTS, 176, m);
  }

  lemma SegmentEndBound(image: Image, m: Memory, s: Segment)
    requires MemoryValid(m) && |m.ram| <= U64_LIMIT - PAGE_SIZE && WellFormed(image, s)
    ensures Granted(m, s) ==> s.End() <= U64_LIMIT - PAGE_SIZE
    ensures s.Span() < U64_LIMIT
  {
    if Granted(m, s) { SegmentEndFits(image, m, s); }
  }

  class Firmware {
    const ram: array<uint8>
    /** Pages `allocate_pages` would still grant. */
    var free: set<nat>

    ghost function Contents(): Memory
      reads this, ram
    {
      Memory(ram[..], free)
    }

    ghost predicate Valid()
      reads this, ram
    {
      MemoryValid(Contents()) && ram.Length <= U64_LIMIT - PAGE_SIZE
    }

    constructor (ram: array<uint8>, free: set<nat>)
      ensures this.ram == ram && this.free == free
    {
      this.ram, this.free := ram, free;
    }

    /** `AllocatePages` with `AllocateAddress`: these pages, or nothing. */
    method AllocatePages(pageStart: uint64, pages: nat) returns (granted: bool)
      requires pageStart % PAGE_SIZE == 0 && pages > 0
      modifies this
      ensures granted <==> Interval(pageStart / PAGE_SIZE, pages) <= old(free)
      ensures free == if granted then old(free) - Interval(pageStart / PAGE_SIZE, pages) else old(free)
    {
      granted := Interval(pageStart / PAGE_SIZE, pages) <= free;
      if granted {
        free := free - Interval(pageStart / PAGE_SIZE, pages);
      }
    }

    /** Zero the pages claimed for `s`, then copy its file bytes in. */
    method CopyIn(image: Image, s: Segment, pageStart: uint64, pages: nat)
      requires WellFormed(image, s) && pageStart == s.PageStart() && pages == s.PageCount()
      requires pageStart + pages * PAGE_SIZE <= ram.Length
      modifies ram
      ensures forall a :: 0 <= a < ram.Length ==>
                ram[a] == if s.HasPage(a / PAGE_SIZE) then SegmentByte(image, s, a) else old(ram[a])
    {
      assert pageStart <= s.vaddr && s.End() <= pageStart + pages * PAGE_SIZE;
      forall a | pageStart <= a < pageStart + pages * PAGE_SIZE {
        ram[a] := 0;
      }
      forall k | 0 <= k < s.filesz {
        ram[s.vaddr + k] := image[s.offset + k];
      }
      forall a | 0 <= a < ram.Length
        ensures ram[a] == if s.HasPage(a / PAGE_SIZE) then SegmentByte(image, s, a) else old(ram[a])
      {
        assert pageStart <= a < pageStart + pages * PAGE_SIZE <==> s.HasPage(a / PAGE_SIZE);
      }
    }

    /** `load_segment`. Its callers have checked the file range. */
    method LoadSegment(image: Image, s: Segment) returns (r: Result<()>)
      requires Valid() && s.filesz <= s.memsz && s.offset + s.filesz <= |image|
      requires s.vaddr < U64_LIMIT && s.memsz < U64_LIMIT
      modifies this, ram
      ensures Valid()
      ensures s.Span() >= U64_LIMIT ==> r == Err(SegmentOutOfBounds) && Contents() == old(Contents())
      ensures s.Span() < U64_LIMIT && s.vaddr + s.memsz < U64_LIMIT ==>
                if Granted(old(Contents()), s) then r == Ok(()) && Contents() == Place(image, old(Contents()), s)
                else r == Err(AllocationFailed) && Contents() == old(Contents())
      ensures s.Span() < U64_LIMIT && s.vaddr + s.memsz >= U64_LIMIT ==>
                r == Err(AllocationFailed) && Contents() == old(Contents())
      ensures r.Ok? ==> SegmentInMemory(image, ram[..], s)
      ensures r.Ok? ==> forall a: nat :: a < ram.Length && !s.HasPage(a / PAGE_SIZE) ==> ram[a] == old(ram[a])
    {
      var pageStart: uint64 := s.vaddr - s.vaddr % PAGE_SIZE;
      var padding: uint64 := s.vaddr - pageStart;
      var total := CheckedAdd(padding, s.memsz);
      if total.None? {
        return Err(SegmentOutOfBounds);
      }
      ghost var m := Contents();
      if total.value == 0 {
        BytesInPlace(image, m, ram[..], s);
        assert ram[..] == Place(image, Contents(), s).ram;
        return Ok(());
      }
      var pages := (total.value + PAGE_SIZE - 1) / PAGE_SIZE;
      var granted := AllocatePages(pageStart, pages);
      if !granted {
        return Err(AllocationFailed);
      }
      assert s.FirstPage() + pages - 1 in Interval(s.FirstPage(), pages);
      CopyIn(image, s, pageStart, pages);
      assert ram[..] == Place(image, m, s).ram;
      BytesInPlace(image, m, ram[..], s);
      return Ok(());
    }

    /** The body of `load_kernel` after the header has been read. */
    method LoadSegments(image: Image, h: Header) returns (r: Result<LoadedKernel>)
      requires Valid()
      modifies this, ram
      ensures Valid()
      ensures (r, Contents()) == LoadFrom(image, h, 0, Start(old(Contents())))
    {
      var lowest: uint64, highest: uint64, loadedAny := U64_LIMIT - 1, 0, false;
      ghost var outcome := LoadFrom(image, h, 0, Start(Contents()));
      for index := 0 to h.phnum
        invariant Valid() && highest <= U64_LIMIT - PAGE_SIZE
        invariant outcome == LoadFrom(image, h, index, Progress(lowest, highest, loadedAny, Contents()))
      {
        var item := ItemAt(image, h, index);
        if item.Bad? {
          return Err(item.error);
        }
        if item.Skip? {
          continue;
        }
        var s := item.segment;
        SegmentEndBound(image, Contents(), s);
        var r := LoadSegment(image, s);
        if r.Err? {
          return Err(r.error);
        }
        loadedAny := true;
        lowest := Min(lowest, s.PageStart());
        highest := Max(highest, s.End());
      }
      if !loadedAny {
        return Err(NoLoadableSegments);
      }
      if h.entry < lowest || h.entry >= highest {
        return Err(EntryOutOfRange);
      }
      // align_up
      var padded: uint64 := highest + (PAGE_SIZE - 1);
      AlignUpBounds(highest);
      return Ok(LoadedKernel(h.entry, lowest, (padded - padded % PAGE_SIZE) - lowest));
    }

    /** `load_kernel`. */
    method LoadKernel(image: Image) returns (r: Result<LoadedKernel>)
      requires Valid()
      modifies this, ram
      ensures Valid()
      ensures (r, Contents()) == LoadResult(image, old(Contents()))
      ensures r.Ok? <==> Accepted(image, old(free))
      ensures r.Ok? ==>
                var h := ParseHeader(image).value;
                && Lists(image, h.phoff, h.phnum, 0, Segments(image, h, 0))
                && Loaded(image, Segments(image, h, 0), old(Contents()), Contents())
    {
      AcceptanceIsExact(image, Contents());
      if LoadResult(image, Contents()).0.Ok? { LoadMeaning(image, Contents()); }
      var header := ParseHeader(image);
      match header
      case Err(error) => return Err(error);
      case Ok(h) => r := LoadSegments(image, h);
    }
  }
}
