/** Reading a kernel image: checked little-endian fields, the ELF header and the
    program headers, following the ELF-64 layout. */
module ElfImage {
  import opened Machine

  datatype ElfError =
    | TooSmall | BadMagic | Not64Bit | NotLittleEndian | NotExecutable | WrongArchitecture
    | BadProgramHeaders | SegmentOutOfBounds | SegmentTooLarge | NoLoadableSegments
    | AllocationFailed | EntryOutOfRange

  datatype Result<+T> = Ok(value: T) | Err(error: ElfError)

  const EHDR_SIZE: nat := 64
  const PHDR_SIZE: nat := 56
  const PT_LOAD: nat := 1

  /** The number a little-endian byte string denotes. */
  function Value(bytes: seq<uint8>): nat {
    if bytes == [] then 0 else bytes[0] + 0x100 * Value(bytes[1..])
  }

  /** The `n`-byte little-endian encoding of `v`. */
  function Bytes(v: nat, n: nat): (bytes: seq<uint8>)
    ensures |bytes| == n
  {
    if n == 0 then [] else [v % 0x100] + Bytes(v / 0x100, n - 1)
  }

  function Power(n: nat): nat { if n == 0 then 1 else 0x100 * Power(n - 1) }

  /** A field reads back as the number it encodes, and only as that number. */
  lemma {:induction false} ValueOfBytes(v: nat, n: nat)
    requires v < Power(n)
    ensures Value(Bytes(v, n)) == v
  {
    if n > 0 {
      assert Bytes(v, n)[1..] == Bytes(v / 0x100, n - 1);
      ValueOfBytes(v / 0x100, n - 1);
    }
  }

  lemma DivDiv(v: nat, m: nat)
    requires m > 0
    ensures v / 0x100 / m == v / (0x100 * m)
  {
    var q := v / 0x100 / m;
    var rest := v - q * (0x100 * m);
    assert v / 0x100 == q * m + v / 0x100 % m;
    assert v == 0x100 * (v / 0x100) + v % 0x100;
    assert 0x100 * (q * m) == q * (0x100 * m);
    assert rest == 0x100 * (v / 0x100 % m) + v % 0x100;
    DivModUnique(v, q, rest, 0x100 * m);
  }

  /** Byte `k` of an encoding is digit `k` of the number to base 256, lowest first. */
  lemma {:induction false} BytesAreDigits(v: nat, n: nat, k: nat)
    requires k < n
    ensures Power(k) > 0 && Bytes(v, n)[k] == v / Power(k) % 0x100
    decreases k
  {
    if k > 0 {
      BytesAreDigits(v / 0x100, n - 1, k - 1);
      DivDiv(v, Power(k - 1));
    }
  }

  lemma {:induction false} BytesOfValue(bytes: seq<uint8>)
    ensures Value(bytes) < Power(|bytes|) && Bytes(Value(bytes), |bytes|) == bytes
  {
    if bytes != [] {
      BytesOfValue(bytes[1..]);
      var low: int, rest := bytes[0], Value(bytes[1..]);
      assert (low + 0x100 * rest) % 0x100 == low && (low + 0x100 * rest) / 0x100 == rest;
      assert bytes == [bytes[0]] + bytes[1..];
    }
  }

  /** A byte slice: Rust bounds its length by `isize::MAX`. */
  type Image = s: seq<uint8> | |s| < I64_LIMIT witness []

  /** `read_u16`, `read_u32` and `read_u64`: the field, or nothing past the end. */
  function Read(image: Image, offset: nat, n: nat): (r: Option<nat>)
    ensures r.Some? <==> offset + n <= |image|
    ensures r.Some? ==> image[offset..offset + n] == Bytes(r.value, n) && r.value < Power(n)
  {
    if offset + n >= U64_LIMIT || offset + n > |image| then None else
    BytesOfValue(image[offset..offset + n]);
    Some(Value(image[offset..offset + n]))
  }

  /** A field that is known to be present. */
  function Field(image: Image, offset: nat, n: nat): nat
    requires offset + n <= |image|
  {
    Read(image, offset, n).value
  }

  datatype Header = Header(entry: nat, phoff: nat, phnum: nat)

  /** The header fields the loader requires, as bytes of the file. */
  predicate HeaderValid(image: Image) {
    && |image| >= EHDR_SIZE
    && image[0..4] == [0x7f, 0x45, 0x4c, 0x46]
    && image[4] == 2 && image[5] == 1
    && image[16..18] == [2, 0] && image[18..20] == [0x3e, 0] && image[54..56] == [56, 0]
  }

  lemma TwoBytes(v: nat)
    requires v < 0x100
    ensures Bytes(v, 2) == [v, 0] && Value([v, 0]) == v
  {
    assert Bytes(v / 0x100, 1) == [0] + Bytes(0, 0);
    assert [v, 0][1..] == [0] && [0][1..] == [];
    assert Value([0]) == 0;
  }

  /** `parse_header`, check by check. */
  function ParseHeader(image: Image): (r: Result<Header>)
    ensures r.Ok? <==> HeaderValid(image)
    ensures r.Ok? ==> image[24..32] == Bytes(r.value.entry, 8) && image[32..40] == Bytes(r.value.phoff, 8)
                      && image[56..58] == Bytes(r.value.phnum, 2)
  {
    TwoBytes(2);
    TwoBytes(0x3e);
    TwoBytes(56);
    if |image| < EHDR_SIZE then Err(TooSmall)
    else if image[0..4] != [0x7f, 0x45, 0x4c, 0x46] then Err(BadMagic)
    else if image[4] != 2 then Err(Not64Bit)
    else if image[5] != 1 then Err(NotLittleEndian)
    else if Field(image, 16, 2) != 2 then Err(NotExecutable)
    else if Field(image, 18, 2) != 0x3e then Err(WrongArchitecture)
    else if Field(image, 54, 2) != PHDR_SIZE then Err(BadProgramHeaders)
    else Ok(Header(Field(image, 24, 8), Field(image, 32, 8), Field(image, 56, 2)))
  }

  /** The error a bad header gets: that of the first check it fails. */
  lemma HeaderErrors(image: Image)
    ensures var r := ParseHeader(image);
            && (r == Err(TooSmall) <==> |image| < EHDR_SIZE)
            && (|image| >= EHDR_SIZE ==>
                 && (r == Err(BadMagic) <==> image[0..4] != [0x7f, 0x45, 0x4c, 0x46])
                 && (image[0..4] == [0x7f, 0x45, 0x4c, 0x46] ==>
                      && (r == Err(Not64Bit) <==> image[4] != 2)
                      && (r == Err(NotLittleEndian) <==> image[4] == 2 && image[5] != 1)
                      && (image[4] == 2 && image[5] == 1 ==>
                           && (r == Err(NotExecutable) <==> image[16..18] != [2, 0])
                           && (r == Err(WrongArchitecture) <==> image[16..18] == [2, 0] && image[18..20] != [0x3e, 0])
                           && (r == Err(BadProgramHeaders) <==>
                                 image[16..18] == [2, 0] && image[18..20] == [0x3e, 0] && image[54..56] != [56, 0]))))
  {
    TwoBytes(2);
    TwoBytes(0x3e);
    TwoBytes(56);
  }

  // ------------------------------------------------------------ program headers

  datatype Segment = Segment(offset: nat, vaddr: nat, filesz: nat, memsz: nat) {
    function PageStart(): nat { vaddr - vaddr % PAGE_SIZE }

    /** Bytes from the start of the first page to the end of the segment. */
    function Span(): nat { vaddr % PAGE_SIZE + memsz }

    /** `total.div_ceil(PAGE_SIZE)` */
    function PageCount(): nat { (Span() + PAGE_SIZE - 1) / PAGE_SIZE }

    function FirstPage(): nat { vaddr / PAGE_SIZE }

    predicate HasPage(p: nat) { FirstPage() <= p < FirstPage() + PageCount() }

    function End(): nat { vaddr + memsz }

    predicate Has(a: nat) { vaddr <= a < End() }
  }

  /** A segment claims the pages that overlap `[vaddr, End())`, and the page of its
      start if it is empty and starts inside one. */
  lemma PagesOfSegment(s: Segment, p: nat)
    ensures s.HasPage(p) <==> p * PAGE_SIZE < s.End() && s.vaddr < (p + 1) * PAGE_SIZE
    ensures s.PageStart() % PAGE_SIZE == 0 && s.PageStart() <= s.vaddr < s.PageStart() + PAGE_SIZE
    ensures s.HasPage(p) ==> s.PageStart() <= p * PAGE_SIZE
  {
    var first, offset := s.vaddr / PAGE_SIZE, s.vaddr % PAGE_SIZE;
    assert s.vaddr == first * PAGE_SIZE + offset && s.PageStart() == first * PAGE_SIZE;
    assert (s.PageCount() - 1) * PAGE_SIZE < s.Span() <= s.PageCount() * PAGE_SIZE;
  }

  /** A segment whose file bytes are in the file and whose memory is addressable. */
  predicate WellFormed(image: Image, s: Segment) {
    s.filesz <= s.memsz && s.offset + s.filesz <= |image| && s.vaddr + s.memsz < U64_LIMIT
  }

  datatype Item = Bad(error: ElfError) | Skip | Load(segment: Segment)

  /** What the loader makes of program header `i`, before claiming any memory. */
  function ItemAt(image: Image, h: Header, i: nat): (item: Item)
    ensures item.Load? ==> WellFormed(image, item.segment)
    ensures item.Bad? ==> item.error != AllocationFailed
  {
    var base := h.phoff + i * PHDR_SIZE;
    if base + PHDR_SIZE > |image| then Bad(BadProgramHeaders)
    else if Field(image, base, 4) != PT_LOAD then Skip
    else
      var s := Segment(Field(image, base + 8, 8), Field(image, base + 16, 8),
                       Field(image, base + 32, 8), Field(image, base + 40, 8));
      if s.filesz > s.memsz then Bad(SegmentTooLarge)
      else if s.offset + s.filesz > |image| then Bad(SegmentOutOfBounds)
      else if s.vaddr + s.memsz >= U64_LIMIT then Bad(SegmentOutOfBounds)
      else Load(s)
  }

  /** The `PT_LOAD` segments from program header `i` on, in file order. */
  function Segments(image: Image, h: Header, i: nat): (segs: seq<Segment>)
    ensures forall s :: s in segs ==> WellFormed(image, s)
    decreases h.phnum - i
  {
    if i >= h.phnum then [] else
    match ItemAt(image, h, i)
    case Load(s) => [s] + Segments(image, h, i + 1)
    case _ => Segments(image, h, i + 1)
  }

  predicate AllGood(image: Image, h: Header, i: nat)
    decreases h.phnum - i
  {
    i >= h.phnum || (!ItemAt(image, h, i).Bad? && AllGood(image, h, i + 1))
  }

  lemma {:induction false} AllGoodIsEach(image: Image, h: Header, i: nat)
    ensures AllGood(image, h, i) <==> forall k :: i <= k < h.phnum ==> !ItemAt(image, h, k).Bad?
    decreases h.phnum - i
  {
    if i < h.phnum {
      AllGoodIsEach(image, h, i + 1);
    }
  }

  // ------------------------------------------------------ program headers as bytes

  /** The header at `base` is in the file and is a `PT_LOAD`. */
  predicate LoadsAt(image: Image, base: nat) {
    base + PHDR_SIZE <= |image| && image[base..base + 4] == [1, 0, 0, 0]
  }

  /** The fields of the program header at `base`, as bytes of the file. */
  ghost predicate RecordAt(image: Image, base: nat, s: Segment) {
    && base + PHDR_SIZE <= |image|
    && s.offset < U64_LIMIT && s.vaddr < U64_LIMIT && s.filesz < U64_LIMIT && s.memsz < U64_LIMIT
    && image[base + 8..base + 16] == Bytes(s.offset, 8) && image[base + 16..base + 24] == Bytes(s.vaddr, 8)
    && image[base + 32..base + 40] == Bytes(s.filesz, 8) && image[base + 40..base + 48] == Bytes(s.memsz, 8)
  }

  /** What becomes of a `PT_LOAD` header with these fields. */
  ghost predicate Judged(image: Image, s: Segment, item: Item) {
    if s.filesz > s.memsz then item == Bad(SegmentTooLarge)
    else if s.offset + s.filesz > |image| || s.vaddr + s.memsz >= U64_LIMIT then item == Bad(SegmentOutOfBounds)
    else item == Load(s)
  }

  lemma Widths()
    ensures Power(2) == 0x1_0000 && Power(4) == 0x1_0000_0000 && Power(8) == U64_LIMIT
    ensures Bytes(PT_LOAD, 4) == [1, 0, 0, 0]
  {
    assert Power(4) == 0x1_0000_0000 by { assert Power(2) == 0x1_0000; assert Power(3) == 0x100_0000; }
    assert Power(6) == 0x1_0000_0000_0000 by { assert Power(5) == 0x100_0000_0000; }
    assert Power(8) == U64_LIMIT by { assert Power(7) == 0x100_0000_0000_0000; }
    assert Bytes(0, 2) == [0, 0] by { TwoBytes(0); }
    assert Bytes(0, 3) == [0] + Bytes(0, 2);
    assert Bytes(1, 4) == [1] + Bytes(0, 3);
  }

  lemma TypeFromBytes(image: Image, base: nat)
    requires base + PHDR_SIZE <= |image|
    ensures Field(image, base, 4) == PT_LOAD <==> image[base..base + 4] == [1, 0, 0, 0]
  {
    Widths();
    ValueOfBytes(PT_LOAD, 4);
  }

  /** Fields stand at their offsets, and determine the segment. */
  lemma FieldsFromBytes(image: Image, base: nat, s: Segment)
    requires base + PHDR_SIZE <= |image|
    ensures RecordAt(image, base, s) <==>
            s == Segment(Field(image, base + 8, 8), Field(image, base + 16, 8),
                         Field(image, base + 32, 8), Field(image, base + 40, 8))
  {
    Widths();
    if RecordAt(image, base, s) {
      ValueOfBytes(s.offset, 8);
      ValueOfBytes(s.vaddr, 8);
      ValueOfBytes(s.filesz, 8);
      ValueOfBytes(s.memsz, 8);
    }
  }

  /** What the loader makes of a program header, in terms of the file's bytes: one
      that runs past the file is bad, one of another type is skipped, and a `PT_LOAD`
      is judged by the fields in the file. */
  lemma ItemFromBytes(image: Image, h: Header, i: nat, s: Segment)
    ensures var base, item := h.phoff + i * PHDR_SIZE, ItemAt(image, h, i);
            && (item == Bad(BadProgramHeaders) <==> base + PHDR_SIZE > |image|)
            && (item == Skip <==> base + PHDR_SIZE <= |image| && image[base..base + 4] != [1, 0, 0, 0])
            && (LoadsAt(image, base) && RecordAt(image, base, s) ==> Judged(image, s, item))
            && (item == Load(s) ==> LoadsAt(image, base) && RecordAt(image, base, s) && WellFormed(image, s))
  {
    var base := h.phoff + i * PHDR_SIZE;
    if base + PHDR_SIZE <= |image| {
      TypeFromBytes(image, base);
      FieldsFromBytes(image, base, s);
    }
  }

  /** `segs` are the `PT_LOAD` headers of the table from header `i` on, in file order,
      and the whole table is in the file. */
  ghost predicate Lists(image: Image, phoff: nat, phnum: nat, i: nat, segs: seq<Segment>)
    decreases phnum - i
  {
    if i >= phnum then segs == [] else
    var base := phoff + i * PHDR_SIZE;
    && base + PHDR_SIZE <= |image|
    && if image[base..base + 4] == [1, 0, 0, 0] then
         segs != [] && RecordAt(image, base, segs[0]) && Lists(image, phoff, phnum, i + 1, segs[1..])
       else Lists(image, phoff, phnum, i + 1, segs)
  }

  lemma BadIsNotListed(image: Image, h: Header, i: nat, segs: seq<Segment>)
    requires i < h.phnum && ItemAt(image, h, i).Bad?
    ensures Lists(image, h.phoff, h.phnum, i, segs) ==> exists s :: s in segs && !WellFormed(image, s)
  {
    if Lists(image, h.phoff, h.phnum, i, segs) {
      ItemFromBytes(image, h, i, if segs == [] then Segment(0, 0, 0, 0) else segs[0]);
      assert segs != [] && segs[0] in segs;
    }
  }

  lemma SkippedIsNotListed(image: Image, h: Header, i: nat, segs: seq<Segment>)
    requires i < h.phnum && ItemAt(image, h, i).Skip?
    ensures Lists(image, h.phoff, h.phnum, i, segs) <==> Lists(image, h.phoff, h.phnum, i + 1, segs)
  {
    ItemFromBytes(image, h, i, Segment(0, 0, 0, 0));
  }

  lemma LoadedIsListed(image: Image, h: Header, i: nat, segs: seq<Segment>, s: Segment)
    requires i < h.phnum && ItemAt(image, h, i) == Load(s)
    ensures Lists(image, h.phoff, h.phnum, i, segs) <==>
            segs != [] && segs[0] == s && Lists(image, h.phoff, h.phnum, i + 1, segs[1..])
  {
    ItemFromBytes(image, h, i, s);
    if segs != [] {
      ItemFromBytes(image, h, i, segs[0]);
      FieldsFromBytes(image, h.phoff + i * PHDR_SIZE, s);
      FieldsFromBytes(image, h.phoff + i * PHDR_SIZE, segs[0]);
    }
  }

  lemma WellFormedCons(image: Image, segs: seq<Segment>)
    requires segs != []
    ensures (forall s :: s in segs ==> WellFormed(image, s)) <==>
            WellFormed(image, segs[0]) && forall s :: s in segs[1..] ==> WellFormed(image, s)
  {
    assert forall x :: x in segs <==> x == segs[0] || x in segs[1..];
  }

  lemma HeadAndTail(segs: seq<Segment>, s: Segment, rest: seq<Segment>)
    requires segs != []
    ensures segs == [s] + rest <==> segs[0] == s && segs[1..] == rest
  {
    assert segs == [segs[0]] + segs[1..];
    assert ([s] + rest)[1..] == rest;
  }

  /** The loader finds no bad header exactly when the table is in the file and each
      segment it lists is well formed; the segments it loads are then those listed. */
  lemma {:induction false} SegmentsAreListed(image: Image, h: Header, i: nat, segs: seq<Segment>)
    ensures Lists(image, h.phoff, h.phnum, i, segs) && (forall s :: s in segs ==> WellFormed(image, s)) <==>
            AllGood(image, h, i) && segs == Segments(image, h, i)
    decreases h.phnum - i
  {
    if i < h.phnum {
      match ItemAt(image, h, i)
      case Bad(_) =>
        BadIsNotListed(image, h, i, segs);
      case Skip =>
        SkippedIsNotListed(image, h, i, segs);
        SegmentsAreListed(image, h, i + 1, segs);
      case Load(s) =>
        LoadedIsListed(image, h, i, segs, s);
        if segs != [] {
          SegmentsAreListed(image, h, i + 1, segs[1..]);
          WellFormedCons(image, segs);
          HeadAndTail(segs, s, Segments(image, h, i + 1));
        }
    }
  }

  // ---------------------------------------------------------- assembling an image

  function Zeros(n: nat): (bytes: seq<uint8>)
    ensures |bytes| == n
  {
    seq(n, _ => 0)
  }

  const IDENTITY: seq<uint8> :=
    [0x7f, 0x45, 0x4c, 0x46, 2, 1, 1, 0, 0, 0, 0, 0, 0, 0, 0, 0, 2, 0, 0x3e, 0, 1, 0, 0, 0]
  const SIZES: seq<uint8> := [0, 0, 0, 0, 0, 0, 0, 0, 0, 0, 0, 0, 64, 0, 56, 0]

  /** An ELF header announcing `phnum` program headers right behind it. */
  function HeaderBytes(entry: nat, phnum: nat): (bytes: seq<uint8>)
    ensures |bytes| == EHDR_SIZE
  {
    IDENTITY + Bytes(entry, 8) + Bytes(EHDR_SIZE, 8) + SIZES + Bytes(phnum, 2) + Zeros(6)
  }

  lemma SliceBehind(head: seq<uint8>, rest: seq<uint8>, lo: nat, hi: nat)
    requires |head| <= lo <= hi <= |head| + |rest|
    ensures (head + rest)[lo..hi] == rest[lo - |head|..hi - |head|]
  {
  }

  lemma HeadSlice(head: seq<uint8>, rest: seq<uint8>)
    ensures (head + rest)[0..|head|] == head
  {
  }

  /** Eight-byte words, one behind the other. */
  function Words(words: seq<seq<uint8>>): seq<uint8> {
    if words == [] then [] else words[0] + Words(words[1..])
  }

  lemma {:induction false} WordAt(words: seq<seq<uint8>>, k: nat)
    requires (forall i :: 0 <= i < |words| ==> |words[i]| == 8) && k < |words|
    ensures |Words(words)| == 8 * |words| && Words(words)[8 * k..8 * k + 8] == words[k]
  {
    if |words| > 1 {
      WordAt(words[1..], if k > 0 then k - 1 else 0);
    }
    if k == 0 {
      HeadSlice(words[0], Words(words[1..]));
    } else {
      SliceBehind(words[0], Words(words[1..]), 8 * k, 8 * k + 8);
    }
  }

  /** The words of a `PT_LOAD` header: type and flags, offset, virtual and physical
      address, sizes in file and memory, alignment. */
  function SegmentWords(s: Segment): (words: seq<seq<uint8>>)
    ensures |words| == 7 && forall i :: 0 <= i < 7 ==> |words[i]| == 8
  {
    [[1, 0, 0, 0, 5, 0, 0, 0], Bytes(s.offset, 8), Bytes(s.vaddr, 8), Bytes(s.vaddr, 8),
     Bytes(s.filesz, 8), Bytes(s.memsz, 8), Bytes(PAGE_SIZE, 8)]
  }

  function SegmentBytes(s: Segment): (bytes: seq<uint8>)
    ensures |bytes| == PHDR_SIZE
  {
    WordAt(SegmentWords(s), 0);
    Words(SegmentWords(s))
  }

  lemma SegmentBytesRead(s: Segment)
    ensures var b := SegmentBytes(s);
            && b[0..4] == [1, 0, 0, 0] && b[8..16] == Bytes(s.offset, 8) && b[16..24] == Bytes(s.vaddr, 8)
            && b[32..40] == Bytes(s.filesz, 8) && b[40..48] == Bytes(s.memsz, 8)
  {
    var words := SegmentWords(s);
    assert words[0][0..4] == [1, 0, 0, 0];
    WordAt(words, 0);
    SliceOfSlice(Words(words), 0, 8, 0, 4);
    WordAt(words, 1);
    WordAt(words, 2);
    WordAt(words, 4);
    WordAt(words, 5);
  }

  function TableBytes(segs: seq<Segment>): (bytes: seq<uint8>)
    ensures |bytes| == |segs| * PHDR_SIZE
  {
    if segs == [] then [] else SegmentBytes(segs[0]) + TableBytes(segs[1..])
  }

  /** The segments fit a file of `length` bytes, and their table does. */
  ghost predicate Encodable(segs: seq<Segment>, length: nat) {
    && |segs| < 0x1_0000 && EHDR_SIZE + |segs| * PHDR_SIZE <= length < I64_LIMIT
    && forall s :: s in segs ==>
         s.filesz <= s.memsz && s.offset + s.filesz <= length && s.vaddr + s.memsz < U64_LIMIT
  }

  /** An image of `length` bytes with this entry and these segments. */
  function Assemble(entry: nat, segs: seq<Segment>, length: nat): (image: Image)
    requires Encodable(segs, length)
    ensures |image| == length
  {
    HeaderBytes(entry, |segs|) + TableBytes(segs) + Zeros(length - EHDR_SIZE - |segs| * PHDR_SIZE)
  }

  lemma HeaderBytesRead(entry: nat, phnum: nat)
    ensures var b := HeaderBytes(entry, phnum);
            && b[0..24] == IDENTITY && b[40..56] == SIZES
            && b[24..32] == Bytes(entry, 8) && b[32..40] == Bytes(EHDR_SIZE, 8) && b[56..58] == Bytes(phnum, 2)
  {
    var e, o, n, rest := Bytes(entry, 8), Bytes(EHDR_SIZE, 8), Bytes(phnum, 2), Zeros(6);
    assert HeaderBytes(entry, phnum) == IDENTITY + e + (o + SIZES + n + rest);
    MiddleSlice(IDENTITY, e, o + SIZES + n + rest);
    assert HeaderBytes(entry, phnum) == IDENTITY + e + o + (SIZES + n + rest);
    MiddleSlice(IDENTITY + e, o, SIZES + n + rest);
    assert HeaderBytes(entry, phnum) == IDENTITY + e + o + SIZES + (n + rest);
    MiddleSlice(IDENTITY + e + o, SIZES, n + rest);
    MiddleSlice(IDENTITY + e + o + SIZES, n, rest);
  }

  lemma IdentityIsValid(image: Image)
    requires |image| >= EHDR_SIZE && image[0..24] == IDENTITY && image[40..56] == SIZES
    ensures HeaderValid(image)
  {
    SliceOfSlice(image, 0, 24, 0, 4);
    SliceOfSlice(image, 0, 24, 16, 18);
    SliceOfSlice(image, 0, 24, 18, 20);
    SliceOfSlice(image, 40, 56, 14, 16);
    assert image[4] == image[0..24][4] && image[5] == image[0..24][5];
  }

  lemma {:induction false} TableBytesRead(segs: seq<Segment>, i: nat, lo: nat)
    requires i < |segs| && lo == i * PHDR_SIZE
    ensures lo + PHDR_SIZE <= |TableBytes(segs)|
    ensures TableBytes(segs)[lo..lo + PHDR_SIZE] == SegmentBytes(segs[i])
  {
    if i == 0 {
      HeadSlice(SegmentBytes(segs[0]), TableBytes(segs[1..]));
    } else {
      TableBytesRead(segs[1..], i - 1, lo - PHDR_SIZE);
      SliceBehind(SegmentBytes(segs[0]), TableBytes(segs[1..]), lo, lo + PHDR_SIZE);
    }
  }

  /** A field of a record embedded in the image at `base`. */
  lemma FieldOf(image: Image, base: nat, record: seq<uint8>, k: nat, v: nat, n: nat)
    requires base + |record| <= |image| && image[base..base + |record|] == record
    requires k + n <= |record| && record[k..k + n] == Bytes(v, n) && v < Power(n)
    ensures Field(image, base + k, n) == v
  {
    SliceOfSlice(image, base, base + |record|, k, k + n);
    ValueOfBytes(v, n);
  }

  /** The fields read from a program header in the file. */
  lemma RecordFields(image: Image, base: nat, s: Segment)
    requires base + PHDR_SIZE <= |image| && image[base..base + PHDR_SIZE] == SegmentBytes(s)
    requires s.offset < U64_LIMIT && s.vaddr < U64_LIMIT && s.filesz < U64_LIMIT && s.memsz < U64_LIMIT
    ensures Field(image, base, 4) == PT_LOAD
    ensures Segment(Field(image, base + 8, 8), Field(image, base + 16, 8),
                    Field(image, base + 32, 8), Field(image, base + 40, 8)) == s
  {
    var b := SegmentBytes(s);
    SegmentBytesRead(s);
    Widths();
    FieldOf(image, base, b, 0, PT_LOAD, 4);
    FieldOf(image, base, b, 8, s.offset, 8);
    FieldOf(image, base, b, 16, s.vaddr, 8);
    FieldOf(image, base, b, 32, s.filesz, 8);
    FieldOf(image, base, b, 40, s.memsz, 8);
  }

  lemma ItemOfFields(image: Image, h: Header, i: nat, base: nat, s: Segment)
    requires base == h.phoff + i * PHDR_SIZE && base + PHDR_SIZE <= |image| && WellFormed(image, s)
    requires Field(image, base, 4) == PT_LOAD
    requires Segment(Field(image, base + 8, 8), Field(image, base + 16, 8),
                     Field(image, base + 32, 8), Field(image, base + 40, 8)) == s
    ensures ItemAt(image, h, i) == Load(s)
  {
  }

  lemma RecordItem(image: Image, h: Header, i: nat, base: nat, s: Segment)
    requires base == h.phoff + i * PHDR_SIZE && base + PHDR_SIZE <= |image| && WellFormed(image, s)
    requires image[base..base + PHDR_SIZE] == SegmentBytes(s)
    ensures ItemAt(image, h, i) == Load(s)
  {
    RecordFields(image, base, s);
    ItemOfFields(image, h, i, base, s);
  }

  /** The image begins with this header and this table. */
  ghost predicate Holds(image: Image, entry: nat, segs: seq<Segment>) {
    && |segs| < 0x1_0000 && entry < U64_LIMIT && EHDR_SIZE + |segs| * PHDR_SIZE <= |image|
    && image[0..EHDR_SIZE] == HeaderBytes(entry, |segs|)
    && image[EHDR_SIZE..EHDR_SIZE + |TableBytes(segs)|] == TableBytes(segs)
    && forall s :: s in segs ==> WellFormed(image, s)
  }

  lemma HeldHeader(image: Image, entry: nat, segs: seq<Segment>)
    requires Holds(image, entry, segs)
    ensures ParseHeader(image) == Ok(Header(entry, EHDR_SIZE, |segs|))
  {
    var b := HeaderBytes(entry, |segs|);
    HeaderBytesRead(entry, |segs|);
    Widths();
    SliceOfSlice(image, 0, EHDR_SIZE, 0, 24);
    SliceOfSlice(image, 0, EHDR_SIZE, 40, 56);
    IdentityIsValid(image);
    FieldOf(image, 0, b, 24, entry, 8);
    FieldOf(image, 0, b, 32, EHDR_SIZE, 8);
    FieldOf(image, 0, b, 56, |segs|, 2);
  }

  lemma SliceOf(image: seq<uint8>, start: nat, table: seq<uint8>, lo: nat, record: seq<uint8>, base: nat)
    requires start + |table| <= |image| && image[start..start + |table|] == table
    requires lo + |record| <= |table| && table[lo..lo + |record|] == record && base == start + lo
    ensures image[base..base + |record|] == record
  {
    SliceOfSlice(image, start, start + |table|, lo, lo + |record|);
  }

  lemma TableRecord(image: Image, start: nat, segs: seq<Segment>, i: nat, base: nat)
    requires start + |TableBytes(segs)| <= |image| && i < |segs| && base == start + i * PHDR_SIZE
    requires image[start..start + |TableBytes(segs)|] == TableBytes(segs)
    ensures base + PHDR_SIZE <= |image| && image[base..base + PHDR_SIZE] == SegmentBytes(segs[i])
  {
    TableBytesRead(segs, i, i * PHDR_SIZE);
    SliceOf(image, start, TableBytes(segs), i * PHDR_SIZE, SegmentBytes(segs[i]), base);
  }

  lemma {:induction false} HeldSegments(image: Image, entry: nat, segs: seq<Segment>, i: nat)
    requires Holds(image, entry, segs) && i <= |segs|
    ensures var h := Header(entry, EHDR_SIZE, |segs|);
            Segments(image, h, i) == segs[i..] && AllGood(image, h, i)
    decreases |segs| - i
  {
    if i < |segs| {
      var base := EHDR_SIZE + i * PHDR_SIZE;
      TableRecord(image, EHDR_SIZE, segs, i, base);
      assert segs[i] in segs;
      RecordItem(image, Header(entry, EHDR_SIZE, |segs|), i, base, segs[i]);
      HeldSegments(image, entry, segs, i + 1);
      assert segs[i..] == [segs[i]] + segs[i + 1..];
    }
  }

  lemma AssembleHolds(entry: nat, segs: seq<Segment>, length: nat)
    requires Encodable(segs, length) && entry < U64_LIMIT
    ensures Holds(Assemble(entry, segs, length), entry, segs)
  {
    var header, table := HeaderBytes(entry, |segs|), TableBytes(segs);
    var padding := Zeros(length - EHDR_SIZE - |segs| * PHDR_SIZE);
    MiddleSlice(header, table, padding);
    MiddleSlice([], header, table + padding);
    assert [] + header + (table + padding) == header + table + padding;
  }

  /** Assembling and reading back are inverse: the loader's view of the image is the
      entry and the segments it was made from. */
  lemma AssembledReadsBack(entry: nat, segs: seq<Segment>, length: nat)
    requires Encodable(segs, length) && entry < U64_LIMIT
    ensures var image, h := Assemble(entry, segs, length), Header(entry, EHDR_SIZE, |segs|);
            ParseHeader(image) == Ok(h) && Segments(image, h, 0) == segs && AllGood(image, h, 0)
  {
    var image := Assemble(entry, segs, length);
    AssembleHolds(entry, segs, length);
    HeldHeader(image, entry, segs);
    HeldSegments(image, entry, segs, 0);
    assert segs[0..] == segs;
  }
}
