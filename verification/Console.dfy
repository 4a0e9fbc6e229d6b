/** The framebuffer console: no shadow buffer, only pixels moved in place. */
module Console {
  import opened Machine
  import opened Transcript

  datatype FrameBufferInfo = FrameBufferInfo(addr: uint64, size: uint64, width: uint32, height: uint32,
                                             stride: uint32, bytesPerPixel: uint32, formatRaw: uint32)

  datatype PixelFormat = Rgb | Bgr

  function FormatOf(raw: uint32): Option<PixelFormat> {
    if raw == 0 then Some(Rgb) else if raw == 1 then Some(Bgr) else None
  }

  /** `pack`: an RGB triple as the framebuffer's 32-bit pixel. The shifted bytes do
      not overlap, so or-ing them is adding them. */
  function Pack(format: PixelFormat, r: uint8, g: uint8, b: uint8): uint32 {
    match format
    case Rgb => r + g * 0x100 + b * 0x1_0000
    case Bgr => b + g * 0x100 + r * 0x1_0000
  }

  /** The pixel a little-endian machine sees in four consecutive bytes. */
  function LittleEndian(bytes: seq<uint8>): uint32
    requires |bytes| == 4
  {
    var b0: int, b1: int, b2: int, b3: int := bytes[0], bytes[1], bytes[2], bytes[3];
    b0 + b1 * 0x100 + b2 * 0x1_0000 + b3 * 0x100_0000
  }

  /** The four bytes `fill_screen` stores. */
  function FillBytes(format: PixelFormat, r: uint8, g: uint8, b: uint8): (bytes: seq<uint8>)
    ensures |bytes| == 4 && LittleEndian(bytes) == Pack(format, r, g, b)
  {
    match format
    case Rgb => [r, g, b, 0]
    case Bgr => [b, g, r, 0]
  }

  /** What `Console::new` demands: a known 32-bit format, one whole cell, and the
      whole `stride * height` span inside the framebuffer and the address space. */
  predicate Accepts(info: FrameBufferInfo) {
    && FormatOf(info.formatRaw).Some?
    && info.addr != 0 && info.addr % 4 == 0 && info.bytesPerPixel == 4
    && info.stride >= info.width >= GLYPH_WIDTH && info.height >= GLYPH_HEIGHT
    && info.stride * info.height * 4 <= info.size
    && info.addr + info.stride * info.height * 4 < U64_LIMIT
  }

  /** The index of pixel (x, y): rows are `stride` apart, whatever the width. */
  function Offset(stride: nat, x: nat, y: nat): nat {
    y * stride + x
  }

  lemma MulMonotone(a: nat, b: nat, s: nat)
    requires a <= b
    ensures a * s <= b * s
  {
  }

  lemma OffsetBound(stride: nat, height: nat, x: nat, y: nat)
    requires x < stride && y < height
    ensures Offset(stride, x, y) < stride * height
  {
    MulMonotone(y + 1, height, stride);
    assert (y + 1) * stride == y * stride + stride;
  }

  /** What is accepted, pixel by pixel: a known format of aligned 32-bit pixels, room
      for one character, no scanline wider than the stride, and every pixel the
      renderer may touch inside the reported size and the address space. */
  lemma AcceptsIsExact(info: FrameBufferInfo)
    ensures Accepts(info) <==>
            && (info.formatRaw == 0 || info.formatRaw == 1) && info.bytesPerPixel == 4
            && info.addr != 0 && info.addr % 4 == 0
            && info.width >= 8 && info.height >= 16 && info.width <= info.stride
            && forall x: nat, y: nat :: x < info.stride && y < info.height ==>
                 Offset(info.stride, x, y) * 4 + 4 <= Min(info.size, U64_LIMIT - 1 - info.addr)
  {
    if Accepts(info) {
      forall x: nat, y: nat | x < info.stride && y < info.height
        ensures Offset(info.stride, x, y) * 4 + 4 <= Min(info.size, U64_LIMIT - 1 - info.addr)
      {
        OffsetBound(info.stride, info.height, x, y);
      }
    } else if info.stride > 0 && info.height > 0 {
      var x, y := info.stride - 1, info.height - 1;
      assert Offset(info.stride, x, y) + 1 == info.stride * info.height by {
        assert (y + 1) * info.stride == y * info.stride + info.stride;
      }
    }
  }

  lemma OffsetInjective(stride: nat, x: nat, y: nat, x': nat, y': nat)
    requires x < stride && x' < stride && Offset(stride, x, y) == Offset(stride, x', y')
    ensures x == x' && y == y'
  {
    QuotientUnique(y, x, y', x', stride);
  }

  lemma OffsetShift(stride: nat, x: nat, y: nat, d: nat)
    ensures Offset(stride, x, y + d) == Offset(stride, x, y) + d * stride
  {
    assert (y + d) * stride == y * stride + d * stride;
  }

  lemma ShiftBound(stride: nat, height: nat, d: nat)
    requires d <= height
    ensures d * stride <= height * stride && (height - d) * stride == height * stride - d * stride
  {
    assert (height - d) * stride == height * stride - d * stride;
    assert (height - d) * stride >= 0;
  }

  /** The desktop colour, which `fill_screen` paints and the console clears to. */
  function Background(format: PixelFormat): uint32 { Pack(format, 0x00, 0x33, 0x99) }

  /** Every visible pixel is the desktop colour. */
  ghost predicate Blank(info: FrameBufferInfo, pixels: array<uint32>)
    requires Accepts(info) && pixels.Length == info.size / 4
    reads pixels
  {
    forall x: nat, y: nat :: x < info.width && y < info.height ==>
      Offset(info.stride, x, y) < pixels.Length
      && pixels[Offset(info.stride, x, y)] == Background(FormatOf(info.formatRaw).value)
  }

  class Console {
    const info: FrameBufferInfo
    const pixels: array<uint32>
    const columns: nat
    const rows: nat
    const style: Style
    var column: nat
    var row: nat
    ghost var transcript: seq<uint8>

    ghost predicate Geometry()
    {
      && Accepts(info) && pixels.Length == info.size / 4
      && columns == info.width / GLYPH_WIDTH && rows == info.height / GLYPH_HEIGHT
    }

    /** The pixel a viewer sees at (x, y). */
    function Pixel(x: nat, y: nat): uint32
      requires Geometry() && x < info.width && y < info.height
      reads pixels
    {
      OffsetBound(info.stride, info.height, x, y);
      pixels[Offset(info.stride, x, y)]
    }

    /** The screen is the picture of `shown`: text cells, the strip right of them
        and the strip below the last text row alike. */
    ghost predicate Shows(shown: seq<seq<uint8>>)
      requires Geometry()
      reads pixels
    {
      forall x: nat, y: nat :: x < info.width && y < info.height ==> Pixel(x, y) == PixelOf(style, shown, x, y)
    }

    ghost predicate Valid()
      reads this, pixels
    {
      && Geometry()
      && var lines := Rows(transcript, columns);
         && row + 1 == |Visible(lines, rows)| && column == |Last(lines)|
         && Shows(Visible(lines, rows))
    }

    constructor (info: FrameBufferInfo, pixels: array<uint32>, style: Style)
      requires Accepts(info) && pixels.Length == info.size / 4
      requires style.background == Background(FormatOf(info.formatRaw).value)
      ensures Geometry() && column == 0 && row == 0 && transcript == []
      ensures this.info == info && this.pixels == pixels && this.style == style
      ensures Blank(info, pixels) ==> Valid()
    {
      this.info, this.pixels, this.style := info, pixels, style;
      columns, rows := info.width / GLYPH_WIDTH, info.height / GLYPH_HEIGHT;
      column, row, transcript := 0, 0, [];
      new;
      assert Rows([], columns) == [[]] by { WrapOne([], columns); }
    }

    /** What a viewer sees at pixel (dx, dy) of cell (c, r): the glyph of the character
        there, and background where there is none. */
    lemma CellShows(c: nat, r: nat, dx: nat, dy: nat)
      requires Valid() && c < columns && r < rows && dx < 8 && dy < 16
      ensures c * 8 + dx < info.width && r * 16 + dy < info.height
      ensures var shown := Visible(Rows(transcript, columns), rows);
              Pixel(c * 8 + dx, r * 16 + dy) ==
              if r < |shown| && c < |shown[r]| && (Glyph(style.font, shown[r][c])[dy] >> (7 - dx)) & 1 == 1
              then style.foreground else style.background
    {
      CellPixel(style, Visible(Rows(transcript, columns), rows), c, r, dx, dy);
    }

    method WritePixel(x: nat, y: nat, colour: uint32)
      requires Geometry() && x < info.width && y < info.height
      modifies pixels
      ensures forall x': nat, y': nat :: x' < info.width && y' < info.height ==>
                Pixel(x', y') == if x' == x && y' == y then colour else old(Pixel(x', y'))
    {
      OffsetBound(info.stride, info.height, x, y);
      pixels[Offset(info.stride, x, y)] := colour;
      forall x': nat, y': nat | x' < info.width && y' < info.height
        ensures Pixel(x', y') == if x' == x && y' == y then colour else old(Pixel(x', y'))
      {
        OffsetBound(info.stride, info.height, x', y');
        if Offset(info.stride, x', y') == Offset(info.stride, x, y) {
          OffsetInjective(info.stride, x, y, x', y');
        }
      }
    }

    /** Pixel (x, y) once `dy` whole scanlines and `dx` pixels of the next are drawn. */
    ghost function Drawn(bitmap: seq<bv8>, before: uint32, x: nat, y: nat, dy: nat, dx: nat): uint32
      requires |bitmap| == GLYPH_HEIGHT
      reads this
    {
      if x / GLYPH_WIDTH == column && y / GLYPH_HEIGHT == row
         && (y % GLYPH_HEIGHT < dy || (y % GLYPH_HEIGHT == dy && x % GLYPH_WIDTH < dx)) then
        if Lit(bitmap[y % GLYPH_HEIGHT], x % GLYPH_WIDTH) then style.foreground else style.background
      else before
    }

    method DrawGlyph(byte: uint8)
      requires Geometry() && column < columns && row < rows
      modifies pixels
      ensures forall x: nat, y: nat :: x < info.width && y < info.height ==>
                Pixel(x, y) ==
                if x / GLYPH_WIDTH == column && y / GLYPH_HEIGHT == row then
                  if Lit(Glyph(style.font, byte)[y % GLYPH_HEIGHT], x % GLYPH_WIDTH) then style.foreground
                  else style.background
                else old(Pixel(x, y))
    {
      var bitmap := Glyph(style.font, byte);
      var originX, originY := column * GLYPH_WIDTH, row * GLYPH_HEIGHT;
      for dy := 0 to GLYPH_HEIGHT
        invariant forall x: nat, y: nat :: x < info.width && y < info.height ==>
                    Pixel(x, y) == Drawn(bitmap, old(Pixel(x, y)), x, y, dy, 0)
      {
        for dx := 0 to GLYPH_WIDTH
          invariant forall x: nat, y: nat :: x < info.width && y < info.height ==>
                      Pixel(x, y) == Drawn(bitmap, old(Pixel(x, y)), x, y, dy, dx)
        {
          var lit := Lit(bitmap[dy], dx);
          var colour := if lit then style.foreground else style.background;
          WritePixel(originX + dx, originY + dy, colour);
        }
      }
    }

    method Scroll()
      requires Geometry()
      modifies pixels
      ensures forall x: nat, y: nat :: x < info.width && y < info.height ==>
                Pixel(x, y) == if y < info.height - GLYPH_HEIGHT then old(Pixel(x, y + GLYPH_HEIGHT))
                               else style.background
    {
      var stride, height := info.stride, info.height;
      var shift := GLYPH_HEIGHT * stride;
      var count := height * stride;
      ShiftBound(stride, height, GLYPH_HEIGHT);
      // An overlapping move: every source pixel is read as it was.
      forall i | 0 <= i < count - shift {
        pixels[i] := pixels[i + shift];
      }
      forall x: nat, y: nat | x < info.width && y < height - GLYPH_HEIGHT
        ensures Pixel(x, y) == old(Pixel(x, y + GLYPH_HEIGHT))
      {
        OffsetBound(stride, height - GLYPH_HEIGHT, x, y);
        OffsetShift(stride, x, y, GLYPH_HEIGHT);
      }
      for y := height - GLYPH_HEIGHT to height
        invariant forall x: nat, y': nat :: x < info.width && y' < info.height ==>
                    (y' < height - GLYPH_HEIGHT ==> Pixel(x, y') == old(Pixel(x, y' + GLYPH_HEIGHT)))
                    && (height - GLYPH_HEIGHT <= y' < y ==> Pixel(x, y') == style.background)
      {
        for x := 0 to info.width
          invariant forall x': nat, y': nat :: x' < info.width && y' < info.height ==>
                      (y' < height - GLYPH_HEIGHT ==> Pixel(x', y') == old(Pixel(x', y' + GLYPH_HEIGHT)))
                      && (height - GLYPH_HEIGHT <= y' < y || (y' == y && x' < x) ==> Pixel(x', y') == style.background)
        {
          WritePixel(x, y, style.background);
        }
      }
    }

    /** Move to a fresh row, scrolling when there is none left. */
    method Newline(ghost lines: seq<seq<uint8>>)
      requires Geometry() && lines != [] && row + 1 == |Visible(lines, rows)| && Shows(Visible(lines, rows))
      modifies this`column, this`row, pixels
      ensures column == 0 && row + 1 == |Visible(lines + [[]], rows)| && Shows(Visible(lines + [[]], rows))
    {
      column := 0;
      if row + 1 < rows {
        row := row + 1;
        forall x: nat, y: nat | x < info.width && y < info.height
          ensures Pixel(x, y) == PixelOf(style, Visible(lines + [[]], rows), x, y)
        {
          OpenedPicture(style, lines, rows, x, y);
        }
      } else {
        Scroll();
        forall x: nat, y: nat | x < info.width && y < info.height
          ensures Pixel(x, y) == PixelOf(style, Visible(lines + [[]], rows), x, y)
        {
          ScrolledPicture(style, lines, rows, info.height, x, y);
        }
      }
    }

    /** Type one character at the cursor, which has room for it. */
    method Put(byte: uint8, ghost lines: seq<seq<uint8>>)
      requires Geometry() && lines != [] && row + 1 == |Visible(lines, rows)| && Shows(Visible(lines, rows))
      requires column == |Last(lines)| < columns
      modifies this`column, pixels
      ensures column == old(column) + 1
      ensures Shows(Visible(ButLast(lines) + [Last(lines) + [byte]], rows))
    {
      DrawGlyph(byte);
      forall x: nat, y: nat | x < info.width && y < info.height
        ensures Pixel(x, y) == PixelOf(style, Visible(ButLast(lines) + [Last(lines) + [byte]], rows), x, y)
      {
        TypedPicture(style, lines, rows, byte, x, y);
      }
      column := column + 1;
    }

    /** A printable byte: wrap first if the row is full, then type it. */
    method Print(byte: uint8, ghost lines: seq<seq<uint8>>)
      requires Geometry() && lines != [] && row + 1 == |Visible(lines, rows)| && Shows(Visible(lines, rows))
      requires column == |Last(lines)| <= columns && byte != NEWLINE && byte != RETURN
      modifies this`column, this`row, pixels
      ensures var after := Feed(lines, byte, columns);
              && row + 1 == |Visible(after, rows)| && column == |Last(after)| && Shows(Visible(after, rows))
    {
      ghost var open := lines;
      if column >= columns {
        Newline(lines);
        open := lines + [[]];
        assert [] + [byte] == [byte] && ButLast(open) == lines;
      }
      assert Feed(lines, byte, columns) == ButLast(open) + [Last(open) + [byte]];
      Put(byte, open);
    }

    /** Cell (c, r) shows the glyph of `byte`, leftmost pixel from the highest bit. */
    ghost predicate CellIs(c: nat, r: nat, byte: uint8)
      requires Geometry()
      reads pixels
    {
      forall x: nat, y: nat :: x < info.width && y < info.height && x / 8 == c && y / 16 == r ==>
        Pixel(x, y) == if (Glyph(style.font, byte)[y % 16] >> (7 - x % 8)) & 1 == 1 then style.foreground
                       else style.background
    }

    /** The character just typed stands in the cell before the cursor. */
    lemma TypedCellShows(byte: uint8, before: seq<seq<uint8>>)
      requires Geometry() && before != [] && byte != NEWLINE && byte != RETURN
      requires var after := Feed(before, byte, columns);
               && row + 1 == |Visible(after, rows)| && column == |Last(after)| && Shows(Visible(after, rows))
      ensures column > 0 && CellIs(column - 1, row, byte)
    {
      var lines := Feed(before, byte, columns);
      var shown := Visible(lines, rows);
      assert Last(shown) == Last(lines) && shown[row] == Last(lines) && shown[row][column - 1] == byte;
      forall x: nat, y: nat | x < info.width && y < info.height && x / 8 == column - 1 && y / 16 == row
        ensures Pixel(x, y) == if (Glyph(style.font, byte)[y % 16] >> (7 - x % 8)) & 1 == 1 then style.foreground
                               else style.background
      {
        LitIsBit(Glyph(style.font, byte)[y % 16], x % 8);
      }
    }

    method WriteByte(byte: uint8)
      requires Valid()
      modifies this, pixels
      ensures Valid() && transcript == old(transcript) + [byte]
      ensures byte != NEWLINE && byte != RETURN ==> column > 0 && CellIs(column - 1, row, byte)
    {
      ghost var lines := Rows(transcript, columns);
      FeedIsRows(transcript, byte, columns);
      transcript := transcript + [byte];
      if byte == NEWLINE {
        Newline(lines);
      } else if byte != RETURN {
        Print(byte, lines);
        TypedCellShows(byte, lines);
      }
    }
  }

  /** The console's colours, as bytes in memory, its font, and a grid of as many whole
      cells as fit. */
  ghost predicate Dressed(console: Console, info: FrameBufferInfo, font: Font) {
    && console.style.font == font
    && console.style.foreground == LittleEndian([0xE0, 0xE0, 0xE0, 0])
    && console.style.background
       == LittleEndian(if info.formatRaw == 0 then [0x00, 0x33, 0x99, 0] else [0x99, 0x33, 0x00, 0])
    && console.style.foreground != console.style.background
    && console.columns * 8 <= info.width < (console.columns + 1) * 8
    && console.rows * 16 <= info.height < (console.rows + 1) * 16
  }

  /** `Console::new`: a console exactly when every later access is safe. It is in step
      with its empty transcript if the screen is blank, as `fill_screen` leaves it. */
  method New(info: FrameBufferInfo, pixels: array<uint32>, font: Font) returns (console: Console?)
    requires Accepts(info) ==> pixels.Length == info.size / 4
    ensures console != null <==> Accepts(info)
    ensures console != null ==>
              && console.Geometry() && fresh(console) && console.pixels == pixels && console.info == info
              && console.transcript == [] && (Blank(info, pixels) ==> console.Valid())
              && Dressed(console, info, font)
  {
    console := null;
    var format := FormatOf(info.formatRaw);
    if format.None? {
      return;
    }
    if info.addr == 0 || info.addr % 4 != 0 || info.bytesPerPixel != 4
       || info.stride < info.width || info.width < GLYPH_WIDTH || info.height < GLYPH_HEIGHT {
      return;
    }
    var count := CheckedMul(info.stride, info.height);
    if count.None? {
      return;
    }
    var bytes := CheckedMul(count.value, 4);
    if bytes.None? {
      return;
    }
    if bytes.value > info.size || CheckedAdd(info.addr, bytes.value).None? {
      return;
    }
    console := new Console(info, pixels,
                           Style(font, Pack(format.value, 0xE0, 0xE0, 0xE0), Background(format.value)));
  }

  /** The bytes `fill_screen` writes for each pixel. */
  function PixelSize(info: FrameBufferInfo): nat { Min(info.bytesPerPixel, 4) }

  /** The last visible pixel's end, and so every pixel offset `fill_screen` computes,
      fits 64 bits. */
  predicate LastPixelFits(info: FrameBufferInfo) {
    info.width > 0 && info.height > 0 ==>
      (Offset(info.stride, info.width - 1, info.height - 1) + 1) * PixelSize(info) < U64_LIMIT
  }

  lemma OffsetMonotone(stride: nat, x: nat, y: nat, x': nat, y': nat)
    requires x <= x' && y <= y'
    ensures Offset(stride, x, y) <= Offset(stride, x', y')
  {
    MulMonotone(y, y', stride);
  }

  /** Pixel (x, y) lies inside the reported size. */
  predicate InBuffer(info: FrameBufferInfo, x: nat, y: nat) {
    (Offset(info.stride, x, y) + 1) * PixelSize(info) <= info.size
  }

  lemma PixelFits(info: FrameBufferInfo, x: nat, y: nat)
    requires LastPixelFits(info) && x < info.width && y < info.height
    ensures Offset(info.stride, x, y) < U64_LIMIT
    ensures (Offset(info.stride, x, y) + 1) * PixelSize(info) < U64_LIMIT
  {
    MulMonotone(y, 0xFFFF_FFFF, info.stride);
    OffsetMonotone(info.stride, x, y, info.width - 1, info.height - 1);
    MulMonotone(Offset(info.stride, x, y) + 1, Offset(info.stride, info.width - 1, info.height - 1) + 1,
                PixelSize(info));
  }

  /** No end of a pixel overflows if and only if that of the last one does not. */
  lemma FillOffsetsFit(info: FrameBufferInfo)
    ensures LastPixelFits(info) <==>
            forall x: nat, y: nat :: x < info.width && y < info.height ==>
              (Offset(info.stride, x, y) + 1) * PixelSize(info) < U64_LIMIT
  {
    forall x: nat, y: nat | LastPixelFits(info) && x < info.width && y < info.height
      ensures (Offset(info.stride, x, y) + 1) * PixelSize(info) < U64_LIMIT
    {
      PixelFits(info, x, y);
    }
  }

  lemma AcceptedFits(info: FrameBufferInfo)
    requires Accepts(info)
    ensures LastPixelFits(info)
    ensures forall x: nat, y: nat :: x < info.width && y < info.height ==> InBuffer(info, x, y)
  {
    forall x: nat, y: nat | x < info.width && y < info.height ensures InBuffer(info, x, y) {
      OffsetBound(info.stride, info.height, x, y);
    }
    assert InBuffer(info, info.width - 1, info.height - 1);
  }

  /** Pixel `i` of a buffer of `size`-byte pixels holds `pixel`. */
  ghost predicate HoldsPixel(bytes: seq<uint8>, i: nat, size: nat, pixel: seq<uint8>) {
    size <= |pixel| && (i + 1) * size <= |bytes| && bytes[i * size..(i + 1) * size] == pixel[..size]
  }

  /** Writing one pixel leaves every other as it was, and one that held the same stays so. */
  lemma OtherPixelsKept(before: seq<uint8>, after: seq<uint8>, i: nat, j: nat, size: nat, pixel: seq<uint8>)
    requires |after| == |before| && HoldsPixel(after, i, size, pixel) && HoldsPixel(before, j, size, pixel)
    requires forall a :: 0 <= a < |before| && !(i * size <= a < (i + 1) * size) ==> after[a] == before[a]
    ensures HoldsPixel(after, j, size, pixel)
  {
    if j < i {
      MulMonotone(j + 1, i, size);
    } else if j > i {
      MulMonotone(i + 1, j, size);
    }
  }

  /** Copy one pixel in. */
  method PutPixel(bytes: array<uint8>, i: nat, size: nat, pixel: seq<uint8>)
    requires size <= |pixel| && (i + 1) * size <= bytes.Length
    modifies bytes
    ensures HoldsPixel(bytes[..], i, size, pixel)
    ensures forall j: nat :: HoldsPixel(old(bytes[..]), j, size, pixel) ==> HoldsPixel(bytes[..], j, size, pixel)
  {
    ghost var before := bytes[..];
    var offset := i * size;
    assert (i + 1) * size == offset + size;
    forall k | 0 <= k < size {
      bytes[offset + k] := pixel[k];
    }
    assert bytes[offset..offset + size] == pixel[..size];
    forall j: nat | HoldsPixel(before, j, size, pixel) ensures HoldsPixel(bytes[..], j, size, pixel) {
      OtherPixelsKept(before, bytes[..], i, j, size, pixel);
    }
  }

  /** (x, y) comes before (x', y') in scanline order. */
  predicate Before(x: nat, y: nat, x': nat, y': nat) {
    y < y' || (y == y' && x < x')
  }

  ghost predicate Painted(info: FrameBufferInfo, bytes: seq<uint8>, pixel: seq<uint8>, x: nat, y: nat) {
    forall x': nat, y': nat :: x' < info.width && Before(x', y', x, y) && InBuffer(info, x', y') ==>
      HoldsPixel(bytes, Offset(info.stride, x', y'), PixelSize(info), pixel)
  }

  lemma PaintedStep(info: FrameBufferInfo, before: seq<uint8>, after: seq<uint8>, pixel: seq<uint8>, x: nat, y: nat)
    requires Painted(info, before, pixel, x, y)
    requires forall j: nat :: HoldsPixel(before, j, PixelSize(info), pixel) ==>
               HoldsPixel(after, j, PixelSize(info), pixel)
    requires InBuffer(info, x, y) ==> HoldsPixel(after, Offset(info.stride, x, y), PixelSize(info), pixel)
    ensures Painted(info, after, pixel, x + 1, y)
  {
    forall x': nat, y': nat | x' < info.width && Before(x', y', x + 1, y) && InBuffer(info, x', y')
      ensures HoldsPixel(after, Offset(info.stride, x', y'), PixelSize(info), pixel)
    {
      assert Before(x', y', x, y) || (x' == x && y' == y);
    }
  }

  /** How many of the first `x` pixels of row `y` lie outside. */
  function OutsideInRow(info: FrameBufferInfo, x: nat, y: nat): nat {
    if x == 0 then 0 else OutsideInRow(info, x - 1, y) + One(!InBuffer(info, x - 1, y))
  }

  /** How many visible pixels of the first `y` rows lie outside. */
  function Outside(info: FrameBufferInfo, y: nat): nat {
    if y == 0 then 0 else Outside(info, y - 1) + OutsideInRow(info, info.width, y - 1)
  }

  lemma {:induction false} NoneOutsideInRow(info: FrameBufferInfo, x: nat, y: nat)
    ensures OutsideInRow(info, x, y) == 0 <==> forall x': nat :: x' < x ==> InBuffer(info, x', y)
  {
    if x > 0 {
      NoneOutsideInRow(info, x - 1, y);
    }
  }

  /** Nothing is outside if and only if every visible pixel is inside. */
  lemma {:induction false} NoneOutside(info: FrameBufferInfo, y: nat)
    ensures Outside(info, y) == 0 <==> forall x': nat, y': nat :: x' < info.width && y' < y ==> InBuffer(info, x', y')
  {
    if y > 0 {
      NoneOutside(info, y - 1);
      NoneOutsideInRow(info, info.width, y - 1);
    }
  }

  function FillFormat(info: FrameBufferInfo): PixelFormat {
    if FormatOf(info.formatRaw).Some? then FormatOf(info.formatRaw).value else Bgr
  }

  /** Raw format 0 stores red first, any other blue first. */
  lemma PaintedBytes(info: FrameBufferInfo, red: uint8, green: uint8, blue: uint8)
    ensures FillBytes(FillFormat(info), red, green, blue)
            == if info.formatRaw == 0 then [red, green, blue, 0] else [blue, green, red, 0]
  {
  }

  /** Paint one pixel, unless it would end past the reported size. */
  method FillPixel(info: FrameBufferInfo, bytes: array<uint8>, size: nat, pixel: seq<uint8>, x: nat, y: nat)
      returns (done: bool)
    requires bytes.Length == info.size && size == PixelSize(info) <= |pixel|
    requires LastPixelFits(info) && x < info.width && y < info.height
    modifies bytes
    ensures done <==> InBuffer(info, x, y)
    ensures done ==> HoldsPixel(bytes[..], Offset(info.stride, x, y), size, pixel)
    ensures forall j: nat :: HoldsPixel(old(bytes[..]), j, size, pixel) ==> HoldsPixel(bytes[..], j, size, pixel)
  {
    PixelFits(info, x, y);
    ghost var i := Offset(info.stride, x, y);
    assert (i + 1) * size == i * size + size;
    var index: uint64 := y * info.stride + x;
    var offset: uint64 := index * size;
    var end: uint64 := offset + size;
    done := end <= info.size;
    if done {
      PutPixel(bytes, index, size, pixel);
    }
  }

  /** `fill_screen`: paint what lies inside the reported size, and count the rest as
      skipped. */
  method FillScreen(info: FrameBufferInfo, bytes: array<uint8>, red: uint8, green: uint8, blue: uint8)
      returns (skipped: nat, fellBack: bool)
    requires bytes.Length == info.size && LastPixelFits(info)
    modifies bytes
    ensures fellBack <==> info.formatRaw > 1
    ensures skipped == Outside(info, info.height)
    ensures forall x: nat, y: nat :: x < info.width && y < info.height && InBuffer(info, x, y) ==>
              HoldsPixel(bytes[..], Offset(info.stride, x, y), PixelSize(info),
                         if info.formatRaw == 0 then [red, green, blue, 0] else [blue, green, red, 0])
  {
    PaintedBytes(info, red, green, blue);
    var format := FormatOf(info.formatRaw);
    fellBack := format.None?;
    var pixel := FillBytes(if format.Some? then format.value else Bgr, red, green, blue);
    var size := Min(info.bytesPerPixel, |pixel|);
    skipped := 0;
    for y := 0 to info.height
      invariant Painted(info, bytes[..], pixel, 0, y) && skipped == Outside(info, y)
    {
      for x := 0 to info.width
        invariant Painted(info, bytes[..], pixel, x, y) && skipped == Outside(info, y) + OutsideInRow(info, x, y)
      {
        ghost var before := bytes[..];
        var done := FillPixel(info, bytes, size, pixel, x, y);
        PaintedStep(info, before, bytes[..], pixel, x, y);
        skipped := if done then skipped else skipped + 1;
      }
    }
  }

  /** A buffer of bytes as the renderer's 32-bit pixels. */
  function PixelsOf(bytes: seq<uint8>): (pixels: seq<uint32>)
    ensures |pixels| == |bytes| / 4
    ensures forall i :: 0 <= i < |pixels| ==> pixels[i] == LittleEndian(bytes[4 * i..4 * i + 4])
  {
    seq(|bytes| / 4, i requires 0 <= i < |bytes| / 4 => LittleEndian(bytes[4 * i..4 * i + 4]))
  }

  lemma FilledIsBlank(info: FrameBufferInfo, bytes: seq<uint8>, pixels: array<uint32>)
    requires Accepts(info) && |bytes| == info.size && pixels[..] == PixelsOf(bytes)
    requires forall x: nat, y: nat :: x < info.width && y < info.height && InBuffer(info, x, y) ==>
               HoldsPixel(bytes, Offset(info.stride, x, y), PixelSize(info),
                          if info.formatRaw == 0 then [0x00, 0x33, 0x99, 0] else [0x99, 0x33, 0x00, 0])
    ensures Blank(info, pixels)
  {
    AcceptedFits(info);
    PaintedBytes(info, 0x00, 0x33, 0x99);
    forall x: nat, y: nat | x < info.width && y < info.height
      ensures Offset(info.stride, x, y) < pixels.Length
      ensures pixels[Offset(info.stride, x, y)] == Background(FormatOf(info.formatRaw).value)
    {
      var i := Offset(info.stride, x, y);
      assert InBuffer(info, x, y) && HoldsPixel(bytes, i, 4, FillBytes(FillFormat(info), 0x00, 0x33, 0x99));
      assert pixels[..][i] == LittleEndian(bytes[4 * i..4 * i + 4]);
    }
  }

  /** The boot order of `kernel_main`: paint, then start the console over the same
      memory. On any framebuffer the console accepts, nothing is skipped and it
      starts in step with its empty transcript. */
  method BringUp(info: FrameBufferInfo, bytes: array<uint8>, font: Font)
      returns (skipped: nat, fellBack: bool, console: Console?)
    requires bytes.Length == info.size && (Accepts(info) || LastPixelFits(info))
    modifies bytes
    ensures console != null <==> Accepts(info)
    ensures console != null ==>
              && skipped == 0 && !fellBack && fresh(console) && console.pixels[..] == PixelsOf(bytes[..])
              && console.Valid() && console.transcript == [] && Dressed(console, info, font)
  {
    if Accepts(info) { AcceptedFits(info); }
    skipped, fellBack := FillScreen(info, bytes, 0x00, 0x33, 0x99);
    NoneOutside(info, info.height);
    var view := PixelsOf(bytes[..]);
    var pixels := new uint32[info.size / 4](i requires 0 <= i < |view| => view[i]);
    if Accepts(info) { FilledIsBlank(info, bytes[..], pixels); }
    console := New(info, pixels, font);
  }
}
