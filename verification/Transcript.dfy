/** What the console ought to show: the transcript split into lines, wrapped
    lazily at the right edge, and its last rows painted cell by cell. */
module Transcript {
  import opened Machine

  const NEWLINE: uint8 := 10
  const RETURN: uint8 := 13

  /** Put byte `b` in front of `lines`. */
  function Cons(b: uint8, lines: seq<seq<uint8>>): (r: seq<seq<uint8>>)
    requires lines != []
    ensures r != []
  {
    if b == NEWLINE then [[]] + lines
    else if b == RETURN then lines
    else [[b] + lines[0]] + lines[1..]
  }

  /** Put byte `b` behind `lines`. */
  function Snoc(lines: seq<seq<uint8>>, b: uint8): (r: seq<seq<uint8>>)
    requires lines != []
    ensures r != []
  {
    if b == NEWLINE then lines + [[]]
    else if b == RETURN then lines
    else ButLast(lines) + [Last(lines) + [b]]
  }

  /** The lines of `s`, split at newlines, with carriage returns dropped. */
  function Split(s: seq<uint8>): (lines: seq<seq<uint8>>)
    ensures lines != []
  {
    if s == [] then [[]] else Cons(s[0], Split(s[1..]))
  }

  function WithoutReturns(s: seq<uint8>): seq<uint8> {
    if s == [] then [] else (if s[0] == RETURN then [] else [s[0]]) + WithoutReturns(s[1..])
  }

  /** Lines put together again, with a newline between each two. */
  function JoinLines(lines: seq<seq<uint8>>): seq<uint8>
    requires lines != []
  {
    if |lines| == 1 then lines[0] else lines[0] + [NEWLINE] + JoinLines(lines[1..])
  }

  lemma JoinCons(b: uint8, lines: seq<seq<uint8>>)
    requires lines != [] && b != RETURN
    ensures JoinLines(Cons(b, lines)) == [b] + JoinLines(lines)
  {
    if b == NEWLINE {
      assert ([[]] + lines)[1..] == lines;
      assert [] + [NEWLINE] + JoinLines(lines) == [NEWLINE] + JoinLines(lines);
    } else {
      assert Cons(b, lines)[1..] == lines[1..];
      if |lines| > 1 {
        ConcatAssoc([b], lines[0] + [NEWLINE], JoinLines(lines[1..]));
        ConcatAssoc([b], lines[0], [NEWLINE]);
      }
    }
  }

  lemma SplitHeads(b: uint8, lines: seq<seq<uint8>>)
    requires lines != [] && b != RETURN
    requires forall i :: 0 <= i < |lines| ==> NEWLINE !in lines[i] && RETURN !in lines[i]
    ensures forall i :: 0 <= i < |Cons(b, lines)| ==> NEWLINE !in Cons(b, lines)[i] && RETURN !in Cons(b, lines)[i]
  {
    var r := Cons(b, lines);
    forall i | 0 <= i < |r| ensures NEWLINE !in r[i] && RETURN !in r[i] {
      if b == NEWLINE {
        assert i > 0 ==> r[i] == lines[i - 1];
      } else if i > 0 {
        assert r[i] == lines[i];
      } else {
        assert r[0] == [b] + lines[0];
      }
    }
  }

  /** The lines hold no newline and no return, and joined by newlines they are the
      bytes written, less the returns. */
  lemma {:induction false} SplitIsExact(s: seq<uint8>)
    ensures JoinLines(Split(s)) == WithoutReturns(s)
    ensures forall i :: 0 <= i < |Split(s)| ==> NEWLINE !in Split(s)[i] && RETURN !in Split(s)[i]
  {
    if s != [] {
      SplitIsExact(s[1..]);
      if s[0] == RETURN {
        assert [] + WithoutReturns(s[1..]) == WithoutReturns(s[1..]);
      } else {
        JoinCons(s[0], Split(s[1..]));
        SplitHeads(s[0], Split(s[1..]));
      }
    }
  }

  /** One line cut into rows of at most `w`; a full last row is not followed by an empty one. */
  function Wrap(line: seq<uint8>, w: nat): (rows: seq<seq<uint8>>)
    requires w > 0
    ensures rows != []
    ensures forall i :: 0 <= i < |rows| ==> |rows[i]| <= w
  {
    if |line| <= w then [line] else [line[..w]] + Wrap(line[w..], w)
  }

  function Concat(rows: seq<seq<uint8>>): seq<uint8> {
    if rows == [] then [] else rows[0] + Concat(rows[1..])
  }

  /** The rows of a line make up the line, every one but the last is full, and the last
      is empty only if the line is. */
  lemma {:induction false} WrapIsExact(line: seq<uint8>, w: nat)
    requires w > 0
    ensures var rows := Wrap(line, w);
            && Concat(rows) == line
            && (forall i :: 0 <= i < |rows| - 1 ==> |rows[i]| == w)
            && (Last(rows) == [] ==> line == [])
    decreases |line|
  {
    var rows := Wrap(line, w);
    if |line| <= w {
      assert rows[1..] == [];
    } else {
      WrapIsExact(line[w..], w);
      assert rows[1..] == Wrap(line[w..], w);
      assert line == line[..w] + line[w..];
      assert Last(rows) == Last(rows[1..]);
      forall i | 0 <= i < |rows| - 1 ensures |rows[i]| == w {
        assert i > 0 ==> rows[i] == rows[1..][i - 1];
      }
    }
  }

  function WrapAll(lines: seq<seq<uint8>>, w: nat): (rows: seq<seq<uint8>>)
    requires w > 0
    ensures lines != [] ==> rows != []
    ensures forall i :: 0 <= i < |rows| ==> |rows[i]| <= w
  {
    if lines == [] then [] else Wrap(lines[0], w) + WrapAll(lines[1..], w)
  }

  /** Every row the transcript has produced so far, oldest first. */
  function Rows(s: seq<uint8>, w: nat): (rows: seq<seq<uint8>>)
    requires w > 0
    ensures rows != []
    ensures forall i :: 0 <= i < |rows| ==> |rows[i]| <= w
  {
    WrapAll(Split(s), w)
  }

  /** One more character: on the last row if it has room, and on a fresh one if not. */
  function Grow(rows: seq<seq<uint8>>, b: uint8, w: nat): (rows': seq<seq<uint8>>)
    requires rows != []
  {
    if |Last(rows)| >= w then rows + [[b]] else ButLast(rows) + [Last(rows) + [b]]
  }

  /** What one more byte does to the rows, as the console processes it. */
  function Feed(rows: seq<seq<uint8>>, b: uint8, w: nat): (rows': seq<seq<uint8>>)
    requires rows != []
  {
    if b == NEWLINE then rows + [[]]
    else if b == RETURN then rows
    else Grow(rows, b, w)
  }

  lemma ConsSnoc(a: uint8, lines: seq<seq<uint8>>, b: uint8)
    requires lines != []
    ensures Cons(a, Snoc(lines, b)) == Snoc(Cons(a, lines), b)
  {
    if a == RETURN || b == RETURN {
    } else if a == NEWLINE {
      ConcatAssoc([[]], lines, [[]]);
      assert Last([[]] + lines) == Last(lines) && ButLast([[]] + lines) == [[]] + ButLast(lines);
      ConcatAssoc([[]], ButLast(lines), [Last(lines) + [b]]);
    } else if b == NEWLINE {
      assert (lines + [[]])[1..] == lines[1..] + [[]] && (lines + [[]])[0] == lines[0];
      ConcatAssoc([[a] + lines[0]], lines[1..], [[]]);
    } else {
      if |lines| == 1 {
        assert [a] + (lines[0] + [b]) == [a] + lines[0] + [b];
        assert Cons(a, lines) == [[a] + lines[0]] && Snoc(lines, b) == [lines[0] + [b]];
      } else {
        assert ButLast(lines)[0] == lines[0];
        assert Last(Cons(a, lines)) == Last(lines);
      }
    }
  }

  lemma {:induction false} SplitSnoc(s: seq<uint8>, b: uint8)
    ensures Split(s + [b]) == Snoc(Split(s), b)
  {
    if s == [] {
      assert s + [b] == [b] && [b][1..] == [];
      assert Split([b]) == Cons(b, [[]]) && [b] + [] == [] + [b];
      assert Cons(b, [[]]) == Snoc([[]], b);
    } else {
      assert (s + [b])[1..] == s[1..] + [b];
      SplitSnoc(s[1..], b);
      ConsSnoc(s[0], Split(s[1..]), b);
    }
  }

  lemma GrowBehind(head: seq<uint8>, rows: seq<seq<uint8>>, b: uint8, w: nat)
    requires rows != []
    ensures [head] + Grow(rows, b, w) == Grow([head] + rows, b, w)
  {
    assert Last([head] + rows) == Last(rows);
    assert ButLast([head] + rows) == [head] + ButLast(rows);
  }

  lemma {:induction false} WrapSnoc(line: seq<uint8>, b: uint8, w: nat)
    requires w > 0
    ensures Wrap(line + [b], w) == Grow(Wrap(line, w), b, w)
    decreases |line|
  {
    if |line| < w {
    } else if |line| == w {
      assert (line + [b])[..w] == line && (line + [b])[w..] == [b];
      assert Wrap([b], w) == [[b]];
    } else {
      assert (line + [b])[..w] == line[..w] && (line + [b])[w..] == line[w..] + [b];
      assert Wrap(line + [b], w) == [line[..w]] + Wrap(line[w..] + [b], w);
      WrapSnoc(line[w..], b, w);
      GrowBehind(line[..w], Wrap(line[w..], w), b, w);
    }
  }

  lemma {:induction false} WrapAllConcat(a: seq<seq<uint8>>, b: seq<seq<uint8>>, w: nat)
    requires w > 0
    ensures WrapAll(a + b, w) == WrapAll(a, w) + WrapAll(b, w)
  {
    if a == [] {
      assert a + b == b;
    } else {
      assert (a + b)[1..] == a[1..] + b;
      WrapAllConcat(a[1..], b, w);
    }
  }

  lemma WrapOne(line: seq<uint8>, w: nat)
    requires w > 0
    ensures WrapAll([line], w) == Wrap(line, w)
  {
    assert [line][1..] == [];
  }

  lemma LastLine(head: seq<seq<uint8>>, line: seq<uint8>, w: nat)
    requires w > 0
    ensures WrapAll(head + [line], w) == WrapAll(head, w) + Wrap(line, w)
  {
    WrapAllConcat(head, [line], w);
    WrapOne(line, w);
  }

  lemma FeedConcat(head: seq<seq<uint8>>, tail: seq<seq<uint8>>, b: uint8, w: nat)
    requires tail != []
    ensures Feed(head + tail, b, w) == head + Feed(tail, b, w)
  {
    assert Last(head + tail) == Last(tail);
    assert ButLast(head + tail) == head + ButLast(tail);
  }

  /** Processing bytes one at a time gives the rows of the whole transcript. */
  lemma FeedIsRows(s: seq<uint8>, b: uint8, w: nat)
    requires w > 0
    ensures Rows(s + [b], w) == Feed(Rows(s, w), b, w)
  {
    SplitSnoc(s, b);
    var lines := Split(s);
    if b == NEWLINE {
      WrapAllConcat(lines, [[]], w);
      WrapOne([], w);
    } else if b != RETURN {
      LastLine(ButLast(lines), Last(lines), w);
      LastLine(ButLast(lines), Last(lines) + [b], w);
      assert lines == ButLast(lines) + [Last(lines)];
      WrapSnoc(Last(lines), b, w);
      FeedConcat(WrapAll(ButLast(lines), w), Wrap(Last(lines), w), b, w);
    }
  }

  /** What `write_str` sends for one byte: a return before each newline. */
  function Sent(b: uint8): seq<uint8> {
    if b == NEWLINE then [RETURN, b] else [b]
  }

  function Crlf(s: seq<uint8>): seq<uint8> {
    if s == [] then [] else Sent(s[0]) + Crlf(s[1..])
  }

  /** What the receiver recovers: the bytes, less a return directly before a newline. */
  function Received(wire: seq<uint8>): seq<uint8>
    decreases |wire|
  {
    if wire == [] then []
    else if |wire| >= 2 && wire[0] == RETURN && wire[1] == NEWLINE then [NEWLINE] + Received(wire[2..])
    else [wire[0]] + Received(wire[1..])
  }

  /** On the wire every newline directly follows a return, and without those returns
      the bytes are the string. */
  lemma {:induction false} CrlfIsExact(s: seq<uint8>)
    ensures var wire := Crlf(s);
            && Received(wire) == s
            && (forall i :: 0 <= i < |wire| && wire[i] == NEWLINE ==> i > 0 && wire[i - 1] == RETURN)
            && (wire != [] ==> wire[0] != NEWLINE)
  {
    if s != [] {
      var wire, rest := Crlf(s), Crlf(s[1..]);
      CrlfIsExact(s[1..]);
      assert s == [s[0]] + s[1..];
      if s[0] == NEWLINE {
        assert wire[2..] == rest;
        assert forall i :: 2 <= i < |wire| ==> wire[i] == rest[i - 2];
        forall i | 0 <= i < |wire| && wire[i] == NEWLINE ensures i > 0 && wire[i - 1] == RETURN {
          if i >= 2 { assert rest[i - 2] == NEWLINE && wire[i - 1] == rest[i - 3]; }
        }
      } else {
        assert wire[1..] == rest;
        forall i | 0 <= i < |wire| && wire[i] == NEWLINE ensures i > 0 && wire[i - 1] == RETURN {
          assert rest[i - 1] == NEWLINE && wire[i - 1] == rest[i - 2];
        }
      }
    }
  }

  lemma {:induction false} CrlfConcat(s: seq<uint8>, t: seq<uint8>)
    ensures Crlf(s + t) == Crlf(s) + Crlf(t)
  {
    if s == [] {
      assert s + t == t;
    } else {
      assert (s + t)[1..] == s[1..] + t;
      CrlfConcat(s[1..], t);
    }
  }

  lemma SplitSent(b: uint8, s: seq<uint8>)
    ensures Split(Sent(b) + s) == Cons(b, Split(s))
  {
    var out := Sent(b) + s;
    if b == NEWLINE {
      assert out[1..][0] == NEWLINE && out[1..][1..] == s;
    } else {
      assert out[1..] == s;
    }
  }

  /** The returns do not change what is shown. */
  lemma {:induction false} CrlfInvisible(s: seq<uint8>, t: seq<uint8>)
    ensures Split(Crlf(s) + t) == Split(s + t)
  {
    if s == [] {
      assert Crlf(s) + t == t && s + t == t;
    } else {
      assert (s + t)[1..] == s[1..] + t;
      assert Crlf(s) + t == Sent(s[0]) + (Crlf(s[1..]) + t);
      SplitSent(s[0], Crlf(s[1..]) + t);
      CrlfInvisible(s[1..], t);
    }
  }

  // ------------------------------------------------------------------ pictures

  const GLYPH_WIDTH: nat := 8
  const GLYPH_HEIGHT: nat := 16

  /** `GLYPHS`: sixteen scanlines for each printable character, leftmost pixel first. */
  type Font = f: seq<seq<bv8>> | |f| == 95 && forall i :: 0 <= i < |f| ==> |f[i]| == GLYPH_HEIGHT
    witness seq(95, _ => seq(GLYPH_HEIGHT, _ => 0))

  function Glyph(font: Font, byte: uint8): (bitmap: seq<bv8>)
    ensures |bitmap| == GLYPH_HEIGHT
  {
    font[if 0x20 <= byte <= 0x7e then byte - 0x20 else 0x3f - 0x20]
  }

  function Lit(scanline: bv8, dx: nat): bool
    requires dx < 8
  {
    scanline & (0x80 >> dx) != 0
  }

  /** The leftmost pixel is the most significant bit. */
  lemma LitIsBit(scanline: bv8, dx: nat)
    requires dx < 8
    ensures Lit(scanline, dx) <==> (scanline >> (7 - dx)) & 1 == 1
  {
    assert dx == 0 || dx == 1 || dx == 2 || dx == 3 || dx == 4 || dx == 5 || dx == 6 || dx == 7;
  }

  const QUESTION_MARK: uint8 := 0x3f

  /** Printable characters have their own glyphs, in order; any other byte shows as `?`. */
  lemma GlyphIsExact(font: Font, byte: uint8)
    ensures 0x20 <= byte <= 0x7e ==> Glyph(font, byte) == font[byte - 0x20]
    ensures byte < 0x20 || byte > 0x7e ==> Glyph(font, byte) == Glyph(font, QUESTION_MARK) == font[31]
  {
  }

  datatype Style = Style(font: Font, foreground: uint32, background: uint32)

  /** The rows on screen: the last `n` of them. */
  function Visible(rows: seq<seq<uint8>>, n: nat): seq<seq<uint8>> {
    if |rows| <= n then rows else rows[|rows| - n..]
  }

  /** The colour of pixel (x, y) when `shown` fills the screen from the top. */
  function PixelOf(style: Style, shown: seq<seq<uint8>>, x: nat, y: nat): uint32 {
    var c, r := x / GLYPH_WIDTH, y / GLYPH_HEIGHT;
    if r < |shown| && c < |shown[r]| && Lit(Glyph(style.font, shown[r][c])[y % GLYPH_HEIGHT], x % GLYPH_WIDTH)
    then style.foreground else style.background
  }

  lemma VisibleIsTail(rows: seq<seq<uint8>>, n: nat)
    ensures |Visible(rows, n)| == Min(|rows|, n) && Visible(rows, n) == rows[|rows| - |Visible(rows, n)|..]
  {
  }

  /** Pixel (dx, dy) of cell (c, r): that of the character's glyph, and background in
      a cell without one. */
  lemma CellPixel(style: Style, shown: seq<seq<uint8>>, c: nat, r: nat, dx: nat, dy: nat)
    requires dx < 8 && dy < 16
    ensures PixelOf(style, shown, c * 8 + dx, r * 16 + dy) ==
            if r < |shown| && c < |shown[r]| && (Glyph(style.font, shown[r][c])[dy] >> (7 - dx)) & 1 == 1
            then style.foreground else style.background
  {
    DivModUnique(c * 8 + dx, c, dx, 8);
    DivModUnique(r * 16 + dy, r, dy, 16);
    if r < |shown| && c < |shown[r]| {
      LitIsBit(Glyph(style.font, shown[r][c])[dy], dx);
    }
  }

  /** Scrolling in the reference: one more, empty, row on a full screen. */
  lemma ScrolledPicture(style: Style, rows: seq<seq<uint8>>, n: nat, height: nat, x: nat, y: nat)
    requires n == height / GLYPH_HEIGHT > 0 && |rows| >= n && y < height
    ensures PixelOf(style, Visible(rows + [[]], n), x, y) ==
            if y < height - GLYPH_HEIGHT then PixelOf(style, Visible(rows, n), x, y + GLYPH_HEIGHT)
            else style.background
  {
    var shown, shown' := Visible(rows, n), Visible(rows + [[]], n);
    assert shown' == shown[1..] + [[]];
    assert (y + GLYPH_HEIGHT) / GLYPH_HEIGHT == y / GLYPH_HEIGHT + 1;
    assert (y + GLYPH_HEIGHT) % GLYPH_HEIGHT == y % GLYPH_HEIGHT;
  }

  lemma OpenedPicture(style: Style, rows: seq<seq<uint8>>, n: nat, x: nat, y: nat)
    requires |rows| < n
    ensures PixelOf(style, Visible(rows + [[]], n), x, y) == PixelOf(style, Visible(rows, n), x, y)
  {
  }

  /** Typing in the reference changes one cell. */
  lemma TypedPicture(style: Style, rows: seq<seq<uint8>>, n: nat, b: uint8, x: nat, y: nat)
    requires n > 0 && rows != []
    ensures var shown := Visible(rows, n);
            PixelOf(style, Visible(ButLast(rows) + [Last(rows) + [b]], n), x, y) ==
            if y / GLYPH_HEIGHT == |shown| - 1 && x / GLYPH_WIDTH == |Last(rows)| then
              if Lit(Glyph(style.font, b)[y % GLYPH_HEIGHT], x % GLYPH_WIDTH) then style.foreground
              else style.background
            else PixelOf(style, shown, x, y)
  {
    var shown := Visible(rows, n);
    assert Visible(ButLast(rows) + [Last(rows) + [b]], n) == ButLast(shown) + [Last(shown) + [b]];
    assert Last(shown) == Last(rows);
  }

  /** A space looks like an empty cell when its glyph is blank. */
  lemma SpaceIsBlank(style: Style, rows: seq<seq<uint8>>, x: nat, y: nat)
    requires style.font[0] == seq(GLYPH_HEIGHT, _ => 0)
    requires var c, r := x / GLYPH_WIDTH, y / GLYPH_HEIGHT;
             r < |rows| && c < |rows[r]| && rows[r][c] == 0x20
    ensures PixelOf(style, rows, x, y) == style.background
  {
    var bits: bv8 := 0;
    assert Glyph(style.font, 0x20)[y % GLYPH_HEIGHT] == bits;
    assert bits & (0x80 >> (x % GLYPH_WIDTH)) == 0;
  }
}
