/**
 The framebuffer: rows of 32-bit pixels at a pitch, in one byte buffer. Everything the kernel
 shows is drawn pixel by pixel through `draw_pixel`; glyphs, pictures and the cleared screen
 are all bitmaps drawn row by row.
 */
module Framebuffer {
  import opened Rust
  import opened Arithmetic

  datatype Screen = Screen(width: nat, height: nat, pitch: nat)

  /** What the boot protocol promises of a framebuffer: rows do not overlap, and the buffer
      holds them all. */
  predicate Sound(s: Screen, buffer: seq<u8>) {
    4 * s.width <= s.pitch && |buffer| == s.height * s.pitch
  }

  /** The native little-endian bytes of a colour. */
  function ColorBytes(color: u32): (bytes: seq<u8>)
    ensures |bytes| == 4
  {
    [color % 256, color / 0x100 % 256, color / 0x1_0000 % 256, color / 0x100_0000]
  }

  function PixelOffset(pitch: nat, x: nat, y: nat): nat {
    y * pitch + x * 4
  }

  /** One pixel written into the buffer, or a write outside it. */
  function Plot(buffer: seq<u8>, pitch: nat, x: nat, y: nat, color: u32): (r: Outcome<seq<u8>>)
    ensures r.Returns? ==> |r.value| == |buffer|
  {
    var offset := PixelOffset(pitch, x, y);
    if offset + 4 > |buffer| then Strays
    else Returns(buffer[..offset] + ColorBytes(color) + buffer[offset + 4..])
  }

  /** Rows of colours and where the top left corner goes. */
  datatype Bitmap = Bitmap(x: nat, y: nat, rows: seq<seq<u32>>)

  /** The drawing of a bitmap, row by row, from one of its pixels on. */
  function Draw(buffer: seq<u8>, pitch: nat, b: Bitmap, row: nat, column: nat): (r: Outcome<seq<u8>>)
    ensures r.Returns? ==> |r.value| == |buffer|
    decreases |b.rows| - row, if row < |b.rows| then |b.rows[row]| - column else 0
  {
    if row >= |b.rows| then Returns(buffer)
    else if column >= |b.rows[row]| then Draw(buffer, pitch, b, row + 1, 0)
    else
      var plotted :- Plot(buffer, pitch, b.x + column, b.y + row, b.rows[row][column]);
      Draw(plotted, pitch, b, row, column + 1)
  }

  function DrawAll(buffer: seq<u8>, pitch: nat, bitmaps: seq<Bitmap>): (r: Outcome<seq<u8>>)
    ensures r.Returns? ==> |r.value| == |buffer|
    decreases bitmaps
  {
    if bitmaps == [] then Returns(buffer)
    else
      var drawn :- Draw(buffer, pitch, bitmaps[0], 0, 0);
      DrawAll(drawn, pitch, bitmaps[1..])
  }

  // ------------------------------------------------------------- one pixel

  predicate OnScreen(s: Screen, x: nat, y: nat) {
    x < s.width && y < s.height
  }

  function PixelAt(s: Screen, buffer: seq<u8>, x: nat, y: nat): seq<u8>
    requires Sound(s, buffer) && OnScreen(s, x, y)
  {
    PixelInside(s, x, y);
    buffer[PixelOffset(s.pitch, x, y)..PixelOffset(s.pitch, x, y) + 4]
  }

  /** The bytes between the end of one row's pixels and the start of the next row's. */
  predicate IsPadding(s: Screen, y: nat, k: nat) {
    y < s.height && 4 * s.width <= k < s.pitch
  }

  function PaddingAt(s: Screen, buffer: seq<u8>, y: nat, k: nat): u8
    requires Sound(s, buffer) && IsPadding(s, y, k)
  {
    RowInside(s, y);
    buffer[y * s.pitch + k]
  }

  lemma RowInside(s: Screen, y: nat)
    requires y < s.height
    ensures y * s.pitch + s.pitch <= s.height * s.pitch
  {
    MulMonotonic(s.pitch, y + 1, s.height);
  }

  lemma PixelInside(s: Screen, x: nat, y: nat)
    requires 4 * s.width <= s.pitch && OnScreen(s, x, y)
    ensures PixelOffset(s.pitch, x, y) + 4 <= y * s.pitch + s.pitch <= s.height * s.pitch
  {
    RowInside(s, y);
  }

  lemma RowsApart(pitch: nat, y: nat, z: nat)
    requires y < z
    ensures y * pitch + pitch <= z * pitch
  {
    MulMonotonic(pitch, y + 1, z);
  }

  /** Different pixels of a screen share no byte. */
  lemma PixelsApart(s: Screen, x: nat, y: nat, u: nat, v: nat)
    requires 4 * s.width <= s.pitch && OnScreen(s, x, y) && OnScreen(s, u, v) && (x, y) != (u, v)
    ensures var p, q := PixelOffset(s.pitch, x, y), PixelOffset(s.pitch, u, v); p + 4 <= q || q + 4 <= p
  {
    if y < v {
      RowsApart(s.pitch, y, v);
    } else if v < y {
      RowsApart(s.pitch, v, y);
    }
  }

  lemma PaddingApart(s: Screen, x: nat, y: nat, v: nat, k: nat)
    requires 4 * s.width <= s.pitch && OnScreen(s, x, y) && IsPadding(s, v, k)
    ensures var p, q := PixelOffset(s.pitch, x, y), v * s.pitch + k; p + 4 <= q || q < p
  {
    if y < v {
      RowsApart(s.pitch, y, v);
    } else if v < y {
      RowsApart(s.pitch, v, y);
    }
  }

  lemma SpliceAt(buffer: seq<u8>, p: nat, bytes: seq<u8>, i: nat)
    requires |bytes| == 4 && p + 4 <= |buffer| && i < |buffer| && (i < p || p + 4 <= i)
    ensures (buffer[..p] + bytes + buffer[p + 4..])[i] == buffer[i]
  {
  }

  lemma SpliceElsewhere(buffer: seq<u8>, p: nat, bytes: seq<u8>, q: nat, n: nat)
    requires |bytes| == 4 && p + 4 <= |buffer| && q + n <= |buffer| && (p + 4 <= q || q + n <= p)
    ensures (buffer[..p] + bytes + buffer[p + 4..])[q..q + n] == buffer[q..q + n]
  {
    forall i | q <= i < q + n
      ensures (buffer[..p] + bytes + buffer[p + 4..])[i] == buffer[i]
    {
      SpliceAt(buffer, p, bytes, i);
    }
  }

  /** On a sound screen, plotting sets its own pixel and no other. */
  lemma PlotPixel(s: Screen, buffer: seq<u8>, x: nat, y: nat, color: u32, u: nat, v: nat)
    requires Sound(s, buffer) && OnScreen(s, x, y) && OnScreen(s, u, v)
    ensures Plot(buffer, s.pitch, x, y, color).Returns?
    ensures PixelAt(s, Plot(buffer, s.pitch, x, y, color).value, u, v) ==
            if (u, v) == (x, y) then ColorBytes(color) else PixelAt(s, buffer, u, v)
  {
    hide PixelOffset, ColorBytes;
    PixelInside(s, x, y);
    PixelInside(s, u, v);
    if (u, v) != (x, y) {
      PixelsApart(s, x, y, u, v);
      SpliceElsewhere(buffer, PixelOffset(s.pitch, x, y), ColorBytes(color), PixelOffset(s.pitch, u, v), 4);
    }
  }

  lemma PlotPadding(s: Screen, buffer: seq<u8>, x: nat, y: nat, color: u32, v: nat, k: nat)
    requires Sound(s, buffer) && OnScreen(s, x, y) && IsPadding(s, v, k)
    ensures Plot(buffer, s.pitch, x, y, color).Returns?
    ensures PaddingAt(s, Plot(buffer, s.pitch, x, y, color).value, v, k) == PaddingAt(s, buffer, v, k)
  {
    hide PixelOffset, ColorBytes;
    PixelInside(s, x, y);
    RowInside(s, v);
    PaddingApart(s, x, y, v, k);
  }

  // ------------------------------------------------------------- one bitmap

  predicate Fits(s: Screen, b: Bitmap) {
    && b.y + |b.rows| <= s.height
    && forall i :: 0 <= i < |b.rows| ==> b.x + |b.rows[i]| <= s.width
  }

  predicate Covers(b: Bitmap, x: nat, y: nat) {
    b.y <= y < b.y + |b.rows| && b.x <= x < b.x + |b.rows[y - b.y]|
  }

  /** The pixels of a bitmap that are still to be drawn from one of them on. */
  predicate Ahead(b: Bitmap, row: nat, column: nat, x: nat, y: nat) {
    Covers(b, x, y) && (y - b.y > row || (y - b.y == row && x - b.x >= column))
  }

  lemma {:induction false} DrawPixels(s: Screen, buffer: seq<u8>, b: Bitmap, row: nat, column: nat, x: nat, y: nat)
    requires Sound(s, buffer) && Fits(s, b) && OnScreen(s, x, y)
    ensures Draw(buffer, s.pitch, b, row, column).Returns?
    ensures PixelAt(s, Draw(buffer, s.pitch, b, row, column).value, x, y) ==
            if Ahead(b, row, column, x, y) then ColorBytes(b.rows[y - b.y][x - b.x]) else PixelAt(s, buffer, x, y)
    decreases |b.rows| - row, if row < |b.rows| then |b.rows[row]| - column else 0
  {
    hide PixelAt, ColorBytes, Plot;
    if row >= |b.rows| {
    } else {
      if column >= |b.rows[row]| {
        DrawPixels(s, buffer, b, row + 1, 0, x, y);
      } else {
        var color := b.rows[row][column];
        PlotPixel(s, buffer, b.x + column, b.y + row, color, x, y);
        DrawPixels(s, Plot(buffer, s.pitch, b.x + column, b.y + row, color).value, b, row, column + 1, x, y);
      }
    }
  }

  lemma {:induction false} DrawPadding(s: Screen, buffer: seq<u8>, b: Bitmap, row: nat, column: nat, v: nat, k: nat)
    requires Sound(s, buffer) && Fits(s, b) && IsPadding(s, v, k)
    ensures Draw(buffer, s.pitch, b, row, column).Returns?
    ensures PaddingAt(s, Draw(buffer, s.pitch, b, row, column).value, v, k) == PaddingAt(s, buffer, v, k)
    decreases |b.rows| - row, if row < |b.rows| then |b.rows[row]| - column else 0
  {
    hide PaddingAt, ColorBytes, Plot;
    if row >= |b.rows| {
    } else {
      if column >= |b.rows[row]| {
        DrawPadding(s, buffer, b, row + 1, 0, v, k);
      } else {
        var color := b.rows[row][column];
        PlotPadding(s, buffer, b.x + column, b.y + row, color, v, k);
        DrawPadding(s, Plot(buffer, s.pitch, b.x + column, b.y + row, color).value, b, row, column + 1, v, k);
      }
    }
  }

  // --------------------------------------------------- bitmaps one after another

  /** What is on a screen where bitmaps have been drawn over a picture: at each pixel the
      colour of the last bitmap that covers it, elsewhere what was there before; and the
      bytes between the rows untouched. */
  ghost predicate Shows(s: Screen, before: seq<u8>, bitmaps: seq<Bitmap>, after: seq<u8>)
    requires Sound(s, before) && Sound(s, after)
  {
    && (forall x, y :: OnScreen(s, x, y) ==> PixelAt(s, after, x, y) == Seen(s, before, bitmaps, x, y))
    && (forall y, k :: IsPadding(s, y, k) ==> PaddingAt(s, after, y, k) == PaddingAt(s, before, y, k))
  }

  function Seen(s: Screen, before: seq<u8>, bitmaps: seq<Bitmap>, x: nat, y: nat): seq<u8>
    requires Sound(s, before) && OnScreen(s, x, y)
  {
    if bitmaps == [] then PixelAt(s, before, x, y)
    else
      var last := bitmaps[|bitmaps| - 1];
      if Covers(last, x, y) then ColorBytes(last.rows[y - last.y][x - last.x])
      else Seen(s, before, bitmaps[..|bitmaps| - 1], x, y)
  }

  /** Bitmaps drawn over a picture that already shows others. */
  lemma {:induction false} SeenOver(s: Screen, before: seq<u8>, first: seq<Bitmap>, middle: seq<u8>, later: seq<Bitmap>,
                                    x: nat, y: nat)
    requires Sound(s, before) && Sound(s, middle) && OnScreen(s, x, y)
    requires PixelAt(s, middle, x, y) == Seen(s, before, first, x, y)
    ensures Seen(s, middle, later, x, y) == Seen(s, before, first + later, x, y)
  {
    hide PixelAt, Covers, ColorBytes;
    if later == [] {
      assert first + later == first;
    } else {
      assert (first + later)[..|first + later| - 1] == first + later[..|later| - 1];
      SeenOver(s, before, first, middle, later[..|later| - 1], x, y);
    }
  }

  lemma ShowsOver(s: Screen, before: seq<u8>, first: seq<Bitmap>, middle: seq<u8>, later: seq<Bitmap>, after: seq<u8>)
    requires Sound(s, before) && Sound(s, middle) && Sound(s, after)
    requires Shows(s, before, first, middle) && Shows(s, middle, later, after)
    ensures Shows(s, before, first + later, after)
  {
    hide PixelAt, PaddingAt, Seen;
    forall x: nat, y: nat | OnScreen(s, x, y)
      ensures PixelAt(s, after, x, y) == Seen(s, before, first + later, x, y)
    {
      SeenOver(s, before, first, middle, later, x, y);
    }
  }

  predicate AllFit(s: Screen, bitmaps: seq<Bitmap>) {
    forall i :: 0 <= i < |bitmaps| ==> Fits(s, bitmaps[i])
  }

  lemma {:induction false} DrawAllSnoc(buffer: seq<u8>, pitch: nat, bitmaps: seq<Bitmap>, b: Bitmap)
    ensures DrawAll(buffer, pitch, bitmaps + [b]) ==
            match DrawAll(buffer, pitch, bitmaps)
            case Returns(drawn) => Draw(drawn, pitch, b, 0, 0)
            case Panics => Panics
            case Strays => Strays
    decreases bitmaps
  {
    hide Draw;
    var all := bitmaps + [b];
    if bitmaps == [] {
      assert all == [b] && all[1..] == [];
    } else {
      assert all[1..] == bitmaps[1..] + [b];
      var first := Draw(buffer, pitch, bitmaps[0], 0, 0);
      if first.Returns? {
        DrawAllSnoc(first.value, pitch, bitmaps[1..], b);
      }
    }
  }

  /** Drawing bitmaps that fit on a sound screen succeeds, and shows them. */
  lemma {:induction false} DrawAllShows(s: Screen, buffer: seq<u8>, bitmaps: seq<Bitmap>)
    requires Sound(s, buffer) && AllFit(s, bitmaps)
    ensures DrawAll(buffer, s.pitch, bitmaps).Returns?
    ensures Shows(s, buffer, bitmaps, DrawAll(buffer, s.pitch, bitmaps).value)
    decreases |bitmaps|
  {
    if bitmaps == [] {
    } else {
      hide Draw, PixelAt, PaddingAt, ColorBytes, Fits, DrawAll;
      var rest, last := bitmaps[..|bitmaps| - 1], bitmaps[|bitmaps| - 1];
      assert bitmaps == rest + [last];
      DrawAllShows(s, buffer, rest);
      DrawAllSnoc(buffer, s.pitch, rest, last);
      var drawn := DrawAll(buffer, s.pitch, rest).value;
      DrawSucceeds(s, drawn, last);
      var after := Draw(drawn, s.pitch, last, 0, 0).value;
      forall x, y | OnScreen(s, x, y)
        ensures PixelAt(s, after, x, y) == Seen(s, buffer, bitmaps, x, y)
      {
        DrawPixels(s, drawn, last, 0, 0, x, y);
      }
      forall y, k | IsPadding(s, y, k)
        ensures PaddingAt(s, after, y, k) == PaddingAt(s, buffer, y, k)
      {
        DrawPadding(s, drawn, last, 0, 0, y, k);
      }
    }
  }

  lemma {:induction false} DrawFromSucceeds(s: Screen, buffer: seq<u8>, b: Bitmap, row: nat, column: nat)
    requires Sound(s, buffer) && Fits(s, b)
    ensures Draw(buffer, s.pitch, b, row, column).Returns?
    decreases |b.rows| - row, if row < |b.rows| then |b.rows[row]| - column else 0
  {
    if row >= |b.rows| {
    } else {
      if column >= |b.rows[row]| {
        DrawFromSucceeds(s, buffer, b, row + 1, 0);
      } else {
        PixelInside(s, b.x + column, b.y + row);
        hide PixelOffset;
        DrawFromSucceeds(s, Plot(buffer, s.pitch, b.x + column, b.y + row, b.rows[row][column]).value, b, row, column + 1);
      }
    }
  }

  lemma DrawSucceeds(s: Screen, buffer: seq<u8>, b: Bitmap)
    requires Sound(s, buffer) && Fits(s, b)
    ensures Draw(buffer, s.pitch, b, 0, 0).Returns?
  {
    DrawFromSucceeds(s, buffer, b, 0, 0);
  }

  // ------------------------------------------------------- inside the buffer or not

  /** A rectangle of pixels, at least one. */
  predicate IsRectangle(b: Bitmap, width: nat) {
    width > 0 && b.rows != [] && forall i :: 0 <= i < |b.rows| ==> |b.rows[i]| == width
  }

  /** Whether the last pixel of a rectangle, its bottom right one, lies in a buffer. */
  predicate EndsInside(pitch: nat, b: Bitmap, width: nat, length: nat)
    requires IsRectangle(b, width)
  {
    PixelOffset(pitch, b.x + width - 1, b.y + |b.rows| - 1) + 4 <= length
  }

  lemma OffsetsRise(pitch: nat, x: nat, y: nat, u: nat, v: nat)
    requires x <= u && y <= v
    ensures PixelOffset(pitch, x, y) <= PixelOffset(pitch, u, v)
  {
    MulMonotonic(pitch, y, v);
  }

  lemma {:induction false} DrawFromEnds(buffer: seq<u8>, pitch: nat, b: Bitmap, width: nat, row: nat, column: nat)
    requires IsRectangle(b, width) && row < |b.rows| && column <= width
    requires row == |b.rows| - 1 ==> column < width
    ensures if EndsInside(pitch, b, width, |buffer|) then Draw(buffer, pitch, b, row, column).Returns?
            else Draw(buffer, pitch, b, row, column) == Strays
    decreases |b.rows| - row, width - column
  {
    hide PixelOffset, ColorBytes;
    var last := |b.rows| - 1;
    if column == width {
      DrawFromEnds(buffer, pitch, b, width, row + 1, 0);
    } else {
      OffsetsRise(pitch, b.x + column, b.y + row, b.x + width - 1, b.y + last);
      var plotted := Plot(buffer, pitch, b.x + column, b.y + row, b.rows[row][column]);
      if plotted.Returns? && (row < last || column + 1 < width) {
        DrawFromEnds(plotted.value, pitch, b, width, row, column + 1);
      } else if plotted.Returns? {
        assert Draw(plotted.value, pitch, b, row + 1, 0) == plotted;
      }
    }
  }

  /** A rectangle of pixels is drawn if its last pixel lies in the buffer, and strays if not. */
  lemma DrawEnds(buffer: seq<u8>, pitch: nat, b: Bitmap, width: nat)
    requires IsRectangle(b, width)
    ensures if EndsInside(pitch, b, width, |buffer|) then Draw(buffer, pitch, b, 0, 0).Returns?
            else Draw(buffer, pitch, b, 0, 0) == Strays
  {
    DrawFromEnds(buffer, pitch, b, width, 0, 0);
  }
}
