/**
 A writer for the binary Netpbm formats (P4, P5, P6) in their canonical form, what the kernel's
 reader makes of its files, and what drawing a picture does to the framebuffer.
 */
module Netpbm {
  import opened Rust
  import opened Sequences
  import opened Utf8
  import opened Numerals
  import opened Initrd
  import opened Framebuffer
  import opened Image
  import opened ImageHeaders

  // ------------------------------------------------------------------- writing

  function Magic(kind: Kind): string {
    match kind case Pbm => "P4" case Pgm => "P5" case Ppm => "P6"
  }

  function SizeText(p: Picture): string {
    Decimal(p.width) + " " + Decimal(p.height)
  }

  /** The header without the newline that ends it. */
  function HeaderText(kind: Kind, p: Picture): string {
    Magic(kind) + "\n" + SizeText(p) + if kind == Pbm then "" else "\n" + "255"
  }

  function BitAt(row: seq<Pixel>, x: nat): bool {
    x < |row| && row[x].red == 0
  }

  function Pack(bits: seq<bool>): (n: nat)
    ensures n < Pow(2, |bits|)
  {
    if bits == [] then 0
    else 2 * Pack(bits[..|bits| - 1]) + if bits[|bits| - 1] then 1 else 0
  }

  /** Eight pixels of a bitmap row, black ones as ones, from the left; past the end, zeros. */
  function Packed(row: seq<Pixel>, x: nat): u8 {
    assert Pow(2, 4) == 16;
    assert Pow(2, 8) == 256;
    Pack(Bits(row, x))
  }

  function Bits(row: seq<Pixel>, x: nat): (bits: seq<bool>)
    ensures |bits| == 8
  {
    seq(8, j requires 0 <= j < 8 => BitAt(row, x + j))
  }

  function Stride(width: nat): nat {
    (width + 7) / 8
  }

  function RowBytes(kind: Kind, row: seq<Pixel>): seq<u8> {
    match kind
    case Pbm => seq(Stride(|row|), k requires k >= 0 => Packed(row, 8 * k))
    case Pgm => seq(|row|, x requires 0 <= x < |row| => row[x].red)
    case Ppm => Flat(seq(|row|, x requires 0 <= x < |row| => [row[x].red, row[x].green, row[x].blue]))
  }

  function RasterBytes(kind: Kind, p: Picture): seq<u8> {
    Flat(seq(|p.data|, y requires 0 <= y < |p.data| => RowBytes(kind, p.data[y])))
  }

  function Encoded(kind: Kind, p: Picture): seq<u8> {
    EncodeString(HeaderText(kind, p)) + [NEWLINE] + RasterBytes(kind, p)
  }

  /** The pixels a format can hold. */
  predicate Holds(kind: Kind, pixel: Pixel) {
    match kind
    case Pbm => pixel == Pixel(0, 0, 0) || pixel == Pixel(0xFF, 0xFF, 0xFF)
    case Pgm => pixel.red == pixel.green == pixel.blue
    case Ppm => true
  }

  /** A picture a file of the kind can hold, of a size the reader's integers can hold. */
  predicate Representable(kind: Kind, p: Picture) {
    && Rectangular(p) && p.width < TWO_POW_64 && p.height < TWO_POW_64
    && forall y, x :: 0 <= y < p.height && 0 <= x < p.width ==> Holds(kind, p.data[y][x])
  }

  // ---------------------------------------------------------------- the header

  lemma DecimalWord(n: nat)
    ensures IsWord(Decimal(n)) && Ascii(Decimal(n))
  {
    assert forall i :: 0 <= i < |Decimal(n)| ==> IsDigit(Decimal(n)[i], 10);
  }

  lemma HeaderWords(kind: Kind, p: Picture)
    ensures |Words(HeaderText(kind, p))| >= 3
    ensures Words(HeaderText(kind, p))[1..3] == [Decimal(p.width), Decimal(p.height)]
  {
    hide Words, WordLength, Decimal;
    DecimalWord(p.width);
    DecimalWord(p.height);
    var end := if kind == Pbm then "" else "\n" + "255";
    var size := SizeText(p) + end;
    var height := Decimal(p.height) + end;
    assert HeaderText(kind, p) == Magic(kind) + ("\n" + size);
    assert size == Decimal(p.width) + (" " + height);
    WordRead(Magic(kind), "\n" + size);
    GapSkipped("\n", size);
    WordRead(Decimal(p.width), " " + height);
    GapSkipped(" ", height);
    WordRead(Decimal(p.height), end);
  }

  lemma PlainLine(s: string)
    requires Ascii(s) && '\n' !in s
    ensures Newlines(EncodeString(s)) == 0
  {
    EncodeAscii(s);
    NoNewlines(EncodeString(s));
  }

  lemma SizeTextPlain(p: Picture)
    ensures Ascii(SizeText(p)) && '\n' !in SizeText(p)
  {
    hide Decimal;
    DecimalWord(p.width);
    DecimalWord(p.height);
  }

  lemma OneMoreLine(s: string, line: string)
    requires Ascii(line) && '\n' !in line
    ensures Newlines(EncodeString(s + "\n" + line)) == Newlines(EncodeString(s)) + 1
  {
    hide EncodeString;
    PlainLine(line);
    OneNewline();
    EncodeConcat(s, "\n");
    EncodeConcat(s + "\n", line);
    NewlinesConcat(EncodeString(s), EncodeString("\n"));
    NewlinesConcat(EncodeString(s + "\n"), EncodeString(line));
  }

  lemma OneNewline()
    ensures EncodeString("\n") == [NEWLINE]
  {
    assert "\n"[1..] == "";
    assert Encode('\n') == [NEWLINE];
  }

  lemma HeaderLines(kind: Kind, p: Picture)
    ensures Newlines(EncodeString(HeaderText(kind, p))) == if kind == Pbm then 1 else 2
  {
    hide Newlines, EncodeString, SizeText;
    PlainLine(Magic(kind));
    SizeTextPlain(p);
    var first := Magic(kind) + "\n" + SizeText(p);
    OneMoreLine(Magic(kind), SizeText(p));
    if kind == Pbm {
      assert HeaderText(kind, p) == first;
    } else {
      OneMoreLine(first, "255");
      assert HeaderText(kind, p) == first + "\n" + "255";
    }
  }

  /** The reader finds the size that was written, and exactly the raster, whatever bytes that
      holds. */
  lemma LayoutRoundTrip(kind: Kind, p: Picture)
    requires p.width < TWO_POW_64 && p.height < TWO_POW_64
    ensures ReadLayout(Encoded(kind, p), kind) == Returns(Layout(p.width, p.height, RasterBytes(kind, p)))
  {
    hide ReadLayout, EncodeString, Words, HeaderText, RasterBytes, Decimal, Newlines, Spells;
    HeaderLines(kind, p);
    HeaderWords(kind, p);
    var fields := Words(HeaderText(kind, p));
    assert fields[1] == fields[1..3][0] && fields[2] == fields[1..3][1];
    DecimalSpells(p.width);
    DecimalSpells(p.height);
    LayoutRead(Encoded(kind, p), kind, Layout(p.width, p.height, RasterBytes(kind, p)), HeaderText(kind, p));
  }

  lemma DecimalSpells(n: nat)
    requires n < TWO_POW_64
    ensures Spells(Decimal(n), 10, n)
  {
    DecimalRoundTrip(n, TWO_POW_64);
    ReadIff(Decimal(n), 10, TWO_POW_64, n);
  }

  // ---------------------------------------------------------------- the raster

  /** Where pieces that are n long each start, and where the last one ends. */
  function Multiples(count: nat, n: nat): (offsets: seq<nat>)
    ensures |offsets| == count + 1
  {
    seq(count + 1, k requires k >= 0 => k * n)
  }

  lemma EvenlySpaced<T>(pieces: seq<seq<T>>, n: nat)
    requires forall k :: 0 <= k < |pieces| ==> |pieces[k]| == n
    ensures Spaced(pieces, Multiples(|pieces|, n))
  {
    assert 0 * n == 0;
    forall k | 0 <= k < |pieces|
      ensures (k + 1) * n == k * n + |pieces[k]|
    {
    }
  }

  lemma EvenLength<T>(pieces: seq<seq<T>>, n: nat)
    requires forall k :: 0 <= k < |pieces| ==> |pieces[k]| == n
    ensures |Flat(pieces)| == |pieces| * n
  {
    hide Spaced, Flat;
    EvenlySpaced(pieces, n);
    FlatLength(pieces, Multiples(|pieces|, n));
  }

  /** The index of the j-th of row i's elements, when rows are n long. */
  function IndexIn(i: nat, n: nat, j: nat): nat {
    i * n + j
  }

  lemma FlatAt<T>(pieces: seq<seq<T>>, n: nat, i: nat, j: nat)
    requires forall k :: 0 <= k < |pieces| ==> |pieces[k]| == n
    requires i < |pieces| && j < n
    ensures IndexIn(i, n, j) < |Flat(pieces)|
    ensures Flat(pieces)[IndexIn(i, n, j)] == pieces[i][j]
  {
    hide Spaced, Flat;
    var offsets := Multiples(|pieces|, n);
    EvenlySpaced(pieces, n);
    FlatSlice(pieces, offsets, i);
    assert Flat(pieces)[offsets[i]..offsets[i + 1]][j] == pieces[i][j];
  }

  function BytesPerRow(kind: Kind, width: nat): nat {
    match kind
    case Pbm => Stride(width)
    case Pgm => width
    case Ppm => width * 3
  }

  lemma RowLength(kind: Kind, row: seq<Pixel>)
    ensures |RowBytes(kind, row)| == BytesPerRow(kind, |row|)
  {
    if kind == Ppm {
      EvenLength(seq(|row|, x requires 0 <= x < |row| => [row[x].red, row[x].green, row[x].blue]), 3);
    }
  }

  lemma RasterAt(kind: Kind, p: Picture, y: nat, j: nat)
    requires Rectangular(p) && y < p.height && j < BytesPerRow(kind, p.width)
    ensures |RowBytes(kind, p.data[y])| == BytesPerRow(kind, p.width)
    ensures IndexIn(y, BytesPerRow(kind, p.width), j) < |RasterBytes(kind, p)|
    ensures RasterBytes(kind, p)[IndexIn(y, BytesPerRow(kind, p.width), j)] == RowBytes(kind, p.data[y])[j]
  {
    hide BytesPerRow, RowBytes, Flat, IndexIn;
    var n := BytesPerRow(kind, p.width);
    var rows := seq(|p.data|, v requires 0 <= v < |p.data| => RowBytes(kind, p.data[v]));
    forall v | 0 <= v < |p.data|
      ensures |rows[v]| == n
    {
      RowLength(kind, p.data[v]);
    }
    FlatAt(rows, n, y, j);
  }

  lemma ColorRowAt(row: seq<Pixel>, x: nat, c: nat)
    requires x < |row| && c < 3
    ensures 3 * x + c < |RowBytes(Ppm, row)|
    ensures RowBytes(Ppm, row)[3 * x + c] == [row[x].red, row[x].green, row[x].blue][c]
  {
    FlatAt(seq(|row|, u requires 0 <= u < |row| => [row[u].red, row[u].green, row[u].blue]), 3, x, c);
  }

  lemma ColorIndex(width: nat, x: nat, y: nat)
    ensures var i := RasterIndex(Ppm, width, x, y);
            && IndexIn(y, BytesPerRow(Ppm, width), 3 * x + 2) == i
            && IndexIn(y, BytesPerRow(Ppm, width), 3 * x + 1) == i - 1
            && IndexIn(y, BytesPerRow(Ppm, width), 3 * x) == i - 2
  {
    assert y * width * 3 == y * (width * 3);
  }

  lemma ReadsPpm(p: Picture, x: nat, y: nat)
    requires Rectangular(p) && y < p.height && x < p.width
    ensures RasterIndex(Ppm, p.width, x, y) < |RasterBytes(Ppm, p)|
    ensures PixelFrom(Ppm, p.width, RasterBytes(Ppm, p), x, y) == p.data[y][x]
  {
    hide RasterBytes, RowBytes, IndexIn, RasterIndex;
    ColorIndex(p.width, x, y);
    RasterAt(Ppm, p, y, 3 * x);
    RasterAt(Ppm, p, y, 3 * x + 1);
    RasterAt(Ppm, p, y, 3 * x + 2);
    ColorRowAt(p.data[y], x, 0);
    ColorRowAt(p.data[y], x, 1);
    ColorRowAt(p.data[y], x, 2);
  }

  lemma ReadsPgm(p: Picture, x: nat, y: nat)
    requires Rectangular(p) && y < p.height && x < p.width
    ensures RasterIndex(Pgm, p.width, x, y) < |RasterBytes(Pgm, p)|
    ensures PixelFrom(Pgm, p.width, RasterBytes(Pgm, p), x, y) == Gray(p.data[y][x].red)
  {
    hide RasterBytes;
    RasterAt(Pgm, p, y, x);
  }

  lemma PackHalves(bits: seq<bool>)
    requires bits != []
    ensures Pack(bits) / 2 == Pack(bits[..|bits| - 1])
    ensures Pack(bits) % 2 == if bits[|bits| - 1] then 1 else 0
  {
  }

  /** The worth of a bit, counted from the end of a byte. */
  function Worth(k: nat): (n: nat)
    requires k < 8
    ensures n > 0
  {
    [1, 2, 4, 8, 16, 32, 64, 128][k]
  }

  lemma HalfAgain(n: nat, k: nat)
    requires 0 < k < 8
    ensures n / Worth(k) == n / Worth(k - 1) / 2
  {
  }

  /** Halving drops the last bit; the place of a bit is the number of halvings that bring it
      to the end. */
  lemma {:induction false} PackDrops(bits: seq<bool>, k: nat)
    requires k < |bits| == 8
    ensures Pack(bits) / Worth(k) == Pack(bits[..8 - k])
  {
    if k == 0 {
      assert bits[..8] == bits;
    } else {
      hide Pack, Pow, Worth;
      PackDrops(bits, k - 1);
      HalfAgain(Pack(bits), k);
      PackHalves(bits[..9 - k]);
      assert bits[..9 - k][..8 - k] == bits[..8 - k];
    }
  }

  lemma BitWorth(b: u8, j: nat)
    requires j < 8
    ensures BitSet(b, j) <==> b / Worth(7 - j) % 2 == 1
  {
  }

  lemma PackedBit(row: seq<Pixel>, x: nat, j: nat)
    requires j < 8
    ensures BitSet(Packed(row, x), j) <==> BitAt(row, x + j)
  {
    hide BitAt, BitSet, Pack, Pow, Worth;
    var bits := Bits(row, x);
    BitWorth(Packed(row, x), j);
    PackDrops(bits, 7 - j);
    PackHalves(bits[..j + 1]);
    assert bits[..j + 1][j] == bits[j];
  }

  /** A bitmap pixel is read right where the reader's row stride, width / 8, is the format's:
      in every row if the width is a multiple of 8, and in the first row anyway. */
  lemma ReadsPbm(p: Picture, x: nat, y: nat)
    requires Rectangular(p) && y < p.height && x < p.width
    requires p.width % 8 == 0 || y == 0
    ensures RasterIndex(Pbm, p.width, x, y) < |RasterBytes(Pbm, p)|
    ensures PixelFrom(Pbm, p.width, RasterBytes(Pbm, p), x, y) == Gray(if BitAt(p.data[y], x) then 0 else 0xFF)
  {
    hide RasterBytes, BitSet, BitAt, Packed;
    StrideWhole(p.width);
    assert x / 8 < Stride(p.width);
    RasterAt(Pbm, p, y, x / 8);
    PackedBit(p.data[y], 8 * (x / 8), x % 8);
    assert 8 * (x / 8) + x % 8 == x;
  }

  lemma StrideWhole(width: nat)
    ensures width % 8 == 0 ==> Stride(width) == width / 8
    ensures width % 8 != 0 ==> Stride(width) == width / 8 + 1
  {
  }

  // --------------------------------------------------------------- round trips

  lemma ReadsPixel(kind: Kind, p: Picture, x: nat, y: nat)
    requires Representable(kind, p) && y < p.height && x < p.width
    requires kind == Pbm ==> p.width % 8 == 0 || y == 0
    ensures RasterIndex(kind, p.width, x, y) < |RasterBytes(kind, p)|
    ensures PixelFrom(kind, p.width, RasterBytes(kind, p), x, y) == p.data[y][x]
  {
    hide RasterBytes, PixelFrom, RasterIndex;
    assert Holds(kind, p.data[y][x]);
    match kind
    case Pbm => ReadsPbm(p, x, y);
    case Pgm => ReadsPgm(p, x, y);
    case Ppm => ReadsPpm(p, x, y);
  }

  /** Decoding the canonical encoding of a picture gives back every pixel: for all sizes of gray
      and colour pictures, and for bitmaps whose width is a multiple of 8 or that have at most
      one row. */
  lemma RoundTrip(kind: Kind, p: Picture)
    requires Representable(kind, p)
    requires kind == Pbm ==> p.width % 8 == 0 || p.height <= 1
    ensures Decoded(Encoded(kind, p), kind) == Returns(p)
  {
    hide ReadLayout, Encoded, RasterBytes, PixelFrom, RasterIndex;
    LayoutRoundTrip(kind, p);
    var l := Layout(p.width, p.height, RasterBytes(kind, p));
    forall y, x | 0 <= y < p.height && 0 <= x < p.width
      ensures RasterIndex(kind, p.width, x, y) < |l.pixels|
      ensures PixelFrom(kind, p.width, l.pixels, x, y) == p.data[y][x]
    {
      ReadsPixel(kind, p, x, y);
    }
    forall y | 0 <= y < p.height
      ensures RasterRow(kind, l, y) == p.data[y]
    {
    }
    assert Raster(kind, l) == p.data;
  }

  predicate RoundTrips(p: Picture) {
    Decoded(Encoded(Pbm, p), Pbm) == Returns(p)
  }

  /** All white but for the first pixel of the last, partial byte of the first row. */
  function Speck(width: nat, height: nat): Picture {
    Picture(width, height, seq(height, y => seq(width, x => Gray(if y == 0 && x == 8 * (width / 8) then 0 else 0xFF))))
  }

  lemma SpeckRead(width: nat, height: nat)
    requires width % 8 != 0 && 2 <= height
    ensures var p := Speck(width, height);
            && RasterIndex(Pbm, width, 0, 1) < |RasterBytes(Pbm, p)|
            && PixelFrom(Pbm, width, RasterBytes(Pbm, p), 0, 1) == Gray(0)
  {
    hide BitSet, Packed, RasterBytes;
    var p, last := Speck(width, height), 8 * (width / 8);
    StrideWhole(width);
    RasterAt(Pbm, p, 0, width / 8);
    PackedBit(p.data[0], last, 0);
    assert p.data[0][last] == Gray(0);
  }

  lemma SpeckHolds(width: nat, height: nat)
    requires width < TWO_POW_64 && height < TWO_POW_64
    ensures Representable(Pbm, Speck(width, height))
  {
    var p := Speck(width, height);
    forall y, x | 0 <= y < height && 0 <= x < width
      ensures Holds(Pbm, p.data[y][x])
    {
      assert p.data[y][x] == Gray(0) || p.data[y][x] == Gray(0xFF);
    }
  }

  /** With a partial byte in each row, the second row is read from the last byte of the first. */
  lemma SpeckMisread(width: nat, height: nat)
    requires width % 8 != 0 && 2 <= height && width < TWO_POW_64 && height < TWO_POW_64
    ensures Representable(Pbm, Speck(width, height))
    ensures !RoundTrips(Speck(width, height))
  {
    hide ReadLayout, Encoded, PixelFrom, RasterBytes, RasterIndex, Representable;
    var p := Speck(width, height);
    SpeckHolds(width, height);
    LayoutRoundTrip(Pbm, p);
    SpeckRead(width, height);
    var l := Layout(width, height, RasterBytes(Pbm, p));
    if HasRaster(Pbm, l) {
      assert Raster(Pbm, l)[1][0] == Gray(0);
      assert p.data[1][0] == Gray(0xFF);
    }
  }

  /** So bitmaps of a given size all survive exactly when the width is a multiple of 8 or there
      is at most one row. */
  lemma BitmapsIff(width: nat, height: nat)
    requires width < TWO_POW_64 && height < TWO_POW_64
    ensures (forall p: Picture :: Representable(Pbm, p) && p.width == width && p.height == height ==> RoundTrips(p))
            <==> width % 8 == 0 || height <= 1
  {
    hide Representable, RoundTrips;
    if width % 8 == 0 || height <= 1 {
      forall p: Picture | Representable(Pbm, p) && p.width == width && p.height == height
        ensures RoundTrips(p)
      {
        RoundTrip(Pbm, p);
        RoundTripsMeans(p);
      }
    } else {
      SpeckMisread(width, height);
      assert Speck(width, height).width == width && Speck(width, height).height == height;
    }
  }

  lemma RoundTripsMeans(p: Picture)
    ensures RoundTrips(p) <==> Decoded(Encoded(Pbm, p), Pbm) == Returns(p)
  {
  }

  // ----------------------------------------------------------------- by file name

  lemma SuffixKind(stem: string, kind: Kind)
    ensures Extension(stem + "." + Suffix(kind)) == Some(Suffix(kind))
    ensures KindOf(Suffix(kind)) == Some(kind)
  {
    KindIff(Suffix(kind), kind);
    ExtensionIs(stem, Suffix(kind));
  }

  /** End to end: a picture stored under a name with its format's suffix is loaded by that name. */
  lemma LoadRoundTrip(initrd: Initrd, stem: string, kind: Kind, p: Picture)
    requires Representable(kind, p)
    requires kind == Pbm ==> p.width % 8 == 0 || p.height <= 1
    requires GetData(initrd, stem + "." + Suffix(kind)) == Returns(Encoded(kind, p))
    ensures Loaded(initrd, stem + "." + Suffix(kind)) == Returns(p)
  {
    hide GetData, Encoded, Decoded, Extension, KindOf, Suffix, Representable;
    SuffixKind(stem, kind);
    RoundTrip(kind, p);
  }

  // -------------------------------------------------------------------- drawing

  /** The picture's rectangle at its place on the screen. */
  predicate InRectangle(p: Picture, x: nat, y: nat, u: nat, v: nat) {
    x <= u < x + p.width && y <= v < y + p.height
  }

  lemma PlacedFits(s: Screen, p: Picture, x: nat, y: nat)
    requires Rectangular(p) && y + p.height <= s.height && (p.height == 0 || x + p.width <= s.width)
    ensures Fits(s, Placed(p, x, y))
    ensures forall u: nat, v: nat :: Covers(Placed(p, x, y), u, v) <==> InRectangle(p, x, y, u, v)
    ensures forall u: nat, v: nat :: InRectangle(p, x, y, u, v) ==>
              Placed(p, x, y).rows[v - y][u - x] == ColorOfPixel(p.data[v - y][u - x])
  {
    hide ColorOfPixel;
  }

  /** What the buffer must hold for one pixel of the screen once the picture is drawn. */
  function Blitted(s: Screen, before: seq<u8>, p: Picture, x: nat, y: nat, u: nat, v: nat): seq<u8>
    requires Rectangular(p) && Sound(s, before) && OnScreen(s, u, v)
  {
    if InRectangle(p, x, y, u, v) then
      var pixel := p.data[v - y][u - x];
      [pixel.blue, pixel.green, pixel.red, 0]
    else
      PixelAt(s, before, u, v)
  }

  /** Blit exactness: a picture that fits on a sound screen sets each pixel of its rectangle to
      its red, green and blue (and a zero byte), and leaves every other pixel and every byte
      between the rows alone. */
  lemma BlitExact(s: Screen, before: seq<u8>, p: Picture, x: nat, y: nat)
    requires Rectangular(p) && Sound(s, before)
    requires y + p.height <= s.height && (p.height == 0 || x + p.width <= s.width)
    ensures Draw(before, s.pitch, Placed(p, x, y), 0, 0).Returns?
    ensures var after := Draw(before, s.pitch, Placed(p, x, y), 0, 0).value;
            && Sound(s, after)
            && (forall u: nat, v: nat :: OnScreen(s, u, v) ==> PixelAt(s, after, u, v) == Blitted(s, before, p, x, y, u, v))
            && (forall v: nat, k: nat :: IsPadding(s, v, k) ==> PaddingAt(s, after, v, k) == PaddingAt(s, before, v, k))
  {
    hide Draw, PixelAt, PaddingAt, ColorBytes, ColorOfPixel, Sound, Placed, Fits, Covers, InRectangle;
    var b := Placed(p, x, y);
    PlacedFits(s, p, x, y);
    DrawSucceeds(s, before, b);
    var after := Draw(before, s.pitch, b, 0, 0).value;
    SoundAfter(s, before, after);
    forall u: nat, v: nat | OnScreen(s, u, v)
      ensures PixelAt(s, after, u, v) == Blitted(s, before, p, x, y, u, v)
    {
      BlitPixel(s, before, p, x, y, u, v);
    }
    forall v: nat, k: nat | IsPadding(s, v, k)
      ensures PaddingAt(s, after, v, k) == PaddingAt(s, before, v, k)
    {
      DrawPadding(s, before, b, 0, 0, v, k);
    }
  }

  lemma BlitPixel(s: Screen, before: seq<u8>, p: Picture, x: nat, y: nat, u: nat, v: nat)
    requires Rectangular(p) && Sound(s, before) && OnScreen(s, u, v)
    requires Fits(s, Placed(p, x, y))
    ensures Draw(before, s.pitch, Placed(p, x, y), 0, 0).Returns?
    ensures PixelAt(s, Draw(before, s.pitch, Placed(p, x, y), 0, 0).value, u, v) == Blitted(s, before, p, x, y, u, v)
  {
    hide Draw, PixelAt, ColorBytes, ColorOfPixel;
    DrawPixels(s, before, Placed(p, x, y), 0, 0, u, v);
    if InRectangle(p, x, y, u, v) {
      ColorBytesOf(p.data[v - y][u - x]);
    }
  }

  lemma SoundAfter(s: Screen, before: seq<u8>, after: seq<u8>)
    requires Sound(s, before) && |after| == |before|
    ensures Sound(s, after)
  {
  }
}
