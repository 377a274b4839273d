/**
 Pictures: a reader for the binary Netpbm formats, and drawing on the framebuffer.
 */
module Image {
  import opened Rust
  import opened Arithmetic
  import opened Utf8
  import opened Numerals
  import opened Initrd
  import opened Framebuffer
  import opened Console

  datatype Pixel = Pixel(red: u8, green: u8, blue: u8)

  datatype Picture = Picture(width: nat, height: nat, data: seq<seq<Pixel>>)

  predicate Rectangular(p: Picture) {
    |p.data| == p.height && forall y :: 0 <= y < p.height ==> |p.data[y]| == p.width
  }

  function Gray(value: u8): Pixel {
    Pixel(value, value, value)
  }

  // ----------------------------------------------------------------- the header

  const NEWLINE: u8 := 10

  /** The index of the n-th newline byte, counted from 0. */
  function NthNewline(bytes: seq<u8>, n: nat): (r: Option<nat>)
    ensures r.Some? ==> r.value < |bytes|
  {
    if bytes == [] then None
    else if bytes[0] == NEWLINE && n == 0 then Some(0)
    else
      match NthNewline(bytes[1..], if bytes[0] == NEWLINE then n - 1 else n)
      case Some(i) => Some(i + 1)
      case None => None
  }

  function AfterLastDot(s: string): string {
    if s == "" || s[|s| - 1] == '.' then "" else AfterLastDot(s[..|s| - 1]) + [s[|s| - 1]]
  }

  /** `split_terminator('.').last()`. */
  function Extension(path: string): Option<string> {
    if path == "" then None
    else if path[|path| - 1] == '.' then Some(AfterLastDot(path[..|path| - 1]))
    else Some(AfterLastDot(path))
  }

  /** `char::is_whitespace`. */
  predicate IsWhitespace(c: char) {
    var n := c as int;
    || 0x9 <= n <= 0xD || n == 0x20 || n == 0x85 || n == 0xA0 || n == 0x1680 || 0x2000 <= n <= 0x200A
    || n == 0x2028 || n == 0x2029 || n == 0x202F || n == 0x205F || n == 0x3000
  }

  function WordLength(s: string): (n: nat)
    ensures n <= |s|
  {
    if s == "" || IsWhitespace(s[0]) then 0 else 1 + WordLength(s[1..])
  }

  /** `split_whitespace`. */
  function Words(s: string): seq<string> {
    if s == "" then []
    else if IsWhitespace(s[0]) then Words(s[1..])
    else [s[..WordLength(s)]] + Words(s[WordLength(s)..])
  }

  datatype Kind = Pbm | Pgm | Ppm

  function KindOf(extension: string): Option<Kind> {
    if extension == "pbm" then Some(Pbm)
    else if extension == "pgm" then Some(Pgm)
    else if extension == "ppm" then Some(Ppm)
    else None
  }

  datatype Layout = Layout(width: nat, height: nat, pixels: seq<u8>)

  /** The size of a picture and the bytes of its raster: the header ends at the second newline
      of a bitmap, and at the third of the others. */
  function ReadLayout(image: seq<u8>, kind: Kind): Outcome<Layout> {
    var index :- Unwrap(NthNewline(image, if kind == Pbm then 1 else 2));
    var text :- Unwrap(FromUtf8(image[..index]));
    var fields := Words(text);
    if |fields| < 3 then Panics
    else
      var width :- Unwrap(FromStrRadix(fields[1], 10, TWO_POW_64));
      var height :- Unwrap(FromStrRadix(fields[2], 10, TWO_POW_64));
      Returns(Layout(width, height, image[index + 1..]))
  }

  // ----------------------------------------------------------------- the raster

  /** The last raster byte that a pixel is read from. */
  function RasterIndex(kind: Kind, width: nat, x: nat, y: nat): nat {
    match kind
    case Pbm => y * (width / 8) + x / 8
    case Pgm => y * width + x
    case Ppm => y * width * 3 + (3 * x + 2)
  }

  function PixelFrom(kind: Kind, width: nat, pixels: seq<u8>, x: nat, y: nat): Pixel
    requires RasterIndex(kind, width, x, y) < |pixels|
  {
    var i := RasterIndex(kind, width, x, y);
    match kind
    case Pbm => Gray(if BitSet(pixels[i], x % 8) then 0x00 else 0xFF)
    case Pgm => Gray(pixels[i])
    case Ppm =>
      assert y * width * 3 >= 0;
      Pixel(pixels[i - 2], pixels[i - 1], pixels[i])
  }

  predicate HasRaster(kind: Kind, l: Layout) {
    forall y, x :: 0 <= y < l.height && 0 <= x < l.width ==> RasterIndex(kind, l.width, x, y) < |l.pixels|
  }

  function RasterRow(kind: Kind, l: Layout, y: nat): (row: seq<Pixel>)
    requires HasRaster(kind, l) && y < l.height
    ensures |row| == l.width
  {
    seq(l.width, x requires 0 <= x < l.width => PixelFrom(kind, l.width, l.pixels, x, y))
  }

  function Raster(kind: Kind, l: Layout): seq<seq<Pixel>>
    requires HasRaster(kind, l)
  {
    seq(l.height, y requires 0 <= y < l.height => RasterRow(kind, l, y))
  }

  function Decoded(image: seq<u8>, kind: Kind): Outcome<Picture> {
    var l :- ReadLayout(image, kind);
    if HasRaster(kind, l) then Returns(Picture(l.width, l.height, Raster(kind, l))) else Panics
  }

  function Loaded(initrd: Initrd, path: string): Outcome<Picture> {
    var image :- GetData(initrd, path);
    var extension :- Unwrap(Extension(path));
    var kind :- Unwrap(KindOf(extension));
    Decoded(image, kind)
  }

  // ------------------------------------------------------------------- drawing

  function ColorOfPixel(p: Pixel): u32 {
    p.red * 0x1_0000 + p.green * 0x100 + p.blue
  }

  lemma BlueByte(pixel: Pixel)
    ensures ColorOfPixel(pixel) % 0x100 == pixel.blue
  {
    DivModUnique(ColorOfPixel(pixel), pixel.red * 0x100 + pixel.green, pixel.blue, 0x100);
  }

  lemma GreenByte(pixel: Pixel)
    ensures ColorOfPixel(pixel) / 0x100 % 0x100 == pixel.green
  {
    var high := pixel.red * 0x100 + pixel.green;
    DivModUnique(ColorOfPixel(pixel), high, pixel.blue, 0x100);
    DivModUnique(high, pixel.red, pixel.green, 0x100);
  }

  lemma RedByte(pixel: Pixel)
    ensures ColorOfPixel(pixel) / 0x1_0000 % 0x100 == pixel.red
    ensures ColorOfPixel(pixel) / 0x100_0000 == 0
  {
    DivModUnique(ColorOfPixel(pixel), pixel.red, pixel.green * 0x100 + pixel.blue, 0x1_0000);
  }

  /** A pixel's colour is stored as blue, green, red and a zero byte. */
  lemma ColorBytesOf(pixel: Pixel)
    ensures ColorBytes(ColorOfPixel(pixel)) == [pixel.blue, pixel.green, pixel.red, 0]
  {
    hide ColorOfPixel;
    BlueByte(pixel);
    GreenByte(pixel);
    RedByte(pixel);
  }

  function ColorRow(row: seq<Pixel>): (colors: seq<u32>)
    ensures |colors| == |row|
  {
    seq(|row|, i requires 0 <= i < |row| => ColorOfPixel(row[i]))
  }

  /** A picture with its top left corner at a place on the screen. */
  function Placed(p: Picture, x: nat, y: nat): Bitmap {
    Bitmap(x, y, seq(|p.data|, i requires 0 <= i < |p.data| => ColorRow(p.data[i])))
  }

  class Image {
    const width: nat
    const height: nat
    var x: nat
    var y: nat
    const data: seq<seq<Pixel>>

    ghost function View(): Picture {
      Picture(width, height, data)
    }

    constructor (width: nat, height: nat, data: seq<seq<Pixel>>)
      ensures View() == Picture(width, height, data) && x == y == 0
    {
      this.width := width;
      this.height := height;
      this.data := data;
      this.x := 0;
      this.y := 0;
    }

    /** `Image::new`. */
    static method Open(initrd: Initrd, path: string) returns (r: Outcome<Image>)
      ensures match Loaded(initrd, path)
              case Returns(p) =>
                r.Returns? && fresh(r.value) && r.value.View() == p && Rectangular(p) && r.value.x == r.value.y == 0
              case Panics => r == Panics
              case Strays => r == Strays
    {
      hide GetData, Extension, KindOf, ReadLayout, PixelFrom, RasterIndex;
      var image := GetData(initrd, path);
      if !image.Returns? {
        return image.PropagateFailure();
      }
      var extension := Extension(path);
      if extension.None? {
        return Panics;
      }
      var kind := KindOf(extension.value);
      if kind.None? {
        return Panics;
      }
      var layout := ReadLayout(image.value, kind.value);
      if !layout.Returns? {
        return layout.PropagateFailure();
      }
      var header := layout.value;
      var data := seq(header.height, _ => seq(header.width, _ => Gray(0)));
      var y := 0;
      while y < header.height
        invariant 0 <= y <= header.height == |data|
        invariant forall v :: 0 <= v < header.height ==> |data[v]| == header.width
        invariant forall v, u :: 0 <= v < y && 0 <= u < header.width ==> DecodedAt(kind.value, header, data[v][u], u, v)
      {
        var x := 0;
        while x < header.width
          invariant 0 <= x <= header.width && |data| == header.height
          invariant forall v :: 0 <= v < header.height ==> |data[v]| == header.width
          invariant forall v, u :: 0 <= v < y && 0 <= u < header.width ==> DecodedAt(kind.value, header, data[v][u], u, v)
          invariant forall u :: 0 <= u < x ==> DecodedAt(kind.value, header, data[y][u], u, y)
        {
          if RasterIndex(kind.value, header.width, x, y) >= |header.pixels| {
            return Panics;
          }
          var pixel := PixelFrom(kind.value, header.width, header.pixels, x, y);
          data := data[y := data[y][x := pixel]];
          x := x + 1;
        }
        y := y + 1;
      }
      AllDecoded(kind.value, header, data);
      var loaded := new Image(header.width, header.height, data);
      r := Returns(loaded);
    }

    method SetPosition(x: nat, y: nat)
      modifies this
      ensures this.x == x && this.y == y
    {
      this.x := x;
      this.y := y;
    }

    method DrawOn(vga: Vga) returns (r: Outcome<()>)
      requires Rectangular(View())
      modifies vga.buffer
      ensures match Draw(old(vga.buffer[..]), vga.screen.pitch, Placed(View(), x, y), 0, 0)
              case Returns(pixels) => r == Returns(()) && vga.buffer[..] == pixels
              case Panics => r == Panics
              case Strays => r == Strays
    {
      hide Plot, ColorOfPixel;
      ghost var b, before := Placed(View(), x, y), vga.buffer[..];
      var iy := 0;
      while iy < |data| && iy < height
        invariant 0 <= iy <= |data|
        invariant Draw(before, vga.screen.pitch, b, 0, 0) == Draw(vga.buffer[..], vga.screen.pitch, b, iy, 0)
      {
        var row := data[iy];
        var ix := 0;
        while ix < |row| && ix < width
          invariant 0 <= ix <= |row|
          invariant Draw(before, vga.screen.pitch, b, 0, 0) == Draw(vga.buffer[..], vga.screen.pitch, b, iy, ix)
        {
          var color := ColorOfPixel(row[ix]);
          r := vga.DrawPixel(x + ix, y + iy, color);
          if !r.Returns? {
            return;
          }
          ix := ix + 1;
        }
        iy := iy + 1;
      }
      r := Returns(());
    }
  }

  predicate DecodedAt(kind: Kind, l: Layout, pixel: Pixel, x: nat, y: nat) {
    && RasterIndex(kind, l.width, x, y) < |l.pixels|
    && pixel == PixelFrom(kind, l.width, l.pixels, x, y)
  }

  lemma AllDecoded(kind: Kind, l: Layout, data: seq<seq<Pixel>>)
    requires |data| == l.height && forall v :: 0 <= v < l.height ==> |data[v]| == l.width
    requires forall v, u :: 0 <= v < l.height && 0 <= u < l.width ==> DecodedAt(kind, l, data[v][u], u, v)
    ensures HasRaster(kind, l) && data == Raster(kind, l)
  {
    hide RasterIndex, PixelFrom;
    forall y, x | 0 <= y < l.height && 0 <= x < l.width
      ensures RasterIndex(kind, l.width, x, y) < |l.pixels|
    {
      assert DecodedAt(kind, l, data[y][x], x, y);
    }
    forall y | 0 <= y < l.height
      ensures data[y] == RasterRow(kind, l, y)
    {
      assert forall x :: 0 <= x < l.width ==> DecodedAt(kind, l, data[y][x], x, y);
    }
  }
}
