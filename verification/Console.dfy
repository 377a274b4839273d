/**
 The text console: fonts, glyphs, and the automaton that turns text with newlines, tabs and
 escape sequences into glyphs on the framebuffer.

 The class works in place; its methods are tied to functions on `Terminal` values.
 */
module Console {
  import opened Rust
  import opened Initrd
  import opened Framebuffer

  const BLACK: u32 := 0x0
  const BLUE: u32 := 0x0000_97E6
  const GREEN: u32 := 0x0044_BD32
  const ORANGE: u32 := 0x00C2_3616
  const PURPLE: u32 := 0x008C_7AE6
  const RED: u32 := 0x00E8_4118
  const WHITE: u32 := 0x00F5_F6FA
  const YELLOW: u32 := 0x00FB_C531

  const BOLD_PATH := "initrd/usr/share/fonts/ter-i16b.psf"
  const NORMAL_PATH := "initrd/usr/share/fonts/ter-i16n.psf"

  // -------------------------------------------------------------------- fonts

  type Glyphs = g: seq<u8> | |g| == 4096 witness seq(4096, _ => 0)

  /** 256 glyphs of 16 rows; the loader accepts no other size, so width and height are fixed. */
  datatype Font = Font(glyphs: Glyphs)

  const FONT_WIDTH: nat := 8
  const FONT_HEIGHT: nat := 16

  /** `Font::new`. */
  function LoadFont(initrd: Initrd, path: string): Outcome<Font> {
    var psf :- GetData(initrd, path);
    if |psf| < 4100 then Panics
    else if psf[0] != 0x36 || psf[1] != 0x04 || psf[2] != 0x02 || psf[3] != 16 then Panics
    else Returns(Font(psf[4..4100]))
  }

  datatype Cursor = Cursor(x: nat, y: nat, fg: u32, bg: u32)

  /** A glyph in its colours. Its cell starts 12 rows above the cursor. */
  function Glyph(font: Font, cursor: Cursor, code: nat): Bitmap
    requires code < 256 && cursor.y >= 12
  {
    var rows := seq(FONT_HEIGHT, row requires 0 <= row < FONT_HEIGHT =>
      seq(FONT_WIDTH, column requires 0 <= column < FONT_WIDTH =>
        if BitSet(font.glyphs[code * FONT_HEIGHT + row], column) then cursor.fg else cursor.bg));
    Bitmap(cursor.x, cursor.y - 12, rows)
  }

  /** `write_char`: code 256 starts just past the last glyph and draws nothing; above that, and
      above the twelfth row of the screen, it panics. */
  function CharDrawn(pixels: seq<u8>, pitch: nat, font: Font, cursor: Cursor, code: nat): Outcome<seq<u8>> {
    if code > 256 then Panics
    else if code == 256 then Returns(pixels)
    else if cursor.y < 12 then Panics
    else Draw(pixels, pitch, Glyph(font, cursor, code), 0, 0)
  }

  // ---------------------------------------------------------------- automaton

  /** What one call of `write_str` leaves for the next. */
  datatype Terminal = Terminal(cursor: Cursor, font: Font, pixels: seq<u8>)

  /** The local variables of `write_str`. */
  datatype Pen = Pen(x: nat, y: nat, fg: u32, bg: u32, position: nat)

  /** What never changes: the ramdisk with the fonts, and the pitch of the framebuffer. */
  datatype Machine = Machine(initrd: Initrd, pitch: nat)

  function PenAt(cursor: Cursor): Pen {
    Pen(cursor.x, cursor.y, cursor.fg, cursor.bg, 0)
  }

  function CursorAt(pen: Pen): Cursor {
    Cursor(pen.x, pen.y, pen.fg, pen.bg)
  }

  /** The length of what `take_while(|x| *x != 'm')` takes. */
  function UpToM(text: string): (n: nat)
    ensures n <= |text|
    ensures 'm' !in text[..n] && (n < |text| ==> text[n] == 'm')
  {
    if text == "" || text[0] == 'm' then 0 else 1 + UpToM(text[1..])
  }

  /** What is left after the `take_while` has also swallowed the `m`. */
  function AfterM(text: string): (rest: string)
    ensures |rest| <= |text|
  {
    var n := UpToM(text);
    if n < |text| then text[n + 1..] else ""
  }

  /** The colour an escape sequence selects. An unfinished sequence counts as finished. */
  function ColorOf(sequence: string): Option<u32> {
    if sequence == "[38;2;0;151;230" then Some(BLUE)
    else if sequence == "[39" then Some(WHITE)
    else if sequence == "[38;2;68;189;50" then Some(GREEN)
    else if sequence == "[38;2;194;54;52" then Some(ORANGE)
    else if sequence == "[38;2;140;122;230" then Some(PURPLE)
    else if sequence == "[38;2;232;65;24" then Some(RED)
    else if sequence == "[38;2;251;197;49" then Some(YELLOW)
    else None
  }

  /** The font file an escape sequence selects. */
  function FontOf(sequence: string): Option<string> {
    if sequence == "[1" then Some(BOLD_PATH)
    else if sequence == "[0" then Some(NORMAL_PATH)
    else None
  }

  /** The characters still to come, and the state they find. */
  datatype Stage = Stage(chars: string, pen: Pen, terminal: Terminal)

  /** One turn of the loop of `write_str`. */
  function Turn(m: Machine, s: Stage): (r: Outcome<Stage>)
    requires s.chars != ""
    ensures r.Returns? ==> |r.value.chars| < |s.chars|
  {
    var c, rest, pen := s.chars[0], s.chars[1..], s.pen;
    if c == '\n' then
      var pen' := pen.(x := FONT_WIDTH, y := pen.y + FONT_HEIGHT, position := 0);
      Returns(Stage(rest, pen', s.terminal.(cursor := CursorAt(pen'))))
    else if c == '\r' then
      var pen' := pen.(x := FONT_WIDTH, position := 0);
      Returns(Stage(rest, pen', s.terminal.(cursor := CursorAt(pen'))))
    else if c == '\t' then
      var pen' := pen.(x := pen.x + FONT_WIDTH * 8);
      Returns(Stage(rest, pen', s.terminal.(cursor := CursorAt(pen'))))
    else if c == '\U{1B}' then
      var sequence := rest[..UpToM(rest)];
      if ColorOf(sequence).Some? then
        Returns(Stage(AfterM(rest), pen.(fg := ColorOf(sequence).value), s.terminal))
      else if FontOf(sequence).Some? then
        var font :- LoadFont(m.initrd, FontOf(sequence).value);
        Returns(Stage(AfterM(rest), pen, s.terminal.(font := font)))
      else
        Returns(Stage(AfterM(rest), pen, s.terminal))
    else
      var cursor := CursorAt(pen).(x := pen.x + FONT_WIDTH * pen.position);
      var pixels :- CharDrawn(s.terminal.pixels, m.pitch, s.terminal.font, cursor, c as int);
      Returns(Stage(rest, pen.(position := pen.position + 1), Terminal(cursor, s.terminal.font, pixels)))
  }

  function Finish(m: Machine, s: Stage): (r: Outcome<Stage>)
    ensures r.Returns? ==> r.value.chars == ""
    decreases |s.chars|
  {
    if s.chars == "" then Returns(s)
    else
      var next :- Turn(m, s);
      Finish(m, next)
  }

  /** `write_str` on a terminal. */
  function Written(m: Machine, text: string, t: Terminal): Outcome<Terminal> {
    var end :- Finish(m, Stage(text, PenAt(t.cursor), t));
    Returns(end.terminal)
  }

  /** The whole screen in black. */
  function Blank(screen: Screen): Bitmap {
    Bitmap(0, 0, seq(screen.height, _ => seq(screen.width, _ => BLACK)))
  }

  // -------------------------------------------------------------------- class

  class Vga {
    var cursor: Cursor
    var font: Font
    const screen: Screen
    const buffer: array<u8>
    const initrd: Initrd

    ghost function View(): Terminal
      reads this, buffer
    {
      Terminal(cursor, font, buffer[..])
    }

    ghost function Env(): Machine {
      Machine(initrd, screen.pitch)
    }

    constructor (initrd: Initrd, font: Font, screen: Screen, buffer: array<u8>)
      ensures this.initrd == initrd && this.screen == screen && this.buffer == buffer
      ensures View() == Terminal(Cursor(0, 0, WHITE, BLACK), font, buffer[..])
    {
      this.initrd := initrd;
      this.font := font;
      this.screen := screen;
      this.buffer := buffer;
      this.cursor := Cursor(0, 0, WHITE, BLACK);
    }

    method SetCursor(x: nat, y: nat, fg: u32, bg: u32)
      modifies this`cursor
      ensures cursor == Cursor(x, y, fg, bg)
    {
      cursor := Cursor(x, y, fg, bg);
    }

    /** An unaligned 32-bit write through a raw pointer. */
    method DrawPixel(x: nat, y: nat, color: u32) returns (r: Outcome<()>)
      modifies buffer
      ensures match Plot(old(buffer[..]), screen.pitch, x, y, color)
              case Returns(pixels) => r == Returns(()) && buffer[..] == pixels
              case Panics => false
              case Strays => r == Strays && buffer[..] == old(buffer[..])
    {
      var offset := y * screen.pitch + x * 4;
      if offset + 4 > buffer.Length {
        return Strays;
      }
      var bytes := ColorBytes(color);
      buffer[offset] := bytes[0];
      buffer[offset + 1] := bytes[1];
      buffer[offset + 2] := bytes[2];
      buffer[offset + 3] := bytes[3];
      assert buffer[..] == old(buffer[..])[..offset] + bytes + old(buffer[..])[offset + 4..];
      r := Returns(());
    }

    method Clear() returns (r: Outcome<()>)
      modifies this`cursor, buffer
      ensures match Draw(old(buffer[..]), screen.pitch, Blank(screen), 0, 0)
              case Returns(pixels) =>
                r == Returns(()) && buffer[..] == pixels && cursor == Cursor(8, 24, WHITE, BLACK)
              case Panics => r == Panics
              case Strays => r == Strays
    {
      hide Plot;
      ghost var b := Blank(screen);
      var y := 0;
      while y < screen.height
        invariant 0 <= y <= screen.height
        invariant Draw(old(buffer[..]), screen.pitch, b, 0, 0) == Draw(buffer[..], screen.pitch, b, y, 0)
      {
        var x := 0;
        while x < screen.width
          invariant 0 <= x <= screen.width
          invariant Draw(old(buffer[..]), screen.pitch, b, 0, 0) == Draw(buffer[..], screen.pitch, b, y, x)
        {
          r := DrawPixel(x, y, BLACK);
          if !r.Returns? {
            return;
          }
          x := x + 1;
        }
        y := y + 1;
      }
      SetCursor(8, 24, WHITE, BLACK);
      r := Returns(());
    }

    method WriteChar(c: char) returns (r: Outcome<()>)
      modifies buffer
      ensures match CharDrawn(old(buffer[..]), screen.pitch, font, cursor, c as int)
              case Returns(pixels) => r == Returns(()) && buffer[..] == pixels
              case Panics => r == Panics
              case Strays => r == Strays
    {
      hide Plot, BitSet;
      var position := c as int * FONT_HEIGHT;
      if position > |font.glyphs| {
        return Panics;
      }
      var glyphs := font.glyphs[position..];
      ghost var drawn := CharDrawn(buffer[..], screen.pitch, font, cursor, c as int);
      var cy := 0;
      while cy < |glyphs| && cy < FONT_HEIGHT
        invariant 0 <= cy <= FONT_HEIGHT
        invariant c as int < 256 && cursor.y < 12 ==> cy == 0
        invariant c as int < 256 && cursor.y >= 12 ==>
                    drawn == Draw(buffer[..], screen.pitch, Glyph(font, cursor, c as int), cy, 0)
        invariant c as int == 256 ==> buffer[..] == old(buffer[..])
      {
        var cx := 0;
        while cx < FONT_WIDTH
          invariant 0 <= cx <= FONT_WIDTH
          invariant cursor.y < 12 ==> cx == 0
          invariant cursor.y >= 12 ==>
                      drawn == Draw(buffer[..], screen.pitch, Glyph(font, cursor, c as int), cy, cx)
        {
          var color := if BitSet(glyphs[cy], cx) then cursor.fg else cursor.bg;
          if cursor.y + cy < 12 {
            return Panics;
          }
          r := DrawPixel(cursor.x + cx, cursor.y + cy - 12, color);
          if !r.Returns? {
            return;
          }
          cx := cx + 1;
        }
        cy := cy + 1;
      }
      r := Returns(());
    }

    /** What the pixels hold after a panic or a stray write is left open. */
    method WriteStr(text: string) returns (r: Outcome<()>)
      modifies this, buffer
      ensures match Written(Env(), text, old(View()))
              case Returns(t) => r == Returns(()) && View() == t
              case Panics => r == Panics
              case Strays => r == Strays
    {
      hide CharDrawn, LoadFont, ColorOf, FontOf, UpToM, AfterM;
      var x, y, fg := cursor.x, cursor.y, cursor.fg;
      var bg := cursor.bg;
      var chars := text;
      var position := 0;
      while chars != ""
        invariant position >= 0
        invariant Finish(Env(), Stage(text, PenAt(old(cursor)), old(View())))
               == Finish(Env(), Stage(chars, Pen(x, y, fg, bg, position), View()))
        decreases |chars|
      {
        ghost var turn := Turn(Env(), Stage(chars, Pen(x, y, fg, bg, position), View()));
        var character := chars[0];
        chars := chars[1..];
        match character
        case '\n' =>
          x := FONT_WIDTH;
          y := y + FONT_HEIGHT;
          position := 0;
          SetCursor(x, y, fg, bg);
        case '\r' =>
          x := FONT_WIDTH;
          position := 0;
          SetCursor(x, y, fg, bg);
        case '\t' =>
          x := x + FONT_WIDTH * 8;
          SetCursor(x, y, fg, bg);
        case '\U{1B}' =>
          var sequence := chars[..UpToM(chars)];
          chars := AfterM(chars);
          if ColorOf(sequence).Some? {
            fg := ColorOf(sequence).value;
          } else if FontOf(sequence).Some? {
            var loaded := LoadFont(initrd, FontOf(sequence).value);
            if !loaded.Returns? {
              return loaded.PropagateFailure();
            }
            font := loaded.value;
          }
        case _ =>
          SetCursor(x + FONT_WIDTH * position, y, fg, bg);
          var written := WriteChar(character);
          if !written.Returns? {
            return written;
          }
          position := position + 1;
        assert turn == Returns(Stage(chars, Pen(x, y, fg, bg, position), View()));
      }
      r := Returns(());
    }
  }
}
