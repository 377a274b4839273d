/**
 What the escape sequences select: the palette, and the font files with the glyphs in them.
 */
module ConsoleStyles {
  import opened Rust
  import opened Sequences
  import opened Numerals
  import opened Initrd
  import opened Archives
  import opened Framebuffer
  import opened Console
  import opened ConsoleTokens
  import opened ConsoleLayout
  import opened ConsoleText
  import opened Image

  // -------------------------------------------------------------------- fonts

  /** The files that load are exactly those of the two magic bytes, the mode, the glyph size and
      the bytes of the glyphs, with anything behind them; every other file panics. */
  lemma LoadFontIff(initrd: Initrd, path: string, font: Font)
    ensures LoadFont(initrd, path) == Returns(font) <==>
            exists rest: seq<u8> :: GetData(initrd, path) == Returns([0x36, 0x04, 0x02, 16] + font.glyphs + rest)
    ensures LoadFont(initrd, path).Returns? || LoadFont(initrd, path) == Panics
  {
    hide GetData;
    GetDataFirst(initrd.files, path);
    var data := GetData(initrd, path);
    if LoadFont(initrd, path) == Returns(font) {
      var psf := data.value;
      assert psf == [0x36, 0x04, 0x02, 16] + font.glyphs + psf[4100..];
    }
    if rest: seq<u8> :| data == Returns([0x36, 0x04, 0x02, 16] + font.glyphs + rest) {
      assert data.value[4..4100] == font.glyphs;
    }
  }

  // ------------------------------------------------------------------- colours

  /** The sequence that asks for a colour by its numbers. */
  function Sequence(p: Pixel): string {
    "[38;2;" + Decimal(p.red) + ";" + Decimal(p.green) + ";" + Decimal(p.blue)
  }

  const ASKED_BLUE := Pixel(0, 151, 230)
  const ASKED_GREEN := Pixel(68, 189, 50)
  const ASKED_ORANGE := Pixel(194, 54, 52)
  const ASKED_PURPLE := Pixel(140, 122, 230)
  const ASKED_RED := Pixel(232, 65, 24)
  const ASKED_YELLOW := Pixel(251, 197, 49)

  /** The colours that can be asked for. */
  const PALETTE: set<Pixel> := {ASKED_BLUE, ASKED_GREEN, ASKED_ORANGE, ASKED_PURPLE, ASKED_RED, ASKED_YELLOW}

  lemma DecimalInjective(m: nat, n: nat)
    ensures Decimal(m) == Decimal(n) ==> m == n
  {
    ValueOfDecimal(m);
    ValueOfDecimal(n);
  }

  lemma SequenceParts(p: Pixel)
    ensures Sequence(p) == "[38;2;" + (Decimal(p.red) + [';'] + (Decimal(p.green) + [';'] + Decimal(p.blue)))
  {
  }

  /** Different colours are asked for by different sequences. */
  lemma SequenceInjective(p: Pixel, q: Pixel)
    requires Sequence(p) == Sequence(q)
    ensures p == q
  {
    hide Decimal, Sequence;
    SequenceParts(p);
    SequenceParts(q);
    var p1, q1 := Decimal(p.green) + [';'] + Decimal(p.blue), Decimal(q.green) + [';'] + Decimal(q.blue);
    PrefixDrops("[38;2;", Decimal(p.red) + [';'] + p1, Decimal(q.red) + [';'] + q1);
    NotADigit(Decimal(p.red), ';');
    NotADigit(Decimal(q.red), ';');
    NotADigit(Decimal(p.green), ';');
    NotADigit(Decimal(q.green), ';');
    CutUnique(Decimal(p.red), p1, Decimal(q.red), q1, ';');
    CutUnique(Decimal(p.green), Decimal(p.blue), Decimal(q.green), Decimal(q.blue), ';');
    DecimalInjective(p.red, q.red);
    DecimalInjective(p.green, q.green);
    DecimalInjective(p.blue, q.blue);
  }

  lemma ThreeDigits(a: nat, b: nat, c: nat)
    requires a < 10 && b < 10 && c < 10
    ensures Decimal(a) == [DigitChar(a)]
    ensures a > 0 ==> Decimal(10 * a + b) == [DigitChar(a), DigitChar(b)]
    ensures a > 0 ==> Decimal(100 * a + 10 * b + c) == [DigitChar(a), DigitChar(b), DigitChar(c)]
  {
    if a > 0 {
      DecimalSnoc(a, b);
      DecimalSnoc(10 * a + b, c);
    }
  }

  lemma BlueAndGreen()
    ensures Sequence(ASKED_BLUE) == "[38;2;0;151;230" && Sequence(ASKED_GREEN) == "[38;2;68;189;50"
  {
    hide Decimal;
    ThreeDigits(0, 0, 0);
    ThreeDigits(1, 5, 1);
    ThreeDigits(2, 3, 0);
    ThreeDigits(6, 8, 0);
    ThreeDigits(1, 8, 9);
    ThreeDigits(5, 0, 0);
  }

  lemma OrangeAndPurple()
    ensures Sequence(ASKED_ORANGE) == "[38;2;194;54;52" && Sequence(ASKED_PURPLE) == "[38;2;140;122;230"
  {
    hide Decimal;
    ThreeDigits(1, 9, 4);
    ThreeDigits(5, 4, 0);
    ThreeDigits(5, 2, 0);
    ThreeDigits(1, 4, 0);
    ThreeDigits(1, 2, 2);
    ThreeDigits(2, 3, 0);
  }

  lemma RedAndYellow()
    ensures Sequence(ASKED_RED) == "[38;2;232;65;24" && Sequence(ASKED_YELLOW) == "[38;2;251;197;49"
  {
    hide Decimal;
    ThreeDigits(2, 3, 2);
    ThreeDigits(6, 5, 0);
    ThreeDigits(2, 4, 0);
    ThreeDigits(2, 5, 1);
    ThreeDigits(1, 9, 7);
    ThreeDigits(4, 9, 0);
  }

  lemma PaletteSequences()
    ensures Sequence(ASKED_BLUE) == "[38;2;0;151;230" && Sequence(ASKED_GREEN) == "[38;2;68;189;50"
    ensures Sequence(ASKED_ORANGE) == "[38;2;194;54;52" && Sequence(ASKED_PURPLE) == "[38;2;140;122;230"
    ensures Sequence(ASKED_RED) == "[38;2;232;65;24" && Sequence(ASKED_YELLOW) == "[38;2;251;197;49"
  {
    hide Sequence;
    BlueAndGreen();
    OrangeAndPurple();
    RedAndYellow();
  }

  /** The colour that is shown for one that is asked for: itself, but for orange. */
  function Shown(p: Pixel): Pixel {
    if p == ASKED_ORANGE then Pixel(194, 54, 22) else p
  }

  lemma Palette(p: Pixel)
    requires p in PALETTE
    ensures ColorOf(Sequence(p)) == Some(ColorOfPixel(Shown(p)))
  {
    hide Sequence;
    PaletteSequences();
  }

  /** Sequences select colours from the palette and nothing else; `[39` is the default, white.
      Two more select the fonts. */
  lemma StylesIff(sequence: string, color: u32, path: string)
    ensures ColorOf(sequence) == Some(color) <==>
            || (sequence == "[39" && color == ColorOfPixel(Pixel(0xF5, 0xF6, 0xFA)))
            || exists p :: p in PALETTE && sequence == Sequence(p) && color == ColorOfPixel(Shown(p))
    ensures FontOf(sequence) == Some(path) <==>
            || (sequence == "[1" && path == "initrd/usr/share/fonts/ter-i16b.psf")
            || (sequence == "[0" && path == "initrd/usr/share/fonts/ter-i16n.psf")
  {
    hide Sequence, ColorOfPixel;
    forall p | p in PALETTE
      ensures ColorOf(Sequence(p)) == Some(ColorOfPixel(Shown(p)))
    {
      Palette(p);
    }
    PaletteSequences();
    WhiteValue();
  }

  lemma WhiteValue()
    ensures ColorOfPixel(Pixel(0xF5, 0xF6, 0xFA)) == WHITE
  {
  }

  /** A sequence that asks for a colour by its numbers is recognized exactly for the palette, and
      gives the very colour it asks for except for orange. */
  lemma ColorAsked(p: Pixel)
    ensures ColorOf(Sequence(p)).Some? <==> p in PALETTE
    ensures p in PALETTE ==> (ColorOf(Sequence(p)) == Some(ColorOfPixel(p)) <==> p != Pixel(194, 54, 52))
  {
    hide Sequence;
    if p in PALETTE {
      Palette(p);
      OrangeDiffers();
    } else if ColorOf(Sequence(p)).Some? {
      PaletteSequences();
      NotDefault(p);
      var q :| q in PALETTE && Sequence(q) == Sequence(p);
      SequenceInjective(p, q);
    }
  }

  lemma OrangeDiffers()
    ensures ColorOfPixel(Shown(ASKED_ORANGE)) != ColorOfPixel(ASKED_ORANGE)
  {
  }

  lemma NotDefault(p: Pixel)
    ensures Sequence(p) != "[39"
  {
    hide Decimal;
    assert |Sequence(p)| > 3;
  }

  // ---------------------------------------------------------------- styled text

  predicate SelectsColor(token: Token) {
    token.Style? && ColorOf(token.sequence).Some?
  }

  /** The colour in force is that of the last sequence that asked for one. */
  lemma {:induction false} ColorChosen(color: u32, tokens: seq<Token>, i: nat, p: Pixel)
    requires i < |tokens| && tokens[i] == Style(Sequence(p)) && p in PALETTE
    requires forall j :: i < j < |tokens| ==> !SelectsColor(tokens[j])
    ensures ColorIn(color, tokens) == ColorOfPixel(Shown(p))
  {
    hide ColorOf, Sequence, ColorOfPixel, Shown;
    var last := |tokens| - 1;
    Palette(p);
    if i == last {
    } else {
      assert !SelectsColor(tokens[last]);
      ColorChosen(color, tokens[..last], i, p);
    }
  }

  /** The font in force is that of the last file that was called for. */
  lemma {:induction false} FontChosen(m: Machine, font: Font, tokens: seq<Token>, i: nat, chosen: Font)
    requires i < |tokens| && ChangesFont(tokens[i]) && LoadFont(m.initrd, FontOf(tokens[i].sequence).value) == Returns(chosen)
    requires forall j :: i < j < |tokens| ==> !ChangesFont(tokens[j])
    ensures FontIn(m, font, tokens) == chosen
  {
    hide LoadFont, FontOf;
    var last := |tokens| - 1;
    if i == last {
    } else {
      assert !ChangesFont(tokens[last]);
      FontChosen(m, font, tokens[..last], i, chosen);
    }
  }

  /** End to end: a character behind a sequence for a palette colour and a sequence for a font,
      with no others of their kinds in between, has on the screen the bits that the font's file
      holds for its code, in the numbers of the colour, save orange. */
  lemma StyledText(screen: Screen, m: Machine, t: Terminal, text: string, k: nat, column: nat, row: nat,
                   i: nat, p: Pixel, j: nat, path: string, glyphs: Glyphs, rest: seq<u8>)
    requires Sound(screen, t.pixels) && m.pitch == screen.pitch
    requires Printable(screen, m, t, Tokens(text)) && NoReturn(Tokens(text))
    requires k < |Tokens(text)| && Tokens(text)[k].Print? && column < 8 && row < 16
    requires i < k && Tokens(text)[i] == Style(Sequence(p)) && p in PALETTE
    requires forall l :: i < l < k ==> !SelectsColor(Tokens(text)[l])
    requires j < k && Tokens(text)[j].Style? && FontOf(Tokens(text)[j].sequence) == Some(path)
    requires GetData(m.initrd, path) == Returns([0x36, 0x04, 0x02, 16] + glyphs + rest)
    requires forall l :: j < l < k ==> !ChangesFont(Tokens(text)[l])
    ensures var cursor, code := CursorIn(t, Tokens(text)[..k]), Tokens(text)[k].c as int;
            && code < 256 && CellFits(screen, cursor, Tokens(text)[k].c)
            && Written(m, text, t).Returns? && Sound(screen, Written(m, text, t).value.pixels)
            && PixelAt(screen, Written(m, text, t).value.pixels, cursor.x + column, cursor.y - 12 + row)
               == if BitSet(glyphs[code * 16 + row], column) then [Shown(p).blue, Shown(p).green, Shown(p).red, 0]
                  else ColorBytes(t.cursor.bg)
  {
    TextRendered(screen, m, t, text, k, column, row);
    hide Printable, NoReturn, Sound, Tokens, Written, ColorBytes, PixelAt, LoadFont, Sequence, ColorOf, ColorOfPixel,
      Shown, FontOf, ColorIn, FontIn, Column, Row, CellFits, BitSet;
    var before := Tokens(text)[..k];
    ColorChosen(t.cursor.fg, before, i, p);
    ColorBytesOf(Shown(p));
    LoadFontIff(m.initrd, path, Font(glyphs));
    FontChosen(m, t.font, before, j, Font(glyphs));
  }
}
