/**
 What `write_str` puts on the screen.
 */
module ConsoleText {
  import opened Rust
  import opened Framebuffer
  import opened Console
  import opened ConsoleTokens
  import opened ConsoleLayout

  /** Every character to be printed has a glyph and a cell on the screen, and every font that is
      called for can be loaded. */
  predicate Printable(screen: Screen, m: Machine, t: Terminal, tokens: seq<Token>) {
    && (forall k :: 0 <= k < |tokens| && tokens[k].Print? ==> CellFits(screen, CursorIn(t, tokens[..k]), tokens[k].c))
    && (forall k :: 0 <= k < |tokens| && ChangesFont(tokens[k]) ==>
          LoadFont(m.initrd, FontOf(tokens[k].sequence).value).Returns?)
  }

  predicate CellFits(screen: Screen, cursor: Cursor, c: char) {
    && c as int < 256
    && 12 <= cursor.y && cursor.y + 4 <= screen.height && cursor.x + 8 <= screen.width
  }

  /** The cell of the k-th token: its character's glyph in the font and colours then in force. */
  function Cell(m: Machine, t: Terminal, tokens: seq<Token>, k: nat): Bitmap
    requires k < |tokens| && tokens[k].Print?
    requires tokens[k].c as int < 256 && CursorIn(t, tokens[..k]).y >= 12
  {
    Glyph(FontIn(m, t.font, tokens[..k]), CursorIn(t, tokens[..k]), tokens[k].c as int)
  }

  function Cells(screen: Screen, m: Machine, t: Terminal, tokens: seq<Token>): seq<Bitmap>
    requires Printable(screen, m, t, tokens)
  {
    if tokens == [] then []
    else
      var k := |tokens| - 1;
      PrintablePrefix(screen, m, t, tokens, k);
      Cells(screen, m, t, tokens[..k]) + if tokens[k].Print? then [Cell(m, t, tokens, k)] else []
  }

  lemma PrintablePrefix(screen: Screen, m: Machine, t: Terminal, tokens: seq<Token>, n: nat)
    requires Printable(screen, m, t, tokens) && n <= |tokens|
    ensures Printable(screen, m, t, tokens[..n])
  {
    forall k | 0 <= k < n && tokens[..n][k].Print?
      ensures CellFits(screen, CursorIn(t, tokens[..n][..k]), tokens[..n][k].c)
    {
      assert tokens[..n][..k] == tokens[..k];
    }
  }

  // ------------------------------------------- the automaton follows the layout

  /** After some tokens, the automaton's state is the layout's, and the pixels are what drawing
      the cells one after another makes of them. */
  predicate Follows(screen: Screen, m: Machine, t: Terminal, tokens: seq<Token>, s: Stage)
    requires Printable(screen, m, t, tokens)
  {
    && Tracks(m, t, tokens, s)
    && DrawAll(t.pixels, m.pitch, Cells(screen, m, t, tokens)) == Returns(s.terminal.pixels)
  }

  lemma FontLoads(screen: Screen, m: Machine, t: Terminal, tokens: seq<Token>, token: Token)
    requires Printable(screen, m, t, tokens + [token])
    ensures ChangesFont(token) ==> LoadFont(m.initrd, FontOf(token.sequence).value).Returns?
  {
    assert (tokens + [token])[|tokens|] == token;
  }

  lemma CellFit(screen: Screen, font: Font, cursor: Cursor, c: char)
    requires CellFits(screen, cursor, c)
    ensures Fits(screen, Glyph(font, cursor, c as int))
  {
  }

  lemma {:induction false} CellsFit(screen: Screen, m: Machine, t: Terminal, tokens: seq<Token>)
    requires Printable(screen, m, t, tokens)
    ensures AllFit(screen, Cells(screen, m, t, tokens))
  {
    hide Fits, Glyph, FontIn, CursorIn, CellFits;
    if tokens == [] {
    } else {
      var k := |tokens| - 1;
      PrintablePrefix(screen, m, t, tokens, k);
      CellsFit(screen, m, t, tokens[..k]);
      if tokens[k].Print? {
        CellFit(screen, FontIn(m, t.font, tokens[..k]), CursorIn(t, tokens[..k]), tokens[k].c);
      }
    }
  }

  lemma TurnFollows(screen: Screen, m: Machine, t: Terminal, tokens: seq<Token>, s: Stage)
    requires Sound(screen, t.pixels) && m.pitch == screen.pitch
    requires s.chars != ""
    requires var tokens' := tokens + [FirstToken(s.chars)];
             Printable(screen, m, t, tokens) && Printable(screen, m, t, tokens')
    requires Follows(screen, m, t, tokens, s)
    ensures var r := Turn(m, s);
            && r.Returns? && r.value.chars == AfterFirst(s.chars)
            && Follows(screen, m, t, tokens + [FirstToken(s.chars)], r.value)
  {
    hide LoadFont, ColorOf, FontOf, Glyph, UpToM, AfterM, Draw, DrawAll, Fits, Printable, Tracks, CharDrawn;
    var token := FirstToken(s.chars);
    var tokens' := tokens + [token];
    assert tokens'[..|tokens|] == tokens;
    TurnTracks(m, t, tokens, s);
    TrackedPen(m, t, tokens, s);
    if token.Print? {
      PrintFollows(screen, m, t, tokens, s, token.c);
    } else {
      var cells := Cells(screen, m, t, tokens);
      assert Cells(screen, m, t, tokens') == cells + [] == cells;
      if token.Style? {
        FontLoads(screen, m, t, tokens, token);
      }
    }
  }

  lemma PrintFollows(screen: Screen, m: Machine, t: Terminal, tokens: seq<Token>, s: Stage, c: char)
    requires Sound(screen, t.pixels) && m.pitch == screen.pitch
    requires Printable(screen, m, t, tokens) && Printable(screen, m, t, tokens + [Print(c)])
    requires Follows(screen, m, t, tokens, s)
    ensures var r := CharDrawn(s.terminal.pixels, m.pitch, s.terminal.font, CursorIn(t, tokens), c as int);
            && r.Returns?
            && DrawAll(t.pixels, m.pitch, Cells(screen, m, t, tokens + [Print(c)])) == r
  {
    hide Draw, DrawAll, Fits, Glyph, FontIn, Column, Row, ColorIn, Sound, Margin, Pending, LeftCursor;
    var tokens', k := tokens + [Print(c)], |tokens|;
    assert tokens'[..k] == tokens;
    assert CellFits(screen, CursorIn(t, tokens'[..k]), tokens'[k].c);
    var cells, cell := Cells(screen, m, t, tokens), Cell(m, t, tokens', k);
    assert Cells(screen, m, t, tokens') == cells + [cell];
    DrawAllSnoc(t.pixels, m.pitch, cells, cell);
    CellFit(screen, s.terminal.font, CursorIn(t, tokens), c);
    SoundKept(screen, t.pixels, s.terminal.pixels, m.pitch, cells);
    DrawSucceeds(screen, s.terminal.pixels, cell);
  }

  lemma SoundKept(screen: Screen, before: seq<u8>, after: seq<u8>, pitch: nat, cells: seq<Bitmap>)
    requires Sound(screen, before) && DrawAll(before, pitch, cells) == Returns(after)
    ensures Sound(screen, after)
  {
  }

  lemma {:induction false} FinishFollows(screen: Screen, m: Machine, t: Terminal, tokens: seq<Token>, s: Stage)
    requires Sound(screen, t.pixels) && m.pitch == screen.pitch
    requires Printable(screen, m, t, tokens) && Printable(screen, m, t, tokens + Tokens(s.chars))
    requires Follows(screen, m, t, tokens, s)
    ensures Finish(m, s).Returns?
    ensures Follows(screen, m, t, tokens + Tokens(s.chars), Finish(m, s).value)
    decreases |s.chars|
  {
    hide Follows, Turn, Printable, Sound;
    if s.chars == "" {
      assert tokens + Tokens(s.chars) == tokens;
    } else {
      var tokens' := tokens + [FirstToken(s.chars)];
      assert tokens + Tokens(s.chars) == tokens' + Tokens(AfterFirst(s.chars));
      PrintablePrefix(screen, m, t, tokens + Tokens(s.chars), |tokens'|);
      assert (tokens + Tokens(s.chars))[..|tokens'|] == tokens';
      TurnFollows(screen, m, t, tokens, s);
      FinishFollows(screen, m, t, tokens', Turn(m, s).value);
    }
  }

  /** Text whose characters all have glyphs and cells on the screen is written without fault. It
      leaves the cursor, colours and font the layout says, and the screen shows those cells, in
      the order of the text, over what was there: where cells overlap (which takes a carriage
      return) the later one, elsewhere nothing new. */
  lemma TextShown(screen: Screen, m: Machine, t: Terminal, text: string)
    requires Sound(screen, t.pixels) && m.pitch == screen.pitch
    requires Printable(screen, m, t, Tokens(text))
    ensures Written(m, text, t).Returns?
    ensures var t' := Written(m, text, t).value;
            && t'.cursor == LeftCursor(t, Tokens(text))
            && t'.font == FontIn(m, t.font, Tokens(text))
            && Sound(screen, t'.pixels)
            && Shows(screen, t.pixels, Cells(screen, m, t, Tokens(text)), t'.pixels)
  {
    hide Cell, Printable, Turn, Shows, LeftCursor, FontIn;
    var tokens, s := Tokens(text), Stage(text, PenAt(t.cursor), t);
    PrintablePrefix(screen, m, t, tokens, 0);
    assert tokens[..0] == [] && [] + tokens == tokens;
    StartTracks(m, t, text);
    FinishFollows(screen, m, t, [], s);
    CellsFit(screen, m, t, tokens);
    DrawAllShows(screen, t.pixels, Cells(screen, m, t, tokens));
  }

  // ---------------------------------------------------- without carriage returns

  predicate NoReturn(tokens: seq<Token>) {
    Return !in tokens
  }

  /** Without carriage returns the pen only moves on: right, or down to a new line. */
  lemma {:induction false} MovesOn(x: nat, y: nat, tokens: seq<Token>, k: nat, n: nat)
    requires NoReturn(tokens) && k < n <= |tokens| && tokens[k].Print?
    ensures || Row(y, tokens[..k]) + 16 <= Row(y, tokens[..n])
            || (Row(y, tokens[..n]) == Row(y, tokens[..k]) && Column(x, tokens[..k]) + 8 <= Column(x, tokens[..n]))
    decreases n
  {
    assert tokens[..n][..n - 1] == tokens[..n - 1];
    assert tokens[n - 1] in tokens;
    if k >= n - 1 {
    } else {
      MovesOn(x, y, tokens, k, n - 1);
    }
  }

  /** No later cell covers a pixel of an earlier one. */
  lemma CellsApart(screen: Screen, m: Machine, t: Terminal, tokens: seq<Token>, k: nat, n: nat, x: nat, y: nat)
    requires Printable(screen, m, t, tokens) && NoReturn(tokens)
    requires k < n < |tokens| && tokens[k].Print? && tokens[n].Print?
    requires CellFits(screen, CursorIn(t, tokens[..k]), tokens[k].c) && CellFits(screen, CursorIn(t, tokens[..n]), tokens[n].c)
    requires Covers(Cell(m, t, tokens, k), x, y)
    ensures !Covers(Cell(m, t, tokens, n), x, y)
  {
    hide FontIn, Column, Row, ColorIn, Printable, NoReturn;
    MovesOn(t.cursor.x, t.cursor.y, tokens, k, n);
  }

  lemma CellKnown(screen: Screen, m: Machine, t: Terminal, tokens: seq<Token>, k: nat)
    requires Printable(screen, m, t, tokens) && k < |tokens|
    ensures tokens[k].Print? ==>
              && tokens[k].c as int < 256 && CursorIn(t, tokens[..k]).y >= 12
              && CellFits(screen, CursorIn(t, tokens[..k]), tokens[k].c)
  {
  }

  lemma {:induction false} SeenInCell(screen: Screen, m: Machine, t: Terminal, tokens: seq<Token>, n: nat, k: nat,
                                      x: nat, y: nat)
    requires Sound(screen, t.pixels) && OnScreen(screen, x, y)
    requires Printable(screen, m, t, tokens) && NoReturn(tokens)
    requires k < n <= |tokens| && tokens[k].Print? && Printable(screen, m, t, tokens[..n])
    requires CellFits(screen, CursorIn(t, tokens[..k]), tokens[k].c)
    requires Covers(Cell(m, t, tokens, k), x, y)
    ensures var cell := Cell(m, t, tokens, k);
            Seen(screen, t.pixels, Cells(screen, m, t, tokens[..n]), x, y) == ColorBytes(cell.rows[y - cell.y][x - cell.x])
    decreases n
  {
    hide Column, Row, ColorIn, NoReturn, FontIn, Glyph, CellFits, Sound, Covers, CursorIn;
    var last := n - 1;
    assert tokens[..n][..last] == tokens[..last];
    CellKnown(screen, m, t, tokens, last);
    PrintablePrefix(screen, m, t, tokens, last);
    var cells := Cells(screen, m, t, tokens[..last]);
    if tokens[last].Print? {
      assert tokens[..n][last] == tokens[last];
      assert Cell(m, t, tokens[..n], last) == Cell(m, t, tokens, last);
      assert (cells + [Cell(m, t, tokens, last)])[..|cells|] == cells;
      if k < last {
        CellsApart(screen, m, t, tokens, k, last, x, y);
        SeenInCell(screen, m, t, tokens, last, k, x, y);
      }
    } else {
      assert cells + [] == cells;
      SeenInCell(screen, m, t, tokens, last, k, x, y);
    }
  }

  /** Text rendering: for any text without a carriage return, when `write_str` returns, every
      pixel of every printed character's 8x16 cell has the colour its glyph gives it in the
      font and colours in force when it was printed; later characters have not disturbed it. */
  lemma TextRendered(screen: Screen, m: Machine, t: Terminal, text: string, k: nat, column: nat, row: nat)
    requires Sound(screen, t.pixels) && m.pitch == screen.pitch
    requires Printable(screen, m, t, Tokens(text)) && NoReturn(Tokens(text))
    requires k < |Tokens(text)| && Tokens(text)[k].Print? && column < 8 && row < 16
    ensures var before, code := Tokens(text)[..k], Tokens(text)[k].c as int;
            var cursor, font := CursorIn(t, before), FontIn(m, t.font, before);
            && code < 256 && CellFits(screen, cursor, Tokens(text)[k].c)
            && Written(m, text, t).Returns? && Sound(screen, Written(m, text, t).value.pixels)
            && PixelAt(screen, Written(m, text, t).value.pixels, cursor.x + column, cursor.y - 12 + row)
               == ColorBytes(if BitSet(font.glyphs[code * 16 + row], column) then cursor.fg else cursor.bg)
  {
    hide Column, Row, ColorIn, NoReturn, FontIn, Sound, Tokens, Written, ColorBytes, Cells, Seen, PixelAt;
    var tokens := Tokens(text);
    var cursor := CursorIn(t, tokens[..k]);
    assert CellFits(screen, cursor, tokens[k].c);
    TextShown(screen, m, t, text);
    assert tokens[..|tokens|] == tokens;
    SeenInCell(screen, m, t, tokens, |tokens|, k, cursor.x + column, cursor.y - 12 + row);
  }

  lemma {:induction false} SeenElsewhere(screen: Screen, before: seq<u8>, bitmaps: seq<Bitmap>, x: nat, y: nat)
    requires Sound(screen, before) && OnScreen(screen, x, y)
    requires forall i :: 0 <= i < |bitmaps| ==> !Covers(bitmaps[i], x, y)
    ensures Seen(screen, before, bitmaps, x, y) == PixelAt(screen, before, x, y)
  {
    if bitmaps == [] {
    } else {
      SeenElsewhere(screen, before, bitmaps[..|bitmaps| - 1], x, y);
    }
  }

  lemma {:induction false} CellsOnly(screen: Screen, m: Machine, t: Terminal, tokens: seq<Token>, x: nat, y: nat)
    requires Printable(screen, m, t, tokens)
    requires forall k :: 0 <= k < |tokens| && tokens[k].Print? ==> !InCell(CursorIn(t, tokens[..k]), x, y)
    ensures forall i :: 0 <= i < |Cells(screen, m, t, tokens)| ==> !Covers(Cells(screen, m, t, tokens)[i], x, y)
  {
    hide Column, Row, ColorIn, FontIn;
    if tokens == [] {
    } else {
      var k := |tokens| - 1;
      PrintablePrefix(screen, m, t, tokens, k);
      forall j | 0 <= j < k && tokens[..k][j].Print?
        ensures !InCell(CursorIn(t, tokens[..k][..j]), x, y)
      {
        assert tokens[..k][..j] == tokens[..j];
      }
      CellsOnly(screen, m, t, tokens[..k], x, y);
    }
  }

  predicate InCell(cursor: Cursor, x: nat, y: nat) {
    cursor.x <= x < cursor.x + 8 && cursor.y <= y + 12 < cursor.y + 16
  }

  /** No pixel outside the cells of the printed characters has changed, nor any byte between
      the rows. */
  lemma RestUntouched(screen: Screen, m: Machine, t: Terminal, text: string, x: nat, y: nat, v: nat, b: nat)
    requires Sound(screen, t.pixels) && m.pitch == screen.pitch
    requires Printable(screen, m, t, Tokens(text))
    ensures Written(m, text, t).Returns? && Sound(screen, Written(m, text, t).value.pixels)
    ensures OnScreen(screen, x, y)
            && (forall k :: 0 <= k < |Tokens(text)| && Tokens(text)[k].Print? ==> !InCell(CursorIn(t, Tokens(text)[..k]), x, y)) ==>
              PixelAt(screen, Written(m, text, t).value.pixels, x, y) == PixelAt(screen, t.pixels, x, y)
    ensures IsPadding(screen, v, b) ==>
              PaddingAt(screen, Written(m, text, t).value.pixels, v, b) == PaddingAt(screen, t.pixels, v, b)
  {
    hide Printable, CursorIn, Written, Sound, PixelAt, PaddingAt, Cells, Tokens, Seen;
    TextShown(screen, m, t, text);
    var tokens := Tokens(text);
    if OnScreen(screen, x, y) && forall k :: 0 <= k < |tokens| && tokens[k].Print? ==> !InCell(CursorIn(t, tokens[..k]), x, y) {
      CellsOnly(screen, m, t, tokens, x, y);
      SeenElsewhere(screen, t.pixels, Cells(screen, m, t, tokens), x, y);
    }
  }

  /** Clearing a sound screen succeeds and makes every pixel black. */
  lemma Cleared(screen: Screen, before: seq<u8>, x: nat, y: nat)
    requires Sound(screen, before) && OnScreen(screen, x, y)
    ensures Draw(before, screen.pitch, Blank(screen), 0, 0).Returns?
    ensures var after := Draw(before, screen.pitch, Blank(screen), 0, 0).value;
            Sound(screen, after) && PixelAt(screen, after, x, y) == [0, 0, 0, 0]
  {
    hide PixelAt, Draw;
    DrawPixels(screen, before, Blank(screen), 0, 0, x, y);
  }
}
