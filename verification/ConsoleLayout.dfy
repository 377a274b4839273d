/**
 The layout of a text, by counting: where each character goes, in which colours and font, and
 what one call of `write_str` leaves behind. The automaton keeps to it, and the exact texts on
 which it returns, panics or strays can be read off it.
 */
module ConsoleLayout {
  import opened Rust
  import opened Framebuffer
  import opened Console
  import opened ConsoleTokens

  // ----------------------------------------------------------- laying text out

  /** Where the next character goes, after some tokens: 8 columns for each character, 64 for
      each tab, and back to column 8 on a new line. */
  function Column(x: nat, tokens: seq<Token>): nat {
    if tokens == [] then x
    else
      var before := Column(x, tokens[..|tokens| - 1]);
      match tokens[|tokens| - 1]
      case Newline => 8
      case Return => 8
      case Tab => before + 64
      case Style(_) => before
      case Print(_) => before + 8
  }

  /** 16 rows down for each newline. */
  function Row(y: nat, tokens: seq<Token>): nat {
    if tokens == [] then y
    else Row(y, tokens[..|tokens| - 1]) + if tokens[|tokens| - 1] == Newline then 16 else 0
  }

  /** The colour in force: that of the last colour sequence. */
  function ColorIn(color: u32, tokens: seq<Token>): u32 {
    if tokens == [] then color
    else
      var last := tokens[|tokens| - 1];
      if last.Style? && ColorOf(last.sequence).Some? then ColorOf(last.sequence).value
      else ColorIn(color, tokens[..|tokens| - 1])
  }

  /** The font in force: that of the last font sequence. */
  function FontIn(m: Machine, font: Font, tokens: seq<Token>): Font {
    if tokens == [] then font
    else
      var last := tokens[|tokens| - 1];
      if ChangesFont(last) && LoadFont(m.initrd, FontOf(last.sequence).value).Returns? then
        LoadFont(m.initrd, FontOf(last.sequence).value).value
      else FontIn(m, font, tokens[..|tokens| - 1])
  }

  predicate ChangesFont(token: Token) {
    token.Style? && FontOf(token.sequence).Some?
  }

  function CursorIn(t: Terminal, tokens: seq<Token>): Cursor {
    Cursor(Column(t.cursor.x, tokens), Row(t.cursor.y, tokens), ColorIn(t.cursor.fg, tokens), t.cursor.bg)
  }

  // -------------------------------------------------- what the automaton keeps

  /** The characters printed since the line began. */
  function Pending(tokens: seq<Token>): nat {
    if tokens == [] then 0
    else
      match tokens[|tokens| - 1]
      case Newline => 0
      case Return => 0
      case Print(_) => Pending(tokens[..|tokens| - 1]) + 1
      case _ => Pending(tokens[..|tokens| - 1])
  }

  /** Where the line began, moved on by its tabs. */
  function Margin(x: nat, tokens: seq<Token>): nat {
    if tokens == [] then x
    else
      var before := Margin(x, tokens[..|tokens| - 1]);
      match tokens[|tokens| - 1]
      case Newline => 8
      case Return => 8
      case Tab => before + 64
      case _ => before
  }

  lemma {:induction false} ColumnSplits(x: nat, tokens: seq<Token>)
    ensures Column(x, tokens) == Margin(x, tokens) + 8 * Pending(tokens)
  {
    if tokens == [] {
    } else {
      ColumnSplits(x, tokens[..|tokens| - 1]);
    }
  }

  /** The column of the cursor: escape sequences do not move it, a character leaves it on its
      own cell, and a tab where the line's characters would start. */
  function CursorColumn(x: nat, tokens: seq<Token>): nat {
    if tokens == [] then x
    else
      var before := tokens[..|tokens| - 1];
      match tokens[|tokens| - 1]
      case Newline => 8
      case Return => 8
      case Tab => Margin(x, tokens)
      case Print(_) => Column(x, before)
      case Style(_) => CursorColumn(x, before)
  }

  /** The colour of the cursor: that in force when the cursor was last set, which colour
      sequences at the end of the text do not do. */
  function LastShown(color: u32, tokens: seq<Token>): u32 {
    if tokens == [] then color
    else
      var before := tokens[..|tokens| - 1];
      if tokens[|tokens| - 1].Style? then LastShown(color, before) else ColorIn(color, before)
  }

  /** The cursor a call leaves for the next. */
  function LeftCursor(t: Terminal, tokens: seq<Token>): Cursor {
    Cursor(CursorColumn(t.cursor.x, tokens), Row(t.cursor.y, tokens), LastShown(t.cursor.fg, tokens), t.cursor.bg)
  }

  /** The pen a call throws away. */
  function FinalPen(t: Terminal, tokens: seq<Token>): Pen {
    Pen(Margin(t.cursor.x, tokens), Row(t.cursor.y, tokens), ColorIn(t.cursor.fg, tokens), t.cursor.bg, Pending(tokens))
  }

  /** After some tokens, the automaton's whole state but for the pixels is the layout's. */
  predicate Tracks(m: Machine, t: Terminal, tokens: seq<Token>, s: Stage) {
    && s.pen == FinalPen(t, tokens)
    && s.terminal.cursor == LeftCursor(t, tokens)
    && s.terminal.font == FontIn(m, t.font, tokens)
    && |s.terminal.pixels| == |t.pixels|
  }

  // ------------------------------------------------------------------- outcomes

  /** What becomes of one token at a cursor, with so many bytes to draw in: a font may fail to
      load; a character may be past the font, or too high on the screen, or have the last pixel
      of its cell outside the buffer. Everything else returns. */
  function Fate(m: Machine, length: nat, cursor: Cursor, token: Token): Outcome<()> {
    match token
    case Style(sequence) =>
      if FontOf(sequence).None? then Returns(())
      else
        var _ :- LoadFont(m.initrd, FontOf(sequence).value);
        Returns(())
    case Print(c) =>
      if c as int > 256 then Panics
      else if c as int == 256 then Returns(())
      else if cursor.y < 12 then Panics
      else if PixelOffset(m.pitch, cursor.x + 7, cursor.y + 3) + 4 <= length then Returns(())
      else Strays
    case _ => Returns(())
  }

  function TokenFate(m: Machine, t: Terminal, tokens: seq<Token>, k: nat): Outcome<()>
    requires k < |tokens|
  {
    Fate(m, |t.pixels|, CursorIn(t, tokens[..k]), tokens[k])
  }

  /** The first fault from a token on, if there is one. */
  function Outlook(m: Machine, t: Terminal, tokens: seq<Token>, k: nat): Outcome<()>
    requires k <= |tokens|
    decreases |tokens| - k
  {
    if k == |tokens| then Returns(())
    else
      var _ :- TokenFate(m, t, tokens, k);
      Outlook(m, t, tokens, k + 1)
  }

  predicate Alike<T, U>(r: Outcome<T>, q: Outcome<U>) {
    (r.Returns? <==> q.Returns?) && (r.Panics? <==> q.Panics?)
  }

  lemma CharFate(m: Machine, pixels: seq<u8>, font: Font, cursor: Cursor, c: char)
    ensures Alike(CharDrawn(pixels, m.pitch, font, cursor, c as int), Fate(m, |pixels|, cursor, Print(c)))
    ensures var r := CharDrawn(pixels, m.pitch, font, cursor, c as int); r.Returns? ==> |r.value| == |pixels|
  {
    hide Draw, PixelOffset;
    if c as int < 256 && cursor.y >= 12 {
      DrawEnds(pixels, m.pitch, Glyph(font, cursor, c as int), 8);
    }
  }

  lemma StyleKinds(sequence: string)
    ensures ColorOf(sequence).Some? ==> FontOf(sequence).None?
  {
  }

  lemma TrackedPen(m: Machine, t: Terminal, tokens: seq<Token>, s: Stage)
    requires Tracks(m, t, tokens, s)
    ensures CursorAt(s.pen).(x := s.pen.x + FONT_WIDTH * s.pen.position) == CursorIn(t, tokens)
    ensures s.terminal.font == FontIn(m, t.font, tokens)
  {
    ColumnSplits(t.cursor.x, tokens);
  }

  /** A turn of the loop keeps to the layout, and ends as the token's fate says. */
  lemma TurnTracks(m: Machine, t: Terminal, tokens: seq<Token>, s: Stage)
    requires s.chars != "" && Tracks(m, t, tokens, s)
    ensures var r := Turn(m, s);
            && Alike(r, Fate(m, |t.pixels|, CursorIn(t, tokens), FirstToken(s.chars)))
            && (r.Returns? ==>
                  && r.value.chars == AfterFirst(s.chars)
                  && Tracks(m, t, tokens + [FirstToken(s.chars)], r.value))
  {
    hide LoadFont, ColorOf, FontOf, UpToM, AfterM, CharDrawn;
    var token := FirstToken(s.chars);
    var tokens' := tokens + [token];
    assert tokens'[..|tokens|] == tokens && tokens'[|tokens|] == token;
    TrackedPen(m, t, tokens, s);
    if token.Print? {
      CharFate(m, s.terminal.pixels, s.terminal.font, CursorIn(t, tokens), token.c);
    } else if token.Style? {
      StyleKinds(token.sequence);
    }
  }

  lemma {:induction false} FinishTracks(m: Machine, t: Terminal, tokens: seq<Token>, s: Stage)
    requires Tracks(m, t, tokens, s)
    ensures var all, end := tokens + Tokens(s.chars), Finish(m, s);
            && Alike(end, Outlook(m, t, all, |tokens|))
            && (end.Returns? ==> Tracks(m, t, all, end.value))
    decreases |s.chars|
  {
    hide Tracks, Turn, Fate;
    var all := tokens + Tokens(s.chars);
    if s.chars == "" {
      assert all == tokens;
    } else {
      var tokens' := tokens + [FirstToken(s.chars)];
      assert all == tokens' + Tokens(AfterFirst(s.chars));
      assert all[..|tokens|] == tokens && all[|tokens|] == FirstToken(s.chars);
      TurnTracks(m, t, tokens, s);
      if Turn(m, s).Returns? {
        FinishTracks(m, t, tokens', Turn(m, s).value);
      }
    }
  }

  lemma {:induction false} OutlookReturns(m: Machine, t: Terminal, tokens: seq<Token>, k: nat)
    requires k <= |tokens|
    ensures Outlook(m, t, tokens, k).Returns? <==> forall j :: k <= j < |tokens| ==> TokenFate(m, t, tokens, j).Returns?
    decreases |tokens| - k
  {
    hide TokenFate;
    if k == |tokens| {
    } else {
      OutlookReturns(m, t, tokens, k + 1);
    }
  }

  lemma {:induction false} OutlookFaults(m: Machine, t: Terminal, tokens: seq<Token>, k: nat, i: nat)
    requires k <= i < |tokens| && !TokenFate(m, t, tokens, i).Returns?
    requires forall j :: k <= j < i ==> TokenFate(m, t, tokens, j).Returns?
    ensures Alike(Outlook(m, t, tokens, k), TokenFate(m, t, tokens, i))
    decreases i - k
  {
    hide TokenFate;
    if k == i {
    } else {
      OutlookFaults(m, t, tokens, k + 1, i);
    }
  }

  /** Every token of a text can be handled where the layout puts it. */
  predicate Harmless(m: Machine, t: Terminal, tokens: seq<Token>) {
    forall k :: 0 <= k < |tokens| ==> TokenFate(m, t, tokens, k).Returns?
  }

  /** `write_str` returns on exactly the texts without a harmful token, and then leaves the
      cursor and the font the layout says. */
  lemma WrittenIff(m: Machine, t: Terminal, text: string)
    ensures Written(m, text, t).Returns? <==> Harmless(m, t, Tokens(text))
    ensures Written(m, text, t).Returns? ==>
              var t' := Written(m, text, t).value;
              t'.cursor == LeftCursor(t, Tokens(text)) && t'.font == FontIn(m, t.font, Tokens(text))
  {
    StageTracks(m, t, text);
    hide Finish, Outlook, TokenFate, LeftCursor, FontIn;
    OutlookReturns(m, t, Tokens(text), 0);
  }

  /** On the others, the first harmful token decides how it ends. */
  lemma WrittenFaults(m: Machine, t: Terminal, text: string, k: nat)
    requires k < |Tokens(text)| && !TokenFate(m, t, Tokens(text), k).Returns?
    requires forall j :: 0 <= j < k ==> TokenFate(m, t, Tokens(text), j).Returns?
    ensures Alike(Written(m, text, t), TokenFate(m, t, Tokens(text), k))
  {
    hide TokenFate, Outlook, Finish;
    StageTracks(m, t, text);
    OutlookFaults(m, t, Tokens(text), 0, k);
  }

  lemma StartTracks(m: Machine, t: Terminal, text: string)
    ensures Tracks(m, t, [], Stage(text, PenAt(t.cursor), t))
  {
  }

  lemma StageTracks(m: Machine, t: Terminal, text: string)
    ensures var end := Finish(m, Stage(text, PenAt(t.cursor), t));
            && Alike(end, Outlook(m, t, Tokens(text), 0))
            && (end.Returns? ==> Tracks(m, t, Tokens(text), end.value))
  {
    assert [] + Tokens(text) == Tokens(text);
    StartTracks(m, t, text);
    FinishTracks(m, t, [], Stage(text, PenAt(t.cursor), t));
  }
}
