/**
 When one call of `write_str` does the same as two. Between calls only the cursor survives,
 and the automaton keeps more than the cursor, so the answer is not "always".
 */
module ConsoleCalls {
  import opened Rust
  import opened Framebuffer
  import opened Console
  import opened ConsoleTokens
  import opened ConsoleLayout
  import opened ConsoleText

  lemma UpToMConcat(a: string, b: string)
    requires UpToM(a) < |a|
    ensures UpToM(a + b) == UpToM(a) && AfterM(a + b) == AfterM(a) + b
    ensures (a + b)[..UpToM(a)] == a[..UpToM(a)]
  {
    hide UpToM;
    var n := UpToM(a);
    assert (a + b)[..n] == a[..n];
    UpToMUnique(a + b, n);
    assert (a + b)[n + 1..] == a[n + 1..] + b;
  }

  /** A complete first token is handled the same whatever follows the text. */
  lemma TurnConcat(m: Machine, a: string, b: string, pen: Pen, t: Terminal)
    requires a != "" && FirstClosed(a)
    ensures match Turn(m, Stage(a, pen, t))
            case Returns(s) => s.chars == AfterFirst(a) && Turn(m, Stage(a + b, pen, t)) == Returns(s.(chars := s.chars + b))
            case Panics => Turn(m, Stage(a + b, pen, t)) == Panics
            case Strays => Turn(m, Stage(a + b, pen, t)) == Strays
  {
    hide LoadFont, ColorOf, FontOf, CharDrawn, UpToM, AfterM;
    assert (a + b)[1..] == a[1..] + b;
    if a[0] == ESCAPE {
      UpToMConcat(a[1..], b);
    }
  }

  function Then(m: Machine, r: Outcome<Stage>, b: string): Outcome<Stage> {
    match r
    case Returns(s) => Finish(m, s.(chars := b))
    case Panics => Panics
    case Strays => Strays
  }

  lemma {:induction false} FinishConcat(m: Machine, a: string, b: string, pen: Pen, t: Terminal)
    requires Closed(a)
    ensures Finish(m, Stage(a + b, pen, t)) == Then(m, Finish(m, Stage(a, pen, t)), b)
    decreases |a|
  {
    if a == "" {
      assert a + b == b;
    } else {
      hide Turn, FirstClosed;
      TurnConcat(m, a, b, pen, t);
      var turn := Turn(m, Stage(a, pen, t));
      if turn.Returns? {
        FinishConcat(m, turn.value.chars, b, turn.value.pen, turn.value.terminal);
      }
    }
  }

  // ---------------------------------------------------------------- calls in step

  /** One call with both texts does what two calls do, from a given terminal. */
  predicate Composes(m: Machine, a: string, b: string, t: Terminal) {
    var first := Written(m, a, t);
    Written(m, a + b, t) == if first.Returns? then Written(m, b, first.value) else first
  }

  /** The cursor left behind tells all that the automaton knew. */
  predicate InSync(m: Machine, text: string, t: Terminal) {
    var end := Finish(m, Stage(text, PenAt(t.cursor), t));
    end.Returns? && end.value.pen == PenAt(end.value.terminal.cursor)
  }

  lemma {:induction false} BackgroundKept(m: Machine, s: Stage)
    requires s.pen.bg == s.terminal.cursor.bg && Finish(m, s).Returns?
    ensures var end := Finish(m, s).value; end.pen.bg == end.terminal.cursor.bg
    decreases |s.chars|
  {
    if s.chars == "" {
    } else {
      hide LoadFont, ColorOf, FontOf, CharDrawn, UpToM, AfterM;
      BackgroundKept(m, Turn(m, s).value);
    }
  }

  lemma {:induction false} OpenSwallows(m: Machine, s: Stage, b: string)
    requires !Closed(s.chars) && 'm' !in b
    requires Finish(m, s).Returns? && Finish(m, s.(chars := s.chars + b)).Returns?
    ensures Finish(m, s.(chars := s.chars + b)).value.terminal.cursor == Finish(m, s).value.terminal.cursor
    decreases |s.chars|
  {
    hide Turn, UpToM, AfterM;
    var a := s.chars;
    if FirstClosed(a) {
      TurnConcat(m, a, b, s.pen, s.terminal);
      OpenSwallows(m, Turn(m, s).value, b);
    } else {
      OpenTurn(m, s);
      assert (a + b)[1..] == a[1..] + b;
      assert 'm' !in a[1..];
      UpToMUnique(a[1..] + b, |a[1..] + b|);
      OpenTurn(m, s.(chars := a + b));
    }
  }

  lemma OpenTurn(m: Machine, s: Stage)
    requires s.chars != "" && s.chars[0] == ESCAPE && UpToM(s.chars[1..]) == |s.chars[1..]|
    requires Finish(m, s).Returns?
    ensures Finish(m, s).value.terminal.cursor == s.terminal.cursor
  {
    hide LoadFont, ColorOf, FontOf, CharDrawn;
  }

  /** A tab shows where the pen really is; so does the character that takes a cell but draws
      nothing. */
  lemma Probe(m: Machine, pen: Pen, t: Terminal)
    ensures var tab := Finish(m, Stage("\t", pen, t));
            tab.Returns? && tab.value.terminal.cursor == Cursor(pen.x + 64, pen.y, pen.fg, pen.bg)
    ensures var blank := Finish(m, Stage("\U{100}", pen, t));
            blank.Returns? && blank.value.terminal.cursor == Cursor(pen.x + 8 * pen.position, pen.y, pen.fg, pen.bg)
  {
    assert "\t"[1..] == "" && "\U{100}"[1..] == "";
    hide Finish;
    var tab := Turn(m, Stage("\t", pen, t));
    var blank := Turn(m, Stage("\U{100}", pen, t));
    FinishOne(m, Stage("\t", pen, t));
    FinishOne(m, Stage("\U{100}", pen, t));
  }

  lemma FinishOne(m: Machine, s: Stage)
    requires |s.chars| == 1 && Turn(m, s).Returns? && Turn(m, s).value.chars == ""
    ensures Finish(m, s) == Turn(m, s)
  {
    hide Turn;
  }

  lemma InSyncComposes(m: Machine, a: string, b: string, t: Terminal)
    requires Closed(a) && InSync(m, a, t)
    ensures Composes(m, a, b, t)
  {
    hide Turn, Finish;
    FinishConcat(m, a, b, PenAt(t.cursor), t);
  }

  lemma OutOfSync(m: Machine, a: string, t: Terminal)
    requires Written(m, a, t).Returns? && !(Closed(a) && InSync(m, a, t))
    ensures !Composes(m, a, "\t", t) || !Composes(m, a, "\U{100}", t)
  {
    hide Turn, Finish, Closed;
    var start := Stage(a, PenAt(t.cursor), t);
    var end := Finish(m, start).value;
    BackgroundKept(m, start);
    Probe(m, PenAt(end.terminal.cursor), end.terminal);
    if Closed(a) {
      FinishConcat(m, a, "\t", PenAt(t.cursor), t);
      FinishConcat(m, a, "\U{100}", PenAt(t.cursor), t);
      Probe(m, end.pen, end.terminal);
    } else if Finish(m, start.(chars := a + "\t")).Returns? {
      OpenSwallows(m, start, "\t");
    }
  }

  lemma {:induction false} MarginHolds(x: nat, tokens: seq<Token>)
    requires Pending(tokens) == 0
    ensures CursorColumn(x, tokens) == Margin(x, tokens)
  {
    if tokens == [] {
    } else if tokens[|tokens| - 1].Style? {
      MarginHolds(x, tokens[..|tokens| - 1]);
    }
  }

  /** The layout leaves nothing the cursor does not tell: no character has been printed since the
      line began, and the colour in force has been shown to the cursor. */
  predicate InStep(t: Terminal, tokens: seq<Token>) {
    Pending(tokens) == 0 && ColorIn(t.cursor.fg, tokens) == LastShown(t.cursor.fg, tokens)
  }

  lemma InStepIff(m: Machine, a: string, t: Terminal)
    requires Written(m, a, t).Returns?
    ensures InSync(m, a, t) <==> InStep(t, Tokens(a))
  {
    hide Finish, Outlook, Margin, CursorColumn, Row, Tokens;
    StageTracks(m, t, a);
    if Pending(Tokens(a)) == 0 {
      MarginHolds(t.cursor.x, Tokens(a));
    }
  }

  // -------------------------------------------------------- texts one after another

  /** The tokens of a text that nothing written behind it can change. */
  function Settled(text: string): nat {
    if Closed(text) || Tokens(text) == [] then |Tokens(text)| else |Tokens(text)| - 1
  }

  lemma FirstTokenConcat(a: string, b: string)
    requires a != "" && FirstClosed(a)
    ensures FirstToken(a + b) == FirstToken(a) && AfterFirst(a + b) == AfterFirst(a) + b
  {
    hide UpToM, AfterM;
    assert (a + b)[1..] == a[1..] + b;
    if a[0] == ESCAPE {
      UpToMConcat(a[1..], b);
    }
  }

  lemma TokensConcat(a: string, b: string)
    requires a != "" && FirstClosed(a)
    ensures Tokens(a) == [FirstToken(a)] + Tokens(AfterFirst(a))
    ensures Tokens(a + b) == [FirstToken(a)] + Tokens(AfterFirst(a) + b)
  {
    hide FirstClosed, FirstToken, AfterFirst;
    FirstTokenConcat(a, b);
  }

  lemma {:induction false} SettledKept(a: string, b: string)
    ensures Settled(a) <= |Tokens(a)| && Settled(a) <= |Tokens(a + b)|
    ensures Tokens(a + b)[..Settled(a)] == Tokens(a)[..Settled(a)]
    decreases |a|
  {
    if a == "" {
    } else if FirstClosed(a) {
      hide FirstClosed, FirstToken, AfterFirst, Tokens, Settled;
      TokensConcat(a, b);
      SettledKept(AfterFirst(a), b);
      ClosedCons(a);
      SlicesCons(FirstToken(a), Tokens(AfterFirst(a) + b), Tokens(AfterFirst(a)), Settled(AfterFirst(a)));
    } else {
      OpenFirst(a);
    }
  }

  lemma SlicesCons<T>(x: T, s: seq<T>, t: seq<T>, n: nat)
    requires n <= |s| && n <= |t| && s[..n] == t[..n]
    ensures ([x] + s)[..n + 1] == ([x] + t)[..n + 1]
  {
    assert ([x] + s)[..n + 1] == [x] + s[..n];
    assert ([x] + t)[..n + 1] == [x] + t[..n];
  }

  lemma ClosedCons(a: string)
    requires a != "" && FirstClosed(a)
    ensures Closed(a) <==> Closed(AfterFirst(a))
    ensures Settled(a) == 1 + Settled(AfterFirst(a))
    ensures Tokens(a) == [FirstToken(a)] + Tokens(AfterFirst(a))
  {
    hide FirstClosed, FirstToken, AfterFirst;
    if !Closed(AfterFirst(a)) {
      OpenNotEmpty(AfterFirst(a));
    }
  }

  lemma OpenNotEmpty(a: string)
    requires !Closed(a)
    ensures a != "" && Tokens(a) != []
  {
  }

  lemma OpenFirst(a: string)
    requires a != "" && !FirstClosed(a)
    ensures !Closed(a) && AfterFirst(a) == "" && 'm' !in a[1..]
    ensures Tokens(a) == [Style(a[1..])] && Settled(a) == 0
  {
    assert a[1..][..|a[1..]|] == a[1..];
  }

  /** A text that ends inside an escape sequence lengthens it. */
  lemma {:induction false} OpenLast(a: string, b: string)
    requires !Closed(a) && 'm' !in b
    ensures Tokens(a) != [] && Settled(a) == |Tokens(a)| - 1
    ensures var last := |Tokens(a)| - 1;
            && Tokens(a)[last].Style?
            && Tokens(a + b) == Tokens(a)[..last] + [Style(Tokens(a)[last].sequence + b)]
    decreases |a|
  {
    hide UpToM, AfterM;
    if FirstClosed(a) {
      hide FirstClosed, FirstToken;
      FirstTokenConcat(a, b);
      OpenLast(AfterFirst(a), b);
      ClosedCons(a);
      var rest := Tokens(AfterFirst(a));
      assert Tokens(a)[..|rest|] == [FirstToken(a)] + rest[..|rest| - 1];
    } else {
      OpenFirst(a);
      assert (a + b)[1..] == a[1..] + b;
      UpToMUnique((a + b)[1..], |(a + b)[1..]|);
      OpenFirst(a + b);
    }
  }

  /** A harmful token that is settled, or has been settled by a first one. */
  lemma {:induction false} FirstFault(m: Machine, t: Terminal, tokens: seq<Token>, k: nat) returns (i: nat)
    requires k < |tokens| && !TokenFate(m, t, tokens, k).Returns?
    ensures i <= k && !TokenFate(m, t, tokens, i).Returns?
    ensures forall j :: 0 <= j < i ==> TokenFate(m, t, tokens, j).Returns?
  {
    hide TokenFate;
    if j: nat :| j < k && !TokenFate(m, t, tokens, j).Returns? {
      i := FirstFault(m, t, tokens, j);
    } else {
      i := k;
    }
  }

  lemma FateOfPrefix(m: Machine, t: Terminal, a: seq<Token>, b: seq<Token>, n: nat, k: nat)
    requires k < n <= |a| && n <= |b| && a[..n] == b[..n]
    ensures TokenFate(m, t, a, k) == TokenFate(m, t, b, k)
  {
    assert a[..k] == a[..n][..k] == b[..n][..k] == b[..k];
    assert a[k] == a[..n][k] == b[..n][k] == b[k];
  }

  /** If a settled token is harmful, the text ends the same way whatever is written behind it. */
  lemma FaultComposes(m: Machine, a: string, b: string, t: Terminal, k: nat)
    requires k < Settled(a) && !TokenFate(m, t, Tokens(a), k).Returns?
    ensures Composes(m, a, b, t)
  {
    hide TokenFate, Written, Tokens, Settled;
    SettledKept(a, b);
    var n := Settled(a);
    var i := FirstFault(m, t, Tokens(a), k);
    forall j | 0 <= j <= i
      ensures TokenFate(m, t, Tokens(a + b), j) == TokenFate(m, t, Tokens(a), j)
    {
      FateOfPrefix(m, t, Tokens(a), Tokens(a + b), n, j);
    }
    WrittenFaults(m, t, a, i);
    WrittenFaults(m, t, a + b, i);
  }

  lemma SettledBound(a: string)
    ensures Settled(a) <= |Tokens(a)|
  {
  }

  /** If only an unfinished escape sequence is harmful, a tab written behind it turns it into
      one that selects nothing. */
  lemma UnfinishedFault(m: Machine, a: string, t: Terminal)
    requires !Harmless(m, t, Tokens(a))
    requires forall k :: 0 <= k < Settled(a) ==> TokenFate(m, t, Tokens(a), k).Returns?
    ensures !Composes(m, a, "\t", t)
  {
    hide TokenFate, Written, Tokens, Closed;
    WrittenIff(m, t, a);
    WrittenIff(m, t, a + "\t");
    assert !Closed(a);
    OpenLast(a, "\t");
    var n := Settled(a);
    var tokens := Tokens(a + "\t");
    assert tokens[..n] == Tokens(a)[..n];
    forall k | 0 <= k < |tokens|
      ensures TokenFate(m, t, tokens, k).Returns?
    {
      if k < n {
        FateOfPrefix(m, t, tokens, Tokens(a), n, k);
      } else {
        TabbedFate(m, t, tokens, k, Tokens(a)[n].sequence);
      }
    }
  }

  lemma TabbedFate(m: Machine, t: Terminal, tokens: seq<Token>, k: nat, sequence: string)
    requires k < |tokens| && tokens[k] == Style(sequence + "\t")
    ensures TokenFate(m, t, tokens, k).Returns?
  {
    var s := sequence + "\t";
    assert s[|s| - 1] == '\t';
  }

  // ------------------------------------------------------------ the exact condition

  /** A text that can be given a call of its own. If it has no harmful token: it does not end
      inside an escape sequence, no character has been printed since its last line began, and the
      cursor has seen its last colour. If it has: one that is not an unfinished sequence. */
  predicate Divisible(m: Machine, t: Terminal, a: string) {
    if Harmless(m, t, Tokens(a)) then Closed(a) && InStep(t, Tokens(a))
    else exists k :: 0 <= k < Settled(a) && k < |Tokens(a)| && !TokenFate(m, t, Tokens(a), k).Returns?
  }

  /** Two calls do what one does, whatever the second text is, exactly for the divisible texts. */
  lemma ComposesIff(m: Machine, a: string, t: Terminal)
    ensures (forall b :: Composes(m, a, b, t)) <==> Divisible(m, t, a)
  {
    hide Composes, Closed, InSync, InStep, Written, TokenFate, Harmless, Settled, Tokens;
    WrittenIff(m, t, a);
    SettledBound(a);
    if Harmless(m, t, Tokens(a)) {
      InStepIff(m, a, t);
      if Closed(a) && InStep(t, Tokens(a)) {
        forall b
          ensures Composes(m, a, b, t)
        {
          InSyncComposes(m, a, b, t);
        }
      } else {
        OutOfSync(m, a, t);
      }
    } else if k :| 0 <= k < Settled(a) && k < |Tokens(a)| && !TokenFate(m, t, Tokens(a), k).Returns? {
      forall b
        ensures Composes(m, a, b, t)
      {
        FaultComposes(m, a, b, t, k);
      }
    } else {
      UnfinishedFault(m, a, t);
    }
  }

  /** In particular, for a text whose characters all have glyphs and cells on the screen. */
  lemma ComposesOnScreen(screen: Screen, m: Machine, a: string, t: Terminal)
    requires Sound(screen, t.pixels) && m.pitch == screen.pitch
    requires Printable(screen, m, t, Tokens(a))
    ensures (forall b :: Composes(m, a, b, t)) <==> Closed(a) && InStep(t, Tokens(a))
  {
    hide Composes, Closed, InStep, Written, TokenFate, Harmless, Settled, Tokens, Printable, Cells;
    TextShown(screen, m, t, a);
    WrittenIff(m, t, a);
    ComposesIff(m, a, t);
  }

  lemma ClosedConcat(a: string, b: string)
    requires Closed(a) && Closed(b)
    ensures Closed(a + b)
    decreases |a|
  {
    if a == "" {
      assert a + b == b;
    } else {
      assert (a + b)[1..] == a[1..] + b;
      if a[0] == ESCAPE {
        UpToMConcat(a[1..], b);
      }
      ClosedConcat(AfterFirst(a), b);
    }
  }

  /** Whole lines compose: a text that ends in a newline, one that no escape sequence swallows,
      can be written by a call of its own. */
  lemma LinesCompose(m: Machine, line: string, b: string, t: Terminal)
    requires Closed(line)
    ensures Composes(m, line + "\n", b, t)
  {
    var a, start := line + "\n", Stage(line, PenAt(t.cursor), t);
    assert "\n"[1..] == "";
    ClosedConcat(line, "\n");
    FinishConcat(m, line, "\n", PenAt(t.cursor), t);
    if Written(m, a, t).Returns? {
      FinishOne(m, Finish(m, start).value.(chars := "\n"));
      InSyncComposes(m, a, b, t);
    } else {
      hide Turn, Finish;
      FinishConcat(m, a, b, PenAt(t.cursor), t);
    }
  }

  lemma LetterTokens(a: char, b: char)
    requires a !in "\n\r\t" && a != ESCAPE && b !in "\n\r\t" && b != ESCAPE
    ensures Tokens([a]) == [Print(a)]
    ensures Tokens([a, b]) == [Print(a), Print(b)]
  {
    assert [a][1..] == "" && [a, b][1..] == [b] && [b][1..] == "";
  }

  /** A single letter can have a call of its own only where that call faults. */
  lemma LettersDoNotCompose(m: Machine, t: Terminal, a: char)
    requires a !in "\n\r\t" && a != ESCAPE
    ensures (forall b :: Composes(m, [a], b, t)) <==> !Written(m, [a], t).Returns?
  {
    hide Composes, Written, TokenFate;
    LetterTokens(a, a);
    assert Closed([a]) by {
      assert [a][1..] == "";
    }
    WrittenIff(m, t, [a]);
    ComposesIff(m, [a], t);
    assert Pending([Print(a)]) == 1;
  }

  lemma OneLetter(screen: Screen, m: Machine, t: Terminal, a: char)
    requires CellFits(screen, t.cursor, a)
    ensures Printable(screen, m, t, [Print(a)])
    ensures Cells(screen, m, t, [Print(a)]) == [Glyph(t.font, t.cursor, a as int)]
    ensures LeftCursor(t, [Print(a)]) == t.cursor && FontIn(m, t.font, [Print(a)]) == t.font
  {
    hide Glyph;
    assert [Print(a)][..0] == [];
    assert CursorIn(t, []) == t.cursor;
  }

  lemma TwoLetters(screen: Screen, m: Machine, t: Terminal, a: char, b: char)
    requires CellFits(screen, t.cursor, a) && CellFits(screen, t.cursor.(x := t.cursor.x + 8), b)
    ensures Printable(screen, m, t, [Print(a), Print(b)])
    ensures Cells(screen, m, t, [Print(a), Print(b)]) ==
            [Glyph(t.font, t.cursor, a as int), Glyph(t.font, t.cursor.(x := t.cursor.x + 8), b as int)]
    ensures LeftCursor(t, [Print(a), Print(b)]) == t.cursor.(x := t.cursor.x + 8)
  {
    hide Glyph;
    OneLetter(screen, m, t, a);
    var tokens := [Print(a), Print(b)];
    assert tokens[..1] == [Print(a)] && tokens[..0] == [] && [Print(a)][..0] == [];
    assert CursorIn(t, [Print(a)]) == t.cursor.(x := t.cursor.x + 8);
  }

  /** Single letters do not compose: one call puts the second letter 8 columns further on, but a
      second call overprints the first. */
  lemma LettersOverprint(screen: Screen, m: Machine, t: Terminal, a: char, b: char)
    requires a !in "\n\r\t" && a != ESCAPE && b !in "\n\r\t" && b != ESCAPE
    requires Sound(screen, t.pixels) && m.pitch == screen.pitch
    requires CellFits(screen, t.cursor, a) && CellFits(screen, t.cursor, b)
    requires CellFits(screen, t.cursor.(x := t.cursor.x + 8), b)
    ensures var first := Glyph(t.font, t.cursor, a as int);
            var once, one := Written(m, [a, b], t), Written(m, [a], t);
            && once.Returns? && one.Returns? && Written(m, [b], one.value).Returns?
            && var twice := Written(m, [b], one.value).value;
               && once.value.cursor == t.cursor.(x := t.cursor.x + 8) && twice.cursor == t.cursor
               && Sound(screen, once.value.pixels) && Sound(screen, twice.pixels)
               && Shows(screen, t.pixels, [first, Glyph(t.font, once.value.cursor, b as int)], once.value.pixels)
               && Shows(screen, t.pixels, [first, Glyph(t.font, twice.cursor, b as int)], twice.pixels)
    ensures !Composes(m, [a], [b], t)
  {
    var first, second := Glyph(t.font, t.cursor, a as int), Glyph(t.font, t.cursor, b as int);
    hide Glyph, Shows, Printable, CellFits, Cells, Tokens, Sound, Written, LeftCursor, FontIn;
    LetterTokens(a, b);
    LetterTokens(b, b);
    TwoLetters(screen, m, t, a, b);
    TextShown(screen, m, t, [a, b]);
    OneLetter(screen, m, t, a);
    TextShown(screen, m, t, [a]);
    var t' := Written(m, [a], t).value;
    OneLetter(screen, m, t', b);
    TextShown(screen, m, t', [b]);
    ShowsOver(screen, t.pixels, [first], t'.pixels, [second], Written(m, [b], t').value.pixels);
    assert [first] + [second] == [first, second];
    assert [a] + [b] == [a, b];
  }
}
