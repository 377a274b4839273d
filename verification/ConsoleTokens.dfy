/**
 What a text says to the console: its newlines, tabs, escape sequences and characters, one after
 another; and a writer for them.
 */
module ConsoleTokens {
  import opened Console

  const ESCAPE := '\U{1B}'

  datatype Token = Newline | Return | Tab | Style(sequence: string) | Print(c: char)

  // ------------------------------------------------------------------- reading

  function FirstToken(text: string): Token
    requires text != ""
  {
    match text[0]
    case '\n' => Newline
    case '\r' => Return
    case '\t' => Tab
    case '\U{1B}' => Style(text[1..][..UpToM(text[1..])])
    case c => Print(c)
  }

  function AfterFirst(text: string): (rest: string)
    requires text != ""
    ensures |rest| < |text|
  {
    if text[0] == '\U{1B}' then AfterM(text[1..]) else text[1..]
  }

  function Tokens(text: string): seq<Token>
    decreases |text|
  {
    if text == "" then [] else [FirstToken(text)] + Tokens(AfterFirst(text))
  }

  /** Whether the first token of a text is complete: an escape sequence has its `m`. */
  predicate FirstClosed(text: string)
    requires text != ""
  {
    text[0] == ESCAPE ==> UpToM(text[1..]) < |text[1..]|
  }

  /** A text that does not end inside an escape sequence. */
  predicate Closed(text: string)
    decreases |text|
  {
    text == "" || (FirstClosed(text) && Closed(AfterFirst(text)))
  }

  lemma UpToMUnique(text: string, n: nat)
    requires n <= |text| && 'm' !in text[..n] && (n < |text| ==> text[n] == 'm')
    ensures UpToM(text) == n
  {
    var k := UpToM(text);
    assert forall i :: 0 <= i < n ==> text[..n][i] != 'm';
    assert forall i :: 0 <= i < k ==> text[..k][i] != 'm';
  }

  // ------------------------------------------------------------------- writing

  function TokenText(token: Token): string {
    match token
    case Newline => "\n"
    case Return => "\r"
    case Tab => "\t"
    case Style(sequence) => [ESCAPE] + sequence + "m"
    case Print(c) => [c]
  }

  function Text(tokens: seq<Token>): string {
    if tokens == [] then "" else TokenText(tokens[0]) + Text(tokens[1..])
  }

  /** A sequence ends at its first `m`, and the characters that steer are not printed. */
  predicate Writable(token: Token) {
    && (token.Style? ==> 'm' !in token.sequence)
    && (token.Print? ==> token.c !in "\n\r\t" && token.c != ESCAPE)
  }

  // --------------------------------------------------------------- round trips

  lemma TokenReads(token: Token, rest: string)
    requires Writable(token)
    ensures TokenText(token) != ""
    ensures var text := TokenText(token) + rest;
            FirstToken(text) == token && AfterFirst(text) == rest && FirstClosed(text)
  {
    var text := TokenText(token) + rest;
    if token.Style? {
      hide UpToM;
      var q := token.sequence;
      assert text[1..] == q + "m" + rest;
      assert text[1..][..|q|] == q;
      UpToMUnique(text[1..], |q|);
      assert text[1..][|q| + 1..] == rest;
    } else {
      assert text[1..] == rest;
    }
  }

  /** Whatever is written is read back, token by token. */
  lemma {:induction false} TokensText(tokens: seq<Token>)
    requires forall i :: 0 <= i < |tokens| ==> Writable(tokens[i])
    ensures Tokens(Text(tokens)) == tokens && Closed(Text(tokens))
  {
    hide Writable, TokenText, FirstToken, AfterFirst, FirstClosed;
    if tokens == [] {
    } else {
      TokensText(tokens[1..]);
      TokenReads(tokens[0], Text(tokens[1..]));
      assert tokens == [tokens[0]] + tokens[1..];
    }
  }

  lemma Rejoin(s: string, n: nat)
    requires n < |s|
    ensures s[..n] + [s[n]] + s[n + 1..] == s
  {
  }

  lemma SequenceRestored(rest: string)
    ensures UpToM(rest) < |rest| ==> rest[..UpToM(rest)] + "m" + AfterM(rest) == rest
    ensures UpToM(rest) == |rest| ==> rest[..UpToM(rest)] == rest && AfterM(rest) == ""
  {
    hide UpToM;
    if UpToM(rest) < |rest| {
      Rejoin(rest, UpToM(rest));
    }
  }

  lemma FirstRestored(text: string)
    requires text != ""
    ensures Writable(FirstToken(text))
    ensures FirstClosed(text) ==> TokenText(FirstToken(text)) + AfterFirst(text) == text
    ensures !FirstClosed(text) ==> TokenText(FirstToken(text)) == text + "m" && AfterFirst(text) == ""
  {
    hide UpToM, AfterM;
    var c, rest := text[0], text[1..];
    assert text == [c] + rest;
    if c == ESCAPE {
      var q := rest[..UpToM(rest)];
      SequenceRestored(rest);
      assert [c] + q + "m" + AfterM(rest) == [c] + (q + "m" + AfterM(rest));
    }
  }

  /** Whatever is read is what the text spells: writing its tokens gives the text back, with the
      missing `m` if it ends inside an escape sequence. */
  lemma {:induction false} TextTokens(text: string)
    ensures forall i :: 0 <= i < |Tokens(text)| ==> Writable(Tokens(text)[i])
    ensures Text(Tokens(text)) == text + if Closed(text) then "" else "m"
    decreases |text|
  {
    hide Writable, TokenText, FirstToken, AfterFirst, FirstClosed;
    if text == "" {
    } else {
      var first, rest := FirstToken(text), AfterFirst(text);
      FirstRestored(text);
      TextTokens(rest);
      assert Tokens(text)[1..] == Tokens(rest);
      assert TokenText(first) + (rest + "m") == TokenText(first) + rest + "m";
    }
  }
}
