/**
 Any picture file at all: what its name and its header must be for the reader to find a size and a
 raster.
 */
module ImageHeaders {
  import opened Rust
  import opened Sequences
  import opened Utf8
  import opened Numerals
  import opened Image

  // --------------------------------------------------------------- words and gaps

  predicate IsGap(s: string) {
    forall i :: 0 <= i < |s| ==> IsWhitespace(s[i])
  }

  predicate IsWord(s: string) {
    s != "" && forall i :: 0 <= i < |s| ==> !IsWhitespace(s[i])
  }

  /** What `char::is_whitespace` comes down to for ASCII: blank, tab, newline, vertical tab, form
      feed and carriage return. */
  lemma AsciiWhitespace(c: char)
    ensures c as int < 0x80 ==> (IsWhitespace(c) <==> c in " \t\n\U{B}\U{C}\r")
  {
  }

  /** Gaps between words, before them and behind them. */
  predicate Separates(gaps: seq<string>, words: seq<string>) {
    && |gaps| == |words| + 1
    && (forall i :: 0 <= i < |gaps| ==> IsGap(gaps[i]))
    && (forall i :: 0 <= i < |words| ==> IsWord(words[i]))
    && (forall i :: 0 < i < |words| ==> gaps[i] != "")
  }

  function Interleaved(gaps: seq<string>, words: seq<string>): string
    requires |gaps| == |words| + 1
  {
    if words == [] then gaps[0] else gaps[0] + (words[0] + Interleaved(gaps[1..], words[1..]))
  }

  lemma {:induction false} GapSkipped(gap: string, rest: string)
    requires IsGap(gap)
    ensures Words(gap + rest) == Words(rest)
  {
    if gap == "" {
      assert gap + rest == rest;
    } else {
      assert (gap + rest)[1..] == gap[1..] + rest;
      GapSkipped(gap[1..], rest);
    }
  }

  lemma {:induction false} WordEnds(word: string, rest: string)
    requires IsWord(word) && (rest == "" || IsWhitespace(rest[0]))
    ensures WordLength(word + rest) == |word|
  {
    assert (word + rest)[1..] == word[1..] + rest;
    if |word| > 1 {
      WordEnds(word[1..], rest);
    } else {
      assert word[1..] + rest == rest;
    }
  }

  lemma WordRead(word: string, rest: string)
    requires IsWord(word) && (rest == "" || IsWhitespace(rest[0]))
    ensures Words(word + rest) == [word] + Words(rest)
  {
    WordEnds(word, rest);
    var all := word + rest;
    assert all[..|word|] == word && all[|word|..] == rest;
    assert !IsWhitespace(all[0]);
  }

  lemma SeparatesTail(gaps: seq<string>, words: seq<string>)
    requires words != [] && Separates(gaps, words)
    ensures Separates(gaps[1..], words[1..]) && IsGap(gaps[0]) && IsWord(words[0])
    ensures var rest := Interleaved(gaps[1..], words[1..]); rest == "" || IsWhitespace(rest[0])
  {
    if |words| == 1 {
      assert IsGap(gaps[1]);
    } else {
      assert IsGap(gaps[1]) && gaps[1] != "";
    }
  }

  lemma NoWords(gap: string)
    requires IsGap(gap)
    ensures Words(gap) == []
  {
    GapSkipped(gap, "");
    assert gap + "" == gap;
  }

  /** However words are kept apart, `split_whitespace` finds them... */
  lemma {:induction false} WordsOf(gaps: seq<string>, words: seq<string>)
    requires Separates(gaps, words)
    ensures Words(Interleaved(gaps, words)) == words
    decreases words
  {
    hide Words, IsGap, IsWord;
    if words == [] {
      NoWords(gaps[0]);
    } else {
      hide Separates;
      SeparatesTail(gaps, words);
      var rest := Interleaved(gaps[1..], words[1..]);
      GapSkipped(gaps[0], words[0] + rest);
      WordRead(words[0], rest);
      WordsOf(gaps[1..], words[1..]);
      assert words == [words[0]] + words[1..];
    }
  }

  lemma {:induction false} WordTaken(s: string)
    requires s != "" && !IsWhitespace(s[0])
    ensures var n := WordLength(s); IsWord(s[..n]) && (s[n..] == "" || IsWhitespace(s[n..][0]))
  {
    var n := WordLength(s);
    if |s| > 1 && !IsWhitespace(s[1]) {
      WordTaken(s[1..]);
      assert s[..n] == [s[0]] + s[1..][..n - 1] && s[n..] == s[1..][n - 1..];
    }
  }

  lemma GapBefore(c: char, gaps: seq<string>, words: seq<string>) returns (more: seq<string>)
    requires IsWhitespace(c) && Separates(gaps, words)
    ensures Separates(more, words) && Interleaved(more, words) == [c] + Interleaved(gaps, words)
  {
    more := [[c] + gaps[0]] + gaps[1..];
    assert more[1..] == gaps[1..];
    assert IsGap(gaps[0]) && IsGap(more[0]);
    if words != [] {
      var rest := words[0] + Interleaved(gaps[1..], words[1..]);
      assert [c] + gaps[0] + rest == [c] + (gaps[0] + rest);
    }
  }

  lemma WordFirst(gaps: seq<string>, words: seq<string>)
    requires words != [] && Separates(gaps, words) && gaps[0] == ""
    ensures var s := Interleaved(gaps, words); s != "" && !IsWhitespace(s[0])
  {
    assert IsWord(words[0]);
  }

  lemma WordBefore(word: string, gaps: seq<string>, words: seq<string>) returns (more: seq<string>)
    requires IsWord(word) && Separates(gaps, words)
    requires var rest := Interleaved(gaps, words); rest == "" || IsWhitespace(rest[0])
    ensures Separates(more, [word] + words)
    ensures Interleaved(more, [word] + words) == word + Interleaved(gaps, words)
  {
    more := [""] + gaps;
    assert more[1..] == gaps && ([word] + words)[1..] == words;
    if words != [] && gaps[0] == "" {
      WordFirst(gaps, words);
      assert false;
    }
    assert "" + (word + Interleaved(gaps, words)) == word + Interleaved(gaps, words);
  }

  lemma WordsStep(s: string)
    requires s != ""
    ensures Words(s) == if IsWhitespace(s[0]) then Words(s[1..]) else [s[..WordLength(s)]] + Words(s[WordLength(s)..])
  {
  }

  /** ... and every text is its words, kept apart by gaps. */
  lemma {:induction false} WordsFound(s: string) returns (gaps: seq<string>)
    ensures Separates(gaps, Words(s)) && s == Interleaved(gaps, Words(s))
    decreases |s|
  {
    if s == "" {
      gaps := [""];
    } else {
      WordsStep(s);
      hide *;
      if IsWhitespace(s[0]) {
        var rest := WordsFound(s[1..]);
        gaps := GapBefore(s[0], rest, Words(s[1..]));
        assert s == [s[0]] + s[1..];
      } else {
        var n := WordLength(s);
        WordTaken(s);
        var rest := WordsFound(s[n..]);
        gaps := WordBefore(s[..n], rest, Words(s[n..]));
        assert s == s[..n] + s[n..];
      }
    }
  }

  // ---------------------------------------------------------------- the header

  function Newlines(bytes: seq<u8>): nat {
    if bytes == [] then 0 else (if bytes[0] == NEWLINE then 1 else 0) + Newlines(bytes[1..])
  }

  lemma {:induction false} NewlinesConcat(a: seq<u8>, b: seq<u8>)
    ensures Newlines(a + b) == Newlines(a) + Newlines(b)
  {
    if a == [] {
      assert a + b == b;
    } else {
      assert (a + b)[1..] == a[1..] + b;
      NewlinesConcat(a[1..], b);
    }
  }

  lemma {:induction false} NoNewlines(bytes: seq<u8>)
    requires NEWLINE !in bytes
    ensures Newlines(bytes) == 0
  {
    if bytes == [] {
    } else {
      NoNewlines(bytes[1..]);
    }
  }

  /** The n-th newline is the one with n others in front. */
  lemma {:induction false} NthNewlineIff(bytes: seq<u8>, n: nat, i: nat)
    ensures NthNewline(bytes, n) == Some(i) <==>
            i < |bytes| && bytes[i] == NEWLINE && Newlines(bytes[..i]) == n
  {
    if bytes == [] {
    } else if i == 0 {
      assert bytes[..0] == [];
    } else if bytes[0] == NEWLINE && n == 0 {
      assert i < |bytes| ==> bytes[..i][0] == NEWLINE;
    } else {
      NthNewlineIff(bytes[1..], if bytes[0] == NEWLINE then n - 1 else n, i - 1);
      assert i < |bytes| ==> bytes[..i][1..] == bytes[1..][..i - 1];
    }
  }

  /** A header: the right number of newlines, and numerals of width and height for its second and
      third words. */
  ghost predicate IsHeader(header: string, kind: Kind, width: nat, height: nat) {
    && Newlines(EncodeString(header)) == (if kind == Pbm then 1 else 2)
    && |Words(header)| >= 3
    && width < TWO_POW_64 && Spells(Words(header)[1], 10, width)
    && height < TWO_POW_64 && Spells(Words(header)[2], 10, height)
  }

  /** The exact files whose layout can be read: a header, a newline, and then the raster. */
  lemma LayoutIff(image: seq<u8>, kind: Kind, l: Layout)
    ensures ReadLayout(image, kind) == Returns(l) <==>
            exists header :: IsHeader(header, kind, l.width, l.height) && image == EncodeString(header) + [NEWLINE] + l.pixels
    ensures ReadLayout(image, kind).Returns? || ReadLayout(image, kind) == Panics
  {
    hide NthNewline, EncodeString, FromUtf8, Words, FromStrRadix, Newlines, Spells;
    var n := if kind == Pbm then 1 else 2;
    if ReadLayout(image, kind) == Returns(l) {
      var index := NthNewline(image, n).value;
      NthNewlineIff(image, n, index);
      EncodeDecode(image[..index]);
      var header := FromUtf8(image[..index]).value;
      ReadIff(Words(header)[1], 10, TWO_POW_64, l.width);
      ReadIff(Words(header)[2], 10, TWO_POW_64, l.height);
      assert image == image[..index] + [image[index]] + image[index + 1..];
    }
    if header :| IsHeader(header, kind, l.width, l.height) && image == EncodeString(header) + [NEWLINE] + l.pixels {
      LayoutRead(image, kind, l, header);
    }
  }

  lemma LayoutRead(image: seq<u8>, kind: Kind, l: Layout, header: string)
    requires IsHeader(header, kind, l.width, l.height) && image == EncodeString(header) + [NEWLINE] + l.pixels
    ensures ReadLayout(image, kind) == Returns(l)
  {
    hide NthNewline, EncodeString, FromUtf8, Words, FromStrRadix, Newlines, Spells;
    var bytes := EncodeString(header);
    CutSlices(bytes, l.pixels, NEWLINE);
    NthNewlineIff(image, if kind == Pbm then 1 else 2, |bytes|);
    DecodeEncode(header);
    ReadIff(Words(header)[1], 10, TWO_POW_64, l.width);
    ReadIff(Words(header)[2], 10, TWO_POW_64, l.height);
  }

  // --------------------------------------------------------------------- names

  function Suffix(kind: Kind): string {
    match kind case Pbm => "pbm" case Pgm => "pgm" case Ppm => "ppm"
  }

  lemma {:induction false} AfterDot(stem: string, suffix: string)
    requires '.' !in suffix
    ensures AfterLastDot(stem + "." + suffix) == suffix
  {
    var s := stem + "." + suffix;
    if suffix == "" {
    } else {
      var init, last := suffix[..|suffix| - 1], suffix[|suffix| - 1];
      assert last in suffix;
      assert s[..|s| - 1] == stem + "." + init && s[|s| - 1] == last;
      AfterDot(stem, init);
      assert init + [last] == suffix;
    }
  }

  /** The extension is what comes behind the last dot, of a path that does not end in one, or
      in front of a final one; a path without dots is all extension. */
  lemma ExtensionIs(stem: string, suffix: string)
    requires '.' !in suffix
    ensures suffix != "" ==> Extension(stem + "." + suffix) == Some(suffix)
    ensures Extension(stem + "." + suffix + ".") == Some(suffix)
    ensures Extension(suffix) == if suffix == "" then None else Some(suffix)
    ensures Extension(suffix + ".") == Some(suffix)
  {
    hide AfterLastDot;
    AfterDot(stem, suffix);
    NoDot(suffix);
    var path := stem + "." + suffix;
    assert suffix != "" ==> path[|path| - 1] == suffix[|suffix| - 1];
    assert (path + ".")[..|path|] == path;
    assert (suffix + ".")[..|suffix|] == suffix;
  }

  lemma {:induction false} NoDot(s: string)
    requires '.' !in s
    ensures AfterLastDot(s) == s
  {
    if s == "" {
    } else {
      NoDot(s[..|s| - 1]);
      assert s[|s| - 1] in s;
      assert s == s[..|s| - 1] + [s[|s| - 1]];
    }
  }

  lemma KindIff(extension: string, kind: Kind)
    ensures KindOf(extension) == Some(kind) <==> extension == Suffix(kind)
  {
  }
}
