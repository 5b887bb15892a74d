/** What inline command lines mean: words as they are typed, and the arguments they stand for. */
module InlineLaws {
  import opened Text
  import opened Tokenizer
  import Resp

  /** A word as typed: as it is, in single quotes, or in double quotes with escapes. */
  datatype Word = Bare(text: string) | Single(text: string) | Double(text: string)

  const QUOTES: string := "\"'"

  /**
   * Which texts a form can carry. A bare word is not empty, has no white space and does not
   * start with a quote; quotes further on are ordinary characters. A text in single quotes
   * does not end in a backslash, which would escape the closing quote.
   */
  predicate Typable(w: Word) {
    match w
    case Bare(text) =>
      text != "" && text[0] !in QUOTES && forall i :: 0 <= i < |text| ==> text[i] !in " \t\r\n"
    case Single(text) => text == "" || text[|text| - 1] != '\\'
    case Double(text) => IsBytes(text)
  }

  /** In single quotes only a quote is written differently. */
  function SingleBody(text: string): string {
    if text == "" then "" else (if text[0] == '\'' then "\\'" else [text[0]]) + SingleBody(text[1..])
  }

  function Typed(w: Word): string
    requires Typable(w)
  {
    match w
    case Bare(text) => text
    case Single(text) => "'" + (SingleBody(text) + "'")
    case Double(text) => Quote(text)
  }

  predicate White(s: string) {
    forall i :: 0 <= i < |s| ==> s[i] in " \t\r\n"
  }

  /** What stands before each word: white space, and some of it except before the first. */
  predicate Gaps(gaps: seq<string>, first: bool) {
    forall i :: 0 <= i < |gaps| ==> White(gaps[i]) && (gaps[i] != "" || (first && i == 0))
  }

  predicate AllTypable(words: seq<Word>) {
    forall i :: 0 <= i < |words| ==> Typable(words[i])
  }

  /** A line: each word after its gap, and what follows the last one. */
  function Line(words: seq<Word>, gaps: seq<string>, tail: string): string
    requires |words| == |gaps| && AllTypable(words)
  {
    if words == [] then tail else gaps[0] + (Typed(words[0]) + Line(words[1..], gaps[1..], tail))
  }

  function Texts(words: seq<Word>): (r: seq<string>)
    ensures |r| == |words| && forall i :: 0 <= i < |words| ==> r[i] == words[i].text
  {
    seq(|words|, i requires 0 <= i < |words| => words[i].text)
  }

  // ---------------------------------------------------------------
  // Reading one word
  // ---------------------------------------------------------------

  lemma PlainTurn(line: string, pos: nat, current: string)
    requires pos < |line| && line[pos] !in " \t\r\n" && (current == "" ==> line[pos] !in QUOTES)
    ensures ReadToken(line, pos, Plain, current) == ReadToken(line, pos + 1, Plain, current + [line[pos]])
  {
    ReadTokenTurn(line, pos, Plain, current);
  }

  lemma PlainEnd(line: string, pos: nat, current: string)
    requires Ends(line, pos)
    ensures ReadToken(line, pos, Plain, current) == Token(current, pos)
  {
    if pos < |line| {
      ReadTokenTurn(line, pos, Plain, current);
    }
  }

  lemma {:induction false} ReadBare(line: string, pos: nat, text: string, current: string)
    requires At(line, pos, text) && Ends(line, pos + |text|)
    requires forall i :: 0 <= i < |text| ==> text[i] !in " \t\r\n"
    requires current == "" && text != "" ==> text[0] !in QUOTES
    ensures ReadToken(line, pos, Plain, current) == Token(current + text, pos + |text|)
    decreases |text|
  {
    hide ReadToken, Ends;
    if text == "" {
      PlainEnd(line, pos, current);
      assert current + text == current;
    } else {
      AtFirst(line, pos, text);
      PlainTurn(line, pos, current);
      assert At(line, pos + 1, text[1..]) by {
        assert text == [text[0]] + text[1..];
        AtSplit(line, pos, [text[0]], text[1..]);
      }
      ReadBare(line, pos + 1, text[1..], current + [text[0]]);
      MoveFirst(current, text);
    }
  }

  lemma SingleTurn(line: string, pos: nat, c: char, current: string)
    requires c == '\'' ==> At(line, pos, "\\'")
    requires c != '\'' ==> pos < |line| && line[pos] == c
    requires c == '\\' ==> !(pos + 1 < |line| && line[pos + 1] == '\'')
    ensures ReadToken(line, pos, Quoting.Single, current) ==
      ReadToken(line, pos + (if c == '\'' then 2 else 1), Quoting.Single, current + [c])
  {
    if c == '\'' {
      var escaped := "\\'";
      assert line[pos + 0] == escaped[0] && line[pos + 1] == escaped[1];
    }
    ReadTokenTurn(line, pos, Quoting.Single, current);
  }

  lemma SingleEnd(line: string, pos: nat, current: string)
    requires pos < |line| && line[pos] == '\'' && Ends(line, pos + 1)
    ensures ReadToken(line, pos, Quoting.Single, current) == Token(current, pos + 1)
  {
    ReadTokenTurn(line, pos, Quoting.Single, current);
  }

  lemma SingleShape(text: string)
    requires text != ""
    ensures SingleBody(text) + "'" == (if text[0] == '\'' then "\\'" else [text[0]]) + (SingleBody(text[1..]) + "'")
    ensures |SingleBody(text)| == (if text[0] == '\'' then 2 else 1) + |SingleBody(text[1..])|
  {
  }

  /** After a backslash in single quotes comes no quote, unless the backslash is the last character. */
  lemma AfterBackslash(line: string, pos: nat, text: string)
    requires text != "" && text[0] == '\\' && At(line, pos, SingleBody(text) + "'") && |text| > 1
    ensures pos + 1 < |line| && line[pos + 1] != '\''
  {
    SingleShape(text);
    SingleShape(text[1..]);
    var body := SingleBody(text) + "'";
    assert body[1] == (SingleBody(text[1..]) + "'")[0];
    assert line[pos + 1] == body[1];
  }

  lemma {:induction false} ReadSingleBody(line: string, pos: nat, text: string, current: string)
    requires At(line, pos, SingleBody(text) + "'") && Ends(line, pos + |SingleBody(text)| + 1)
    requires text == "" || text[|text| - 1] != '\\'
    ensures ReadToken(line, pos, Quoting.Single, current) == Token(current + text, pos + |SingleBody(text)| + 1)
    decreases |text|
  {
    hide At, ReadToken, Ends;
    if text == "" {
      assert SingleBody(text) + "'" == "'";
      AtFirst(line, pos, "'");
      SingleEnd(line, pos, current);
      assert current + text == current;
    } else {
      var first, rest := if text[0] == '\'' then "\\'" else [text[0]], SingleBody(text[1..]) + "'";
      SingleShape(text);
      AtSplit(line, pos, first, rest);
      AtFirst(line, pos, first);
      if text[0] == '\\' {
        AfterBackslash(line, pos, text);
      }
      SingleTurn(line, pos, text[0], current);
      ReadSingleBody(line, pos + |first|, text[1..], current + [text[0]]);
      MoveFirst(current, text);
    }
  }

  lemma OpensSingle(line: string, pos: nat)
    requires pos < |line| && line[pos] == '\''
    ensures ReadToken(line, pos, Plain, "") == ReadToken(line, pos + 1, Quoting.Single, "")
  {
    ReadTokenTurn(line, pos, Plain, "");
  }

  /** A word that stands at a position, and ends there, is read as its text. */
  lemma ReadWord(line: string, pos: nat, w: Word)
    requires Typable(w) && At(line, pos, Typed(w)) && Ends(line, pos + |Typed(w)|)
    ensures pos < |line| && line[pos] !in " \t\r\n"
    ensures ReadToken(line, pos, Plain, "") == Token(w.text, pos + |Typed(w)|)
  {
    hide At, ReadToken, Quote, Ends, QuoteBody, SingleBody;
    match w
    case Bare(text) =>
      AtFirst(line, pos, text);
      ReadBare(line, pos, text, "");
      assert "" + text == text;
    case Single(text) =>
      var body := SingleBody(text) + "'";
      AtSplit(line, pos, "'", body);
      AtFirst(line, pos, "'");
      OpensSingle(line, pos);
      ReadSingleBody(line, pos + 1, text, "");
      assert "" + text == text;
    case Double(text) => ReadQuoted(line, pos, text);
  }

  // ---------------------------------------------------------------
  // Reading a line
  // ---------------------------------------------------------------

  lemma {:induction false} SkipGap(line: string, pos: nat, gap: string)
    requires At(line, pos, gap) && White(gap)
    ensures pos + |gap| <= |line| && TokenizeFrom(line, pos) == TokenizeFrom(line, pos + |gap|)
    decreases |gap|
  {
    hide TokenizeFrom;
    if gap != "" {
      AtFirst(line, pos, gap);
      assert gap == [gap[0]] + gap[1..];
      AtSplit(line, pos, [gap[0]], gap[1..]);
      TokenizeSpace(line, pos);
      SkipGap(line, pos + 1, gap[1..]);
    }
  }

  lemma OneWord(line: string, pos: nat, text: string, next: nat)
    requires pos < |line| && line[pos] !in " \t\r\n" && ReadToken(line, pos, Plain, "") == Token(text, next)
    requires next <= |line|
    ensures TokenizeFrom(line, pos) == Prepend([text], TokenizeFrom(line, next))
  {
    hide ReadToken;
    assert Tokenizer.SkipSpaces(line, pos) == pos;
  }

  /** What follows a word ends it. */
  lemma RestEnds(line: string, pos: nat, words: seq<Word>, gaps: seq<string>, tail: string)
    requires |words| == |gaps| && AllTypable(words) && Gaps(gaps, false) && White(tail)
    requires At(line, pos, Line(words, gaps, tail)) && pos + |Line(words, gaps, tail)| == |line|
    ensures Ends(line, pos)
  {
    hide Typed;
    var rest := Line(words, gaps, tail);
    if words != [] {
      assert rest[0] == gaps[0][0];
    }
    if rest != "" {
      AtFirst(line, pos, rest);
    }
  }

  lemma {:induction false} ReadLine(
    line: string, pos: nat, words: seq<Word>, gaps: seq<string>, tail: string, first: bool)
    requires |words| == |gaps| && AllTypable(words) && Gaps(gaps, first) && White(tail)
    requires At(line, pos, Line(words, gaps, tail)) && pos + |Line(words, gaps, tail)| == |line|
    ensures TokenizeFrom(line, pos) == Some(Texts(words))
    decreases |words|
  {
    hide At, Typed, TokenizeFrom, ReadToken, Typable, White, Ends;
    AtFits(line, pos, Line(words, gaps, tail));
    if words == [] {
      SkipGap(line, pos, tail);
      TokenizeEnd(line, |line|);
    } else {
      var gap, typed, rest := gaps[0], Typed(words[0]), Line(words[1..], gaps[1..], tail);
      AtSplit(line, pos, gap, typed + rest);
      AtSplit(line, pos + |gap|, typed, rest);
      var at, next := pos + |gap|, pos + |gap| + |typed|;
      RestEnds(line, next, words[1..], gaps[1..], tail);
      SkipGap(line, pos, gap);
      ReadWord(line, at, words[0]);
      ReadLine(line, next, words[1..], gaps[1..], tail, false);
      OneWord(line, at, words[0].text, next);
      assert [words[0].text] + Texts(words[1..]) == Texts(words);
    }
  }

  /** A line of words, however spaced, is read as exactly their texts. */
  lemma WordsAreRead(words: seq<Word>, gaps: seq<string>, tail: string)
    requires |words| == |gaps| && AllTypable(words) && Gaps(gaps, true) && White(tail)
    ensures Tokenize(Line(words, gaps, tail)) == Some(Texts(words))
  {
    hide Line, TokenizeFrom, Typed;
    ReadLine(Line(words, gaps, tail), 0, words, gaps, tail, true);
  }

  /**
   * As a command: the line, if it has no newline in it and does not start like an array,
   * ended by CRLF, is complete, with these arguments and exactly its own length.
   */
  lemma LineParses(words: seq<Word>, gaps: seq<string>)
    requires |words| == |gaps| && AllTypable(words) && Gaps(gaps, true)
    requires var line := Line(words, gaps, ""); '\n' !in line && (line != "" ==> line[0] != '*')
    ensures var line := Line(words, gaps, "") + "\r\n";
      Resp.Parse(line) == Resp.Complete(Texts(words), |line|)
  {
    hide Typed, Typable, Tokenize;
    var line := Line(words, gaps, "");
    Resp.QuotedLineEnd(line);
    LongerTail(words, gaps, "", "\r");
    assert "" + "\r" == "\r";
    WordsAreRead(words, gaps, "\r");
  }

  lemma {:induction false} LongerTail(words: seq<Word>, gaps: seq<string>, tail: string, more: string)
    requires |words| == |gaps| && AllTypable(words)
    ensures Line(words, gaps, tail) + more == Line(words, gaps, tail + more)
  {
    hide Typed, Typable;
    if words != [] {
      LongerTail(words[1..], gaps[1..], tail, more);
    }
  }

  // ---------------------------------------------------------------
  // Lines that are refused
  // ---------------------------------------------------------------

  /** A quote that is never closed, or one that is closed in the middle of a word. */
  datatype Broken = OpenSingle(body: string) | OpenDouble(body: string) | Glued(word: Word, rest: string)

  predicate Breaks(b: Broken) {
    match b
    case OpenSingle(_) => true
    case OpenDouble(body) => IsBytes(body)
    case Glued(word, rest) => Typable(word) && !word.Bare? && rest != "" && rest[0] !in " \t\r\n"
  }

  function TypedBroken(b: Broken): string
    requires Breaks(b)
  {
    match b
    case OpenSingle(body) => "'" + SingleBody(body)
    case OpenDouble(body) => "\"" + QuoteBody(body)
    case Glued(word, rest) => Typed(word) + rest
  }

  lemma {:induction false} NothingCloses(line: string, pos: nat, quoting: Quoting, current: string)
    requires pos <= |line| && !quoting.Plain?
    requires forall i :: pos <= i < |line| ==> line[i] !in QUOTES && line[i] != '\\'
    ensures ReadToken(line, pos, quoting, current) == Unbalanced
    decreases |line| - pos
  {
    if pos < |line| {
      ReadTokenTurn(line, pos, quoting, current);
      NothingCloses(line, pos + 1, quoting, current + [line[pos]]);
    }
  }

  /** Only white space follows the body that is not closed. */
  predicate OnlyWhite(line: string, pos: nat) {
    pos <= |line| && forall i :: pos <= i < |line| ==> line[i] in " \t\r\n"
  }

  lemma {:induction false} ReadOpenDouble(line: string, pos: nat, v: string, current: string)
    requires IsBytes(v) && At(line, pos, QuoteBody(v)) && OnlyWhite(line, pos + |QuoteBody(v)|)
    ensures ReadToken(line, pos, Quoting.Double, current) == Unbalanced
    decreases |v|
  {
    hide At, QuoteChar, TokenTurn, ReadToken;
    if v == "" {
      NothingCloses(line, pos, Quoting.Double, current);
    } else {
      AtSplit(line, pos, QuoteChar(v[0]), QuoteBody(v[1..]));
      ReadQuotedChar(line, pos, v[0], current);
      ReadOpenDouble(line, pos + |QuoteChar(v[0])|, v[1..], current + [v[0]]);
      ReadTokenTurn(line, pos, Quoting.Double, current);
    }
  }

  /** A backslash in an open single quote escapes nothing, because no quote of its own follows it. */
  lemma NextIsNoQuote(line: string, pos: nat, text: string)
    requires text != "" && text[0] == '\\' && At(line, pos, SingleBody(text))
    requires OnlyWhite(line, pos + |SingleBody(text)|)
    ensures !(pos + 1 < |line| && line[pos + 1] == '\'')
  {
    var body := SingleBody(text);
    if text[1..] == "" {
      assert SingleBody(text[1..]) == "";
      assert |body| == 1;
    } else {
      assert body[1] == SingleBody(text[1..])[0];
      assert line[pos + 1] == body[1];
    }
  }

  lemma {:induction false} ReadOpenSingle(line: string, pos: nat, text: string, current: string)
    requires At(line, pos, SingleBody(text)) && OnlyWhite(line, pos + |SingleBody(text)|)
    ensures ReadToken(line, pos, Quoting.Single, current) == Unbalanced
    decreases |text|
  {
    hide At, ReadToken, OnlyWhite;
    if text == "" {
      WhiteClosesNothing(line, pos, current);
    } else {
      var first := if text[0] == '\'' then "\\'" else [text[0]];
      assert SingleBody(text) == first + SingleBody(text[1..]);
      AtSplit(line, pos, first, SingleBody(text[1..]));
      AtFirst(line, pos, first);
      if text[0] == '\\' {
        NextIsNoQuote(line, pos, text);
      }
      SingleTurn(line, pos, text[0], current);
      ReadOpenSingle(line, pos + |first|, text[1..], current + [text[0]]);
    }
  }

  lemma WhiteClosesNothing(line: string, pos: nat, current: string)
    requires OnlyWhite(line, pos)
    ensures ReadToken(line, pos, Quoting.Single, current) == Unbalanced
  {
    hide ReadToken;
    NothingCloses(line, pos, Quoting.Single, current);
  }

  lemma CloseTooEarly(line: string, pos: nat, quoting: Quoting, current: string)
    requires pos + 1 < |line| && !IsSpace(line[pos + 1])
    requires (quoting.Double? && line[pos] == '\"') || (quoting.Single? && line[pos] == '\'')
    ensures ReadToken(line, pos, quoting, current) == Unbalanced
  {
    ReadTokenTurn(line, pos, quoting, current);
  }

  lemma {:induction false} ReadGluedDouble(line: string, pos: nat, v: string, current: string)
    requires IsBytes(v) && At(line, pos, QuoteBody(v) + "\"")
    requires var next := pos + |QuoteBody(v)| + 1; next < |line| && !IsSpace(line[next])
    ensures ReadToken(line, pos, Quoting.Double, current) == Unbalanced
    decreases |v|
  {
    hide At, QuoteChar, TokenTurn, ReadToken;
    if v == "" {
      assert QuoteBody(v) + "\"" == "\"";
      AtFirst(line, pos, "\"");
      CloseTooEarly(line, pos, Quoting.Double, current);
    } else {
      BodyShape(v);
      AtSplit(line, pos, QuoteChar(v[0]), QuoteBody(v[1..]) + "\"");
      ReadQuotedChar(line, pos, v[0], current);
      ReadGluedDouble(line, pos + |QuoteChar(v[0])|, v[1..], current + [v[0]]);
      ReadTokenTurn(line, pos, Quoting.Double, current);
    }
  }

  lemma {:induction false} ReadGluedSingle(line: string, pos: nat, text: string, current: string)
    requires At(line, pos, SingleBody(text) + "'") && (text == "" || text[|text| - 1] != '\\')
    requires var next := pos + |SingleBody(text)| + 1; next < |line| && !IsSpace(line[next])
    ensures ReadToken(line, pos, Quoting.Single, current) == Unbalanced
    decreases |text|
  {
    hide At, ReadToken;
    if text == "" {
      assert SingleBody(text) + "'" == "'";
      AtFirst(line, pos, "'");
      CloseTooEarly(line, pos, Quoting.Single, current);
    } else {
      var first, rest := if text[0] == '\'' then "\\'" else [text[0]], SingleBody(text[1..]) + "'";
      SingleShape(text);
      AtSplit(line, pos, first, rest);
      AtFirst(line, pos, first);
      if text[0] == '\\' {
        AfterBackslash(line, pos, text);
      }
      SingleTurn(line, pos, text[0], current);
      ReadGluedSingle(line, pos + |first|, text[1..], current + [text[0]]);
    }
  }

  lemma OpenedSingle(line: string, pos: nat, body: string)
    requires At(line, pos, "'" + SingleBody(body)) && OnlyWhite(line, pos + 1 + |SingleBody(body)|)
    ensures pos < |line| && line[pos] !in " \t\r\n" && ReadToken(line, pos, Plain, "") == Unbalanced
  {
    hide At, ReadToken, SingleBody, OnlyWhite, IsSpace;
    AtSplit(line, pos, "'", SingleBody(body));
    AtFirst(line, pos, "'");
    OpensSingle(line, pos);
    ReadOpenSingle(line, pos + 1, body, "");
  }

  lemma OpenedDouble(line: string, pos: nat, body: string)
    requires IsBytes(body) && At(line, pos, "\"" + QuoteBody(body)) && OnlyWhite(line, pos + 1 + |QuoteBody(body)|)
    ensures pos < |line| && line[pos] !in " \t\r\n" && ReadToken(line, pos, Plain, "") == Unbalanced
  {
    hide At, ReadToken, QuoteBody, OnlyWhite, IsSpace, IsBytes;
    AtSplit(line, pos, "\"", QuoteBody(body));
    AtFirst(line, pos, "\"");
    OpenQuote(line, pos);
    ReadOpenDouble(line, pos + 1, body, "");
  }

  /** A broken word at the end of the line, white space apart. */
  lemma ReadBroken(line: string, pos: nat, b: Broken)
    requires Breaks(b) && At(line, pos, TypedBroken(b)) && OnlyWhite(line, pos + |TypedBroken(b)|)
    ensures pos < |line| && line[pos] !in " \t\r\n" && ReadToken(line, pos, Plain, "") == Unbalanced
  {
    hide At, ReadToken, QuoteBody, SingleBody, OnlyWhite, Typed, IsBytes, Typable;
    match b
    case OpenSingle(body) => OpenedSingle(line, pos, body);
    case OpenDouble(body) => OpenedDouble(line, pos, body);
    case Glued(word, rest) => ReadGlued(line, pos, word, rest);
  }

  lemma ReadGlued(line: string, pos: nat, word: Word, rest: string)
    requires Typable(word) && !word.Bare? && rest != "" && rest[0] !in " \t\r\n" && At(line, pos, Typed(word) + rest)
    ensures pos < |line| && line[pos] !in " \t\r\n" && ReadToken(line, pos, Plain, "") == Unbalanced
  {
    hide At, ReadToken, Typed, Typable, IsSpace;
    AtSplit(line, pos, Typed(word), rest);
    AtFirst(line, pos + |Typed(word)|, rest);
    NotSpace(rest[0]);
    GluedAfter(line, pos, word);
  }

  lemma GluedAfter(line: string, pos: nat, word: Word)
    requires Typable(word) && !word.Bare? && At(line, pos, Typed(word))
    requires var next := pos + |Typed(word)|; next < |line| && !IsSpace(line[next])
    ensures pos < |line| && line[pos] !in " \t\r\n" && ReadToken(line, pos, Plain, "") == Unbalanced
  {
    hide At, ReadToken, QuoteBody, SingleBody, IsSpace, Quote, IsBytes;
    if word.Single? {
      GluedAfterSingle(line, pos, word.text);
    } else {
      GluedAfterDouble(line, pos, word.text);
    }
  }

  lemma GluedAfterSingle(line: string, pos: nat, text: string)
    requires Typable(Word.Single(text)) && At(line, pos, Typed(Word.Single(text)))
    requires var next := pos + |Typed(Word.Single(text))|; next < |line| && !IsSpace(line[next])
    ensures pos < |line| && line[pos] !in " \t\r\n" && ReadToken(line, pos, Plain, "") == Unbalanced
  {
    hide At, ReadToken, SingleBody, IsSpace;
    AtSplit(line, pos, "'", SingleBody(text) + "'");
    AtFirst(line, pos, "'");
    OpensSingle(line, pos);
    ReadGluedSingle(line, pos + 1, text, "");
  }

  lemma GluedAfterDouble(line: string, pos: nat, text: string)
    requires IsBytes(text) && At(line, pos, Quote(text))
    requires var next := pos + |Quote(text)|; next < |line| && !IsSpace(line[next])
    ensures pos < |line| && line[pos] !in " \t\r\n" && ReadToken(line, pos, Plain, "") == Unbalanced
  {
    hide At, ReadToken, QuoteBody, Quote, IsSpace;
    QuoteShape(text);
    AtSplit(line, pos, "\"", QuoteBody(text) + "\"");
    AtFirst(line, pos, "\"");
    OpenQuote(line, pos);
    ReadGluedDouble(line, pos + 1, text, "");
  }

  lemma NotSpace(c: char)
    ensures IsSpace(c) <==> c in " \t\r\n"
  {
  }

  lemma NoWord(line: string, pos: nat)
    requires pos < |line| && line[pos] !in " \t\r\n" && ReadToken(line, pos, Plain, "") == Unbalanced
    ensures TokenizeFrom(line, pos) == None
  {
    hide ReadToken;
    assert Tokenizer.SkipSpaces(line, pos) == pos;
  }

  /** Good words, then a broken one. */
  lemma {:induction false} ReadBrokenLine(
    line: string, pos: nat, words: seq<Word>, gaps: seq<string>, gap: string, b: Broken, white: string, first: bool)
    requires |words| == |gaps| && AllTypable(words) && Gaps(gaps, first) && White(gap) && White(white) && Breaks(b)
    requires gap != "" || (first && words == [])
    requires var all := Line(words, gaps, gap + (TypedBroken(b) + white)); At(line, pos, all) && pos + |all| == |line|
    ensures TokenizeFrom(line, pos) == None
    decreases |words|
  {
    hide At, Typed, TokenizeFrom, ReadToken, Typable, Ends, TypedBroken, Breaks;
    var tail := gap + (TypedBroken(b) + white);
    AtFits(line, pos, Line(words, gaps, tail));
    if words == [] {
      AtSplit(line, pos, gap, TypedBroken(b) + white);
      AtSplit(line, pos + |gap|, TypedBroken(b), white);
      SkipGap(line, pos, gap);
      WhiteRest(line, pos + |gap| + |TypedBroken(b)|, white);
      ReadBroken(line, pos + |gap|, b);
      NoWord(line, pos + |gap|);
    } else {
      var rest := Line(words[1..], gaps[1..], tail);
      AtSplit(line, pos, gaps[0], Typed(words[0]) + rest);
      AtSplit(line, pos + |gaps[0]|, Typed(words[0]), rest);
      var at, next := pos + |gaps[0]|, pos + |gaps[0]| + |Typed(words[0])|;
      assert rest[0] in " \t\r\n" by {
        assert rest[0] == if |words| == 1 then gap[0] else gaps[1][0];
      }
      AtFirst(line, next, rest);
      SpaceEnds(line, next);
      SkipGap(line, pos, gaps[0]);
      ReadWord(line, at, words[0]);
      ReadBrokenLine(line, next, words[1..], gaps[1..], gap, b, white, false);
      OneWord(line, at, words[0].text, next);
    }
  }

  lemma SpaceEnds(line: string, pos: nat)
    requires pos < |line| && line[pos] in " \t\r\n"
    ensures Ends(line, pos)
  {
  }

  lemma WhiteRest(line: string, pos: nat, white: string)
    requires At(line, pos, white) && pos + |white| == |line| && White(white)
    ensures OnlyWhite(line, pos)
  {
    forall i | pos <= i < |line| ensures line[i] in " \t\r\n" {
      assert line[pos + (i - pos)] == white[i - pos];
    }
  }

  /** A line with a broken word in it is refused as a whole. */
  lemma BrokenLineRefused(words: seq<Word>, gaps: seq<string>, gap: string, b: Broken)
    requires |words| == |gaps| && AllTypable(words) && Gaps(gaps, true) && White(gap) && Breaks(b)
    requires gap != "" || words == []
    requires var line := Line(words, gaps, gap + (TypedBroken(b) + ""));
      '\n' !in line && (line != "" ==> line[0] != '*')
    ensures Resp.Parse(Line(words, gaps, gap + (TypedBroken(b) + "")) + "\r\n") == Resp.Error(Resp.UnbalancedQuotes)
  {
    hide Typed, Typable, Tokenize, TypedBroken, Breaks;
    var line := Line(words, gaps, gap + (TypedBroken(b) + ""));
    Resp.QuotedLineEnd(line);
    LongerTail(words, gaps, gap + (TypedBroken(b) + ""), "\r");
    assert gap + (TypedBroken(b) + "") + "\r" == gap + (TypedBroken(b) + "\r");
    BrokenTokenizes(words, gaps, gap, b);
  }

  lemma BrokenTokenizes(words: seq<Word>, gaps: seq<string>, gap: string, b: Broken)
    requires |words| == |gaps| && AllTypable(words) && Gaps(gaps, true) && White(gap) && Breaks(b)
    requires gap != "" || words == []
    ensures Tokenize(Line(words, gaps, gap + (TypedBroken(b) + "\r"))) == None
  {
    hide Line, TokenizeFrom, Typed, TypedBroken, Breaks;
    ReadBrokenLine(Line(words, gaps, gap + (TypedBroken(b) + "\r")), 0, words, gaps, gap, b, "\r", true);
  }

  // ---------------------------------------------------------------
  // Escapes
  // ---------------------------------------------------------------

  /** What a backslash and a character stand for in double quotes, `x` with two hexadecimal digits apart. */
  lemma EscapeMeans(c: char)
    requires c != 'x'
    ensures Tokenize("\"\\" + [c] + "\"") == Some([[
      if c == 'n' then '\n' else if c == 'r' then '\r' else if c == 't' then '\t'
      else if c == 'b' then 8 as char else if c == 'a' then 7 as char else c]])
  {
    hide ReadToken;
    var line := "\"\\" + [c] + "\"";
    var text := [Unescape(c)];
    OpenQuote(line, 0);
    ReadTokenTurn(line, 1, Quoting.Double, "");
    assert "" + text == text;
    CloseQuote(line, 3, text);
    OneWord(line, 0, text, 4);
    TokenizeEnd(line, 4);
    assert [text] + [] == [text];
  }

  const HEX: string := "0123456789abcdef"
  const HEX_CAPITAL: string := "0123456789ABCDEF"

  lemma HexDigitsMean(k: nat)
    requires k < 16
    ensures HexValue(HEX[k]) == k && HexValue(HEX_CAPITAL[k]) == k
  {
  }

  lemma ByteEscapeMeans(high: char, low: char, i: nat, j: nat)
    requires i < 16 && j < 16 && high in [HEX[i], HEX_CAPITAL[i]] && low in [HEX[j], HEX_CAPITAL[j]]
    ensures Tokenize("\"\\x" + [high] + [low] + "\"") == Some([[(16 * i + j) as char]])
  {
    hide ReadToken, HexValue;
    HexDigitsMean(i);
    HexDigitsMean(j);
    var line := "\"\\x" + [high] + [low] + "\"";
    var text := [(16 * i + j) as char];
    OpenQuote(line, 0);
    assert line[1] == '\\' && line[2] == 'x' && line[3] == high && line[4] == low && line[5] == '\"';
    ReadTokenTurn(line, 1, Quoting.Double, "");
    assert "" + text == text;
    CloseQuote(line, 5, text);
    OneWord(line, 0, text, 6);
    TokenizeEnd(line, 6);
    assert [text] + [] == [text];
  }

  /** How the formatter writes a character. */
  lemma QuoteWrites(c: char)
    requires c as int < 256
    ensures c == '\\' ==> Quote([c]) == "\"\\\\\""
    ensures c == '\"' ==> Quote([c]) == "\"\\\"\""
    ensures c == '\n' ==> Quote([c]) == "\"\\n\""
    ensures c == '\r' ==> Quote([c]) == "\"\\r\""
    ensures c == '\t' ==> Quote([c]) == "\"\\t\""
    ensures ' ' <= c <= '~' && c != '\\' && c != '\"' ==> Quote([c]) == "\"" + [c] + "\""
    ensures (c < ' ' || c > '~') && c !in "\n\r\t" ==>
      Quote([c]) == "\"\\x" + [HEX[c as int / 16]] + [HEX[c as int % 16]] + "\""
  {
    assert [c][1..] == "";
    assert QuoteBody([c]) == QuoteChar(c) + "" == QuoteChar(c);
    HexWrites(c as int / 16);
    HexWrites(c as int % 16);
  }

  lemma HexWrites(k: nat)
    requires k < 16
    ensures HexDigit(k) == HEX[k]
  {
  }
}
