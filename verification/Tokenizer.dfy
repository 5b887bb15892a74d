/**
 * The inline command-line tokenizer of src/resp.cpp and the quoting that the reply
 * formatter of src/reply_format.cpp writes. The tokenizer undoes the quoting.
 */
module Tokenizer {
  import opened Text

  predicate IsSpace(c: char) {
    c == ' ' || c == '\t' || c == '\r' || c == '\n'
  }

  predicate AllSpace(s: string) {
    forall i :: 0 <= i < |s| ==> IsSpace(s[i])
  }

  /** -1 for a character that is not a hexadecimal digit. */
  function HexValue(c: char): (n: int)
    ensures -1 <= n < 16
  {
    if '0' <= c <= '9' then c as int - '0' as int
    else if 'a' <= c <= 'f' then c as int - 'a' as int + 10
    else if 'A' <= c <= 'F' then c as int - 'A' as int + 10
    else -1
  }

  function Unescape(c: char): char {
    match c
    case 'n' => '\n'
    case 'r' => '\r'
    case 't' => '\t'
    case 'b' => 8 as char
    case 'a' => 7 as char
    case _ => c
  }

  /** Which kind of quote the scan is inside; the source keeps two flags, never both set. */
  datatype Quoting = Plain | Double | Single

  datatype TokenResult = Unbalanced | Token(text: string, next: nat)

  /** What one turn of the scanning loop does: stop, or go on from a new position. */
  datatype Turn = Stop(result: TokenResult) | Go(pos: nat, quoting: Quoting, current: string)

  function TokenTurn(line: string, pos: nat, quoting: Quoting, current: string): (t: Turn)
    requires pos < |line|
    ensures t.Go? ==> pos < t.pos <= |line|
    ensures t.Stop? && t.result.Token? ==> pos <= t.result.next <= |line|
    ensures t.Stop? && t.result.Token? && !(quoting.Plain? && IsSpace(line[pos])) ==> pos < t.result.next
  {
    var c := line[pos];
    match quoting
    case Double =>
      if c == '\\' && pos + 1 < |line| then
        var escaped := line[pos + 1];
        if escaped == 'x' && pos + 3 < |line| && HexValue(line[pos + 2]) >= 0 && HexValue(line[pos + 3]) >= 0 then
          Go(pos + 4, Double, current + [(HexValue(line[pos + 2]) * 16 + HexValue(line[pos + 3])) as char])
        else
          Go(pos + 2, Double, current + [Unescape(escaped)])
      else if c == '\"' then
        if pos + 1 < |line| && !IsSpace(line[pos + 1]) then Stop(Unbalanced) else Stop(Token(current, pos + 1))
      else
        Go(pos + 1, Double, current + [c])
    case Single =>
      if c == '\\' && pos + 1 < |line| && line[pos + 1] == '\'' then
        Go(pos + 2, Single, current + ['\''])
      else if c == '\'' then
        if pos + 1 < |line| && !IsSpace(line[pos + 1]) then Stop(Unbalanced) else Stop(Token(current, pos + 1))
      else
        Go(pos + 1, Single, current + [c])
    case Plain =>
      if IsSpace(c) then Stop(Token(current, pos))
      else if c == '\"' && current == "" then Go(pos + 1, Double, current)
      else if c == '\'' && current == "" then Go(pos + 1, Single, current)
      else Go(pos + 1, Plain, current + [c])
  }

  /** One argument, scanned from `pos` with `current` already collected. */
  function ReadToken(line: string, pos: nat, quoting: Quoting, current: string): (r: TokenResult)
    requires pos <= |line|
    ensures r.Token? ==> pos <= r.next <= |line|
    ensures r.Token? && pos < |line| && !(quoting.Plain? && IsSpace(line[pos])) ==> pos < r.next
    decreases |line| - pos
  {
    if pos >= |line| then
      if quoting.Plain? then Token(current, pos) else Unbalanced
    else
      match TokenTurn(line, pos, quoting, current)
      case Stop(result) => result
      case Go(pos', quoting', current') => ReadToken(line, pos', quoting', current')
  }

  /** One turn of the scan: either the result, or the same result from further on. */
  lemma ReadTokenTurn(line: string, pos: nat, quoting: Quoting, current: string)
    requires pos < |line|
    ensures match TokenTurn(line, pos, quoting, current)
            case Stop(result) => ReadToken(line, pos, quoting, current) == result
            case Go(pos', quoting', current') =>
              ReadToken(line, pos, quoting, current) == ReadToken(line, pos', quoting', current')
  {
  }

  function SkipSpaces(line: string, pos: nat): (next: nat)
    requires pos <= |line|
    ensures pos <= next <= |line|
    ensures next < |line| ==> !IsSpace(line[next])
    ensures AllSpace(line[pos..next])
    decreases |line| - pos
  {
    if pos < |line| && IsSpace(line[pos]) then SkipSpaces(line, pos + 1) else pos
  }

  /** The arguments of the line from `pos` on, or None when a quote is unbalanced. */
  function TokenizeFrom(line: string, pos: nat): Option<seq<string>>
    requires pos <= |line|
    decreases |line| - pos
  {
    var start := SkipSpaces(line, pos);
    if start >= |line| then
      Some([])
    else
      match ReadToken(line, start, Plain, "")
      case Unbalanced => None
      case Token(text, next) => Prepend([text], TokenizeFrom(line, next))
  }

  function Tokenize(line: string): Option<seq<string>> {
    TokenizeFrom(line, 0)
  }

  /** An argument is no longer than the part of the line it was read from. */
  lemma {:induction false} ReadTokenFits(line: string, pos: nat, quoting: Quoting, current: string)
    requires pos <= |line|
    ensures var r := ReadToken(line, pos, quoting, current);
            r.Token? ==> |r.text| <= |current| + (r.next - pos)
    decreases |line| - pos
  {
    hide TokenTurn;
    if pos < |line| {
      TurnFits(line, pos, quoting, current);
      var turn := TokenTurn(line, pos, quoting, current);
      if turn.Go? {
        ReadTokenFits(line, turn.pos, turn.quoting, turn.current);
      }
    }
  }

  lemma TurnFits(line: string, pos: nat, quoting: Quoting, current: string)
    requires pos < |line|
    ensures match TokenTurn(line, pos, quoting, current)
            case Stop(result) => result.Token? ==> result.text == current
            case Go(next, _, longer) => |longer| <= |current| + (next - pos)
  {
  }

  /** A line gives no more arguments than it has characters, and none longer than itself. */
  lemma {:induction false} TokensFit(line: string, pos: nat)
    requires pos <= |line|
    ensures var r := TokenizeFrom(line, pos);
            r.Some? ==> |r.value| <= |line| - pos && forall i :: 0 <= i < |r.value| ==> |r.value[i]| <= |line| - pos
    decreases |line| - pos
  {
    hide ReadToken;
    var start := SkipSpaces(line, pos);
    if start < |line| {
      ReadTokenFits(line, start, Plain, "");
      var token := ReadToken(line, start, Plain, "");
      if token.Token? {
        TokensFit(line, token.next);
      }
    }
  }

  /** The tokenizer's inner loop: one argument, read character by character. */
  method ReadArgument(line: string, start: nat) returns (result: TokenResult)
    requires start < |line|
    ensures result == ReadToken(line, start, Plain, "")
  {
    var position := start;
    var current := "";
    var quoting := Plain;
    while true
      invariant start <= position <= |line|
      invariant ReadToken(line, position, quoting, current) == ReadToken(line, start, Plain, "")
      decreases |line| - position
    {
      if position >= |line| {
        return if quoting == Plain then Token(current, position) else Unbalanced;
      }
      ghost var turn := TokenTurn(line, position, quoting, current);
      ReadTokenTurn(line, position, quoting, current);
      var character := line[position];
      match quoting {
        case Double =>
          if character == '\\' && position + 1 < |line| {
            position := position + 1;
            var escaped := line[position];
            if escaped == 'x' && position + 2 < |line| &&
               HexValue(line[position + 1]) >= 0 && HexValue(line[position + 2]) >= 0
            {
              current := current + [(HexValue(line[position + 1]) * 16 + HexValue(line[position + 2])) as char];
              position := position + 2;
            } else {
              current := current + [Unescape(escaped)];
            }
          } else if character == '\"' {
            if position + 1 < |line| && !IsSpace(line[position + 1]) {
              return Unbalanced;
            }
            return Token(current, position + 1);
          } else {
            current := current + [character];
          }
        case Single =>
          if character == '\\' && position + 1 < |line| && line[position + 1] == '\'' {
            current := current + ['\''];
            position := position + 1;
          } else if character == '\'' {
            if position + 1 < |line| && !IsSpace(line[position + 1]) {
              return Unbalanced;
            }
            return Token(current, position + 1);
          } else {
            current := current + [character];
          }
        case Plain =>
          if IsSpace(character) {
            return Token(current, position);
          } else if character == '\"' && current == "" {
            quoting := Double;
          } else if character == '\'' && current == "" {
            quoting := Single;
          } else {
            current := current + [character];
          }
      }
      position := position + 1;
      assert turn == Go(position, quoting, current);
    }
  }

  /** The tokenizer's outer loop computes `Tokenize`. */
  method TokenizeCommandLine(line: string) returns (result: Option<seq<string>>)
    ensures result == Tokenize(line)
  {
    var arguments: seq<string> := [];
    var position := 0;
    Prepended([], Tokenize(line));
    while true
      invariant position <= |line|
      invariant Prepend(arguments, TokenizeFrom(line, position)) == Tokenize(line)
      decreases |line| - position
    {
      ghost var before := position;
      while position < |line| && IsSpace(line[position])
        invariant before <= position <= |line|
        invariant SkipSpaces(line, before) == SkipSpaces(line, position)
      {
        position := position + 1;
      }
      if position >= |line| {
        assert TokenizeFrom(line, before) == Some([]);
        assert arguments + [] == arguments;
        return Some(arguments);
      }
      var token := ReadArgument(line, position);
      if token.Unbalanced? {
        return None;
      }
      Prepended(arguments, TokenizeFrom(line, token.next), token.text);
      arguments := arguments + [token.text];
      position := token.next;
    }
  }

  function Prepend(arguments: seq<string>, rest: Option<seq<string>>): Option<seq<string>> {
    match rest
    case None => None
    case Some(more) => Some(arguments + more)
  }

  lemma Prepended(arguments: seq<string>, rest: Option<seq<string>>, text: string := "")
    ensures Prepend([], rest) == rest
    ensures Prepend(arguments, Prepend([text], rest)) == Prepend(arguments + [text], rest)
  {
    if rest.Some? {
      assert [] + rest.value == rest.value;
      assert arguments + ([text] + rest.value) == arguments + [text] + rest.value;
    }
  }

  // ---------------------------------------------------------------
  // Quoting
  // ---------------------------------------------------------------

  /** A C++ string holds bytes; a Dafny `char` can be larger. */
  predicate IsBytes(s: string) {
    forall i :: 0 <= i < |s| ==> s[i] as int < 256
  }

  function HexDigit(d: nat): (c: char)
    requires d < 16
    ensures HexValue(c) == d && !IsSpace(c)
  {
    if d < 10 then ('0' as int + d) as char else ('a' as int + d - 10) as char
  }

  function QuoteChar(c: char): string
    requires c as int < 256
  {
    if c == '\\' then "\\\\"
    else if c == '\"' then "\\\""
    else if c == '\n' then "\\n"
    else if c == '\r' then "\\r"
    else if c == '\t' then "\\t"
    else if c as int < 0x20 || c as int >= 0x7f then
      ['\\', 'x', HexDigit(c as int / 16), HexDigit(c as int % 16)]
    else [c]
  }

  function QuoteBody(v: string): string
    requires IsBytes(v)
  {
    if v == "" then "" else QuoteChar(v[0]) + QuoteBody(v[1..])
  }

  function Quote(v: string): string
    requires IsBytes(v)
  {
    "\"" + QuoteBody(v) + "\""
  }

  /** The source's loop over the characters. */
  method QuoteValue(v: string) returns (quoted: string)
    requires IsBytes(v)
    ensures quoted == Quote(v)
  {
    hide QuoteChar;
    quoted := "\"";
    for i := 0 to |v|
      invariant quoted + QuoteBody(v[i..]) == "\"" + QuoteBody(v)
    {
      assert v[i..][1..] == v[i + 1..];
      assert quoted + (QuoteChar(v[i]) + QuoteBody(v[i + 1..])) == quoted + QuoteChar(v[i]) + QuoteBody(v[i + 1..]);
      quoted := quoted + QuoteChar(v[i]);
    }
    quoted := quoted + "\"";
  }

  /** Quoted values separated by single spaces. */
  function JoinQuoted(values: seq<string>): string
    requires forall v <- values :: IsBytes(v)
  {
    if values == [] then ""
    else if |values| == 1 then Quote(values[0])
    else Quote(values[0]) + " " + JoinQuoted(values[1..])
  }

  lemma MoveFirst(a: string, b: string)
    requires b != ""
    ensures a + [b[0]] + b[1..] == a + b
  {
  }

  lemma ReadQuotedChar(line: string, pos: nat, c: char, current: string)
    requires c as int < 256
    requires At(line, pos, QuoteChar(c))
    ensures pos < |line|
    ensures TokenTurn(line, pos, Double, current) == Go(pos + |QuoteChar(c)|, Double, current + [c])
  {
    var q := QuoteChar(c);
    assert line[pos + 0] == q[0];
    if |q| > 1 {
      assert line[pos + 1] == q[1];
    }
    if |q| == 4 {
      assert line[pos + 2] == q[2] && line[pos + 3] == q[3];
    }
  }

  /** The argument that ends just before `pos` is followed by a space or the end of the line. */
  predicate Ends(line: string, pos: nat) {
    pos == |line| || (pos < |line| && IsSpace(line[pos]))
  }

  lemma BodyShape(v: string)
    requires v != "" && IsBytes(v)
    ensures QuoteBody(v) + "\"" == QuoteChar(v[0]) + (QuoteBody(v[1..]) + "\"")
  {
  }

  lemma CloseQuote(line: string, pos: nat, current: string)
    requires pos < |line| && line[pos] == '\"' && Ends(line, pos + 1)
    ensures ReadToken(line, pos, Double, current) == Token(current, pos + 1)
  {
    ReadTokenTurn(line, pos, Double, current);
  }

  lemma {:induction false} ReadQuotedBody(line: string, pos: nat, v: string, current: string)
    requires IsBytes(v)
    requires At(line, pos, QuoteBody(v) + "\"")
    requires Ends(line, pos + |QuoteBody(v)| + 1)
    ensures ReadToken(line, pos, Double, current) == Token(current + v, pos + |QuoteBody(v)| + 1)
    decreases |v|
  {
    hide At, QuoteChar, TokenTurn, ReadToken;
    if v == "" {
      assert QuoteBody(v) + "\"" == "\"";
      AtFirst(line, pos, "\"");
      CloseQuote(line, pos, current);
      assert current + v == current;
    } else {
      var q, rest := QuoteChar(v[0]), QuoteBody(v[1..]);
      BodyShape(v);
      AtSplit(line, pos, q, rest + "\"");
      ReadQuotedChar(line, pos, v[0], current);
      ReadQuotedBody(line, pos + |q|, v[1..], current + [v[0]]);
      ReadTokenTurn(line, pos, Double, current);
      MoveFirst(current, v);
    }
  }

  lemma QuoteShape(v: string)
    requires IsBytes(v)
    ensures Quote(v) == "\"" + (QuoteBody(v) + "\"")
    ensures |Quote(v)| == |QuoteBody(v)| + 2
  {
  }

  lemma JoinShape(values: seq<string>)
    requires |values| > 1
    requires forall v <- values :: IsBytes(v)
    ensures JoinQuoted(values) == Quote(values[0]) + (" " + JoinQuoted(values[1..]))
    ensures |JoinQuoted(values)| == |Quote(values[0])| + 1 + |JoinQuoted(values[1..])|
  {
  }

  lemma OpenQuote(line: string, pos: nat)
    requires pos < |line| && line[pos] == '\"'
    ensures ReadToken(line, pos, Plain, "") == ReadToken(line, pos + 1, Double, "")
  {
    ReadTokenTurn(line, pos, Plain, "");
  }

  lemma ReadQuoted(line: string, pos: nat, v: string)
    requires IsBytes(v)
    requires At(line, pos, Quote(v))
    requires Ends(line, pos + |Quote(v)|)
    ensures pos < |line| && line[pos] == '\"'
    ensures ReadToken(line, pos, Plain, "") == Token(v, pos + |Quote(v)|)
  {
    hide *;
    var body := QuoteBody(v) + "\"";
    QuoteShape(v);
    AtSplit(line, pos, "\"", body);
    AtFirst(line, pos, "\"");
    ReadQuotedBody(line, pos + 1, v, "");
    OpenQuote(line, pos);
    assert "" + v == v;
  }

  lemma {:induction false} SkipsAllSpace(line: string, pos: nat)
    requires pos <= |line|
    requires forall i :: pos <= i < |line| ==> IsSpace(line[i])
    ensures SkipSpaces(line, pos) == |line|
    decreases |line| - pos
  {
    if pos < |line| {
      SkipsAllSpace(line, pos + 1);
    }
  }

  /** An argument that starts at `pos` is the first one of the list from there. */
  lemma TokenizeOne(line: string, pos: nat, text: string, next: nat)
    requires pos < |line| && line[pos] == '\"'
    requires ReadToken(line, pos, Plain, "") == Token(text, next)
    ensures TokenizeFrom(line, pos) == Prepend([text], TokenizeFrom(line, next))
  {
  }

  lemma TokenizeSpace(line: string, pos: nat)
    requires pos < |line| && IsSpace(line[pos])
    ensures TokenizeFrom(line, pos) == TokenizeFrom(line, pos + 1)
  {
    assert SkipSpaces(line, pos) == SkipSpaces(line, pos + 1);
  }

  lemma TokenizeEnd(line: string, pos: nat)
    requires pos <= |line|
    requires forall i :: pos <= i < |line| ==> IsSpace(line[i])
    ensures TokenizeFrom(line, pos) == Some([])
  {
    SkipsAllSpace(line, pos);
  }

  lemma PrependFirst(values: seq<string>)
    requires values != []
    ensures Prepend([values[0]], Some(values[1..])) == Some(values)
  {
    assert [values[0]] + values[1..] == values;
  }

  /** One quoted value, then a list that is already known to tokenize. */
  lemma TokenizeQuotedFirst(line: string, pos: nat, values: seq<string>)
    requires values != [] && IsBytes(values[0])
    requires At(line, pos, Quote(values[0]))
    requires Ends(line, pos + |Quote(values[0])|)
    requires TokenizeFrom(line, pos + |Quote(values[0])|) == Some(values[1..])
    ensures TokenizeFrom(line, pos) == Some(values)
  {
    hide *;
    ReadQuoted(line, pos, values[0]);
    TokenizeOne(line, pos, values[0], pos + |Quote(values[0])|);
    PrependFirst(values);
  }

  /** Where the parts of a joined list stand. */
  lemma JoinedAt(line: string, pos: nat, values: seq<string>)
    requires |values| > 1
    requires forall v <- values :: IsBytes(v)
    requires At(line, pos, JoinQuoted(values))
    ensures At(line, pos, Quote(values[0]))
    ensures var next := pos + |Quote(values[0])|;
            next < |line| && line[next] == ' ' && At(line, next + 1, JoinQuoted(values[1..]))
  {
    hide *;
    var first, tail := Quote(values[0]), JoinQuoted(values[1..]);
    JoinShape(values);
    AtSplit(line, pos, first, " " + tail);
    AtSplit(line, pos + |first|, " ", tail);
    AtFirst(line, pos + |first|, " ");
  }

  lemma {:induction false} TokenizeQuoted(line: string, pos: nat, values: seq<string>)
    requires forall v <- values :: IsBytes(v)
    requires At(line, pos, JoinQuoted(values))
    requires forall i :: pos + |JoinQuoted(values)| <= i < |line| ==> IsSpace(line[i])
    ensures TokenizeFrom(line, pos) == Some(values)
    decreases |values|
  {
    hide At, Quote, QuoteBody, ReadToken, TokenizeFrom, IsBytes;
    AtFits(line, pos, JoinQuoted(values));
    if values == [] {
      TokenizeEnd(line, pos);
    } else if |values| == 1 {
      TokenizeEnd(line, pos + |Quote(values[0])|);
      assert values[1..] == [];
      TokenizeQuotedFirst(line, pos, values);
    } else {
      var next := pos + |Quote(values[0])|;
      JoinedAt(line, pos, values);
      JoinShape(values);
      assert Ends(line, next);
      TokenizeSpace(line, next);
      TokenizeQuoted(line, next + 1, values[1..]);
      TokenizeQuotedFirst(line, pos, values);
    }
  }

  /** Tokenizing undoes quoting, for every list of byte strings. */
  lemma QuoteTokenizeInverse(values: seq<string>)
    requires forall v <- values :: IsBytes(v)
    ensures Tokenize(JoinQuoted(values)) == Some(values)
  {
    TokenizeQuoted(JoinQuoted(values), 0, values);
  }

  lemma {:induction false} QuoteBodyOneLine(v: string)
    requires IsBytes(v)
    ensures '\n' !in QuoteBody(v)
  {
    if v != "" {
      QuoteBodyOneLine(v[1..]);
    }
  }

  /** Quoted text never contains a newline, so it always fits on one inline line. */
  lemma {:induction false} QuotedOneLine(values: seq<string>)
    requires forall v <- values :: IsBytes(v)
    ensures '\n' !in JoinQuoted(values)
  {
    if values != [] {
      QuoteBodyOneLine(values[0]);
      if |values| > 1 {
        QuotedOneLine(values[1..]);
      }
    }
  }

  /** A non-empty quoted list starts with a quote. */
  lemma JoinStart(values: seq<string>)
    requires forall v <- values :: IsBytes(v)
    ensures values == [] ==> JoinQuoted(values) == ""
    ensures values != [] ==> JoinQuoted(values) != "" && JoinQuoted(values)[0] == '\"'
  {
  }
}
